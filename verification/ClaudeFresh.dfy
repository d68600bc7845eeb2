/** How long the local Claude replay cache serves a session (internal/cache/claude_thinking_replay_cache.go): whole
    sequences of calls with their times and replies. */
module ClaudeFresh {
  import opened Wrappers
  import opened ByteText
  import opened Eviction
  import opened ClaudeReplay

  datatype Call =
    | Get(key: Key, now: int, next: nat)
    | Store(key: Key, content: Bytes, now: int, next: nat)
    | Replace(key: Key, snapshot: Snapshot, content: Bytes, now: int, next: nat)
    | DeleteIf(key: Key, snapshot: Snapshot, now: int, next: nat)
    | Delete(key: Key)
    | Purge(now: int)
    | Clear

  datatype Reply = Served(contents: Contents, snapshot: Snapshot, found: bool) | Done(ok: bool)

  type Entries = map<Key, Entry>

  /** What the methods of `ClaudeCache` promise of one call. */
  ghost predicate Did(l: Limits, before: Entries, call: Call, after: Entries, reply: Reply) {
    match call
    case Get(key, now, next) => reply.Served? && Got(l, before, key, now, next, after, reply)
    case Store(key, content, now, next) =>
      reply.Done? && Enforced(l, before[key := Entry([content], now, next, false)], after)
    case Replace(key, s, content, now, next) =>
      && reply.Done?
      && (reply.ok <==> 0 < |content| <= l.maxSessionBytes && l.isContentArray(content) && Seen(before, key, s))
      && if reply.ok then Enforced(l, before[key := Entry(Continued(l, before, key, content), now, next, false)], after)
         else after == before
    case DeleteIf(key, s, now, next) =>
      && reply.Done? && (reply.ok <==> Seen(before, key, s))
      && after == if reply.ok then before[key := Entry([], now, next, true)] else before
    case Delete(key) => reply.Done? && after == before - {key}
    case Purge(now) => reply.Done? && after == before - set k | k in before && before[k].timestamp < now - l.ttl
    case Clear => reply.Done? && after == map[]
  }

  ghost predicate Seen(entries: Entries, key: Key, s: Snapshot) {
    s.found == (key in entries) && (key in entries ==> entries[key].generation == s.generation)
  }

  function Continued(l: Limits, entries: Entries, key: Key, content: Bytes): Contents {
    Appended(l, if key in entries then entries[key].contents else [], content)
  }

  ghost predicate Got(l: Limits, before: Entries, key: Key, now: int, next: nat, after: Entries, reply: Reply)
    requires reply.Served?
  {
    && key in after && reply.snapshot == Snapshot(true, after[key].generation)
    && reply.contents == after[key].contents && reply.found == (reply.contents != [])
    && if key in before && now <= before[key].timestamp + l.ttl
       then after == before[key := before[key].(timestamp := now)]
       else Reserved(l, before, after, key, Entry([], now, next, true))
  }

  /** Each method of the cache is one of these calls. A conditional deletion with a snapshot that a Get has handed out,
      which says found, leaves the cache within its bounds. */
  method Perform(c: ClaudeCache, call: Call) returns (reply: Reply)
    requires c.Valid() && (call.Store? ==> c.limits.ValidContent(call.content))
    requires call.DeleteIf? ==> call.snapshot.found || call.key in c.entries
    modifies c
    ensures c.Valid() && Did(c.limits, old(c.entries), call, c.entries, reply)
  {
    match call
    case Get(key, now, next) =>
      var contents, snapshot, found := c.Get(key, now, next);
      reply := Served(contents, snapshot, found);
    case Store(key, content, now, next) =>
      c.Store(key, content, now, next);
      reply := Done(true);
    case Replace(key, snapshot, content, now, next) =>
      var published := c.Replace(key, snapshot, content, now, next);
      reply := Done(published);
    case DeleteIf(key, snapshot, now, next) =>
      var deleted := c.DeleteIfUnchanged(key, snapshot, now, next);
      reply := Done(deleted);
    case Delete(key) =>
      c.Delete(key);
      reply := Done(true);
    case Purge(now) =>
      c.Purge(now);
      reply := Done(true);
    case Clear =>
      c.Clear();
      reply := Done(true);
  }

  /** One call after another: `states[k]` is what the cache holds before the `k`-th. */
  ghost predicate Run(l: Limits, states: seq<Entries>, calls: seq<Call>, replies: seq<Reply>) {
    && |states| == |calls| + 1 && |replies| == |calls|
    && forall k | 0 <= k < |calls| :: Did(l, states[k], calls[k], states[k + 1], replies[k])
  }

  /** The call has left a session under the key at `t`, and it is there. */
  ghost predicate Stores(call: Call, reply: Reply, after: Entries, key: Key, t: int) {
    && key in after
    && ((call.Store? && call.key == key && call.now == t)
        || (call.Replace? && call.key == key && call.now == t && reply == Done(true)))
  }

  /** When a key stored at `t` was last read. */
  function LastRead(calls: seq<Call>, key: Key, t: int): int {
    if calls == [] then t
    else
      var last := calls[|calls| - 1];
      if last.Get? && last.key == key then last.now else LastRead(calls[..|calls| - 1], key, t)
  }

  /** The call deletes nothing of this key, writes nothing over it and does not evict it, and if it looks at the clock
      no more than `ttl` has passed since `t`. */
  ghost predicate Spares(l: Limits, call: Call, reply: Reply, after: Entries, key: Key, t: int) {
    match call
    case Get(k, now, _) => if k == key then now - t <= l.ttl else key in after
    case Purge(now) => now - t <= l.ttl
    case Clear => false
    case Replace(k, _, _, _, _) => (k != key || reply == Done(false)) && key in after
    case DeleteIf(k, _, _, _) => k != key || reply == Done(false)
    case Store(k, _, _, _) => k != key && key in after
    case Delete(k) => k != key
  }

  ghost predicate Holds(entries: Entries, key: Key, e: Entry, t: int) {
    key in entries && entries[key] == e.(timestamp := t)
  }

  lemma EnforcedHolds(l: Limits, before: Entries, after: Entries, key: Key, e: Entry, t: int)
    requires Holds(before, key, e, t) && Enforced(l, before, after) && key in after
    ensures Holds(after, key, e, t)
  {
  }

  /** What a Store or a published Replace leaves under its key, if the limits leave it there. */
  lemma StoreHolds(l: Limits, before: Entries, call: Call, after: Entries, reply: Reply, key: Key, t: int)
    requires Did(l, before, call, after, reply) && Stores(call, reply, after, key, t)
    ensures var contents := if call.Store? then [call.content] else Continued(l, before, key, call.content);
      Holds(after, key, Entry(contents, t, call.next, false), t)
  {
    var contents := if call.Store? then [call.content] else Continued(l, before, key, call.content);
    var e := Entry(contents, t, call.next, false);
    EnforcedHolds(l, before[key := e], after, key, e, t);
  }

  lemma SparedHolds(l: Limits, before: Entries, call: Call, after: Entries, reply: Reply, key: Key, e: Entry, t: int)
    requires Did(l, before, call, after, reply) && Spares(l, call, reply, after, key, t) && Holds(before, key, e, t)
    ensures Holds(after, key, e, if call.Get? && call.key == key then call.now else t)
  {
    match call
    case Get(k, now, next) =>
      if k != key && !(k in before && now <= before[k].timestamp + l.ttl) {
        var tombstone := Entry([], now, next, true);
        var kept: Entries :| Enforced(l, before[k := tombstone], kept) && after == kept[k := tombstone];
        EnforcedHolds(l, before[k := tombstone], kept, key, e, t);
      }
    case Store(k, content, now, next) =>
      EnforcedHolds(l, before[k := Entry([content], now, next, false)], after, key, e, t);
    case Replace(k, s, content, now, next) =>
      if reply.ok {
        EnforcedHolds(l, before[k := Entry(Continued(l, before, k, content), now, next, false)], after, key, e, t);
      }
    case _ =>
  }

  lemma {:induction false} HoldsOn(l: Limits, states: seq<Entries>, calls: seq<Call>, replies: seq<Reply>, i: nat,
                                   j: nat, key: Key, e: Entry, t: int)
    requires Run(l, states, calls, replies) && i <= j <= |calls| && Holds(states[i], key, e, t)
    requires forall k | i <= k < j ::
      Spares(l, calls[k], replies[k], states[k + 1], key, LastRead(calls[i..k], key, t))
    ensures Holds(states[j], key, e, LastRead(calls[i..j], key, t))
    decreases j
  {
    hide Did, Holds, Spares;
    if i < j {
      var k := j - 1;
      HoldsOn(l, states, calls, replies, i, k, key, e, t);
      assert Did(l, states[k], calls[k], states[k + 1], replies[k]);
      SparedHolds(l, states[k], calls[k], states[j], replies[k], key, e, LastRead(calls[i..k], key, t));
      assert calls[i..j][..k - i] == calls[i..k];
    } else {
      assert calls[i..j] == [];
    }
  }

  lemma HeldIsServed(l: Limits, before: Entries, call: Call, after: Entries, reply: Reply, e: Entry, t: int)
    requires Did(l, before, call, after, reply) && call.Get? && Holds(before, call.key, e, t)
    ensures reply.Served? && reply.contents == (if call.now - t <= l.ttl then e.contents else [])
    ensures reply.found == (reply.contents != []) && call.key in after && after[call.key].timestamp == call.now
  {
    hide Enforced;
  }

  lemma ReadHolds(l: Limits, before: Entries, call: Call, after: Entries, reply: Reply)
    requires Did(l, before, call, after, reply) && call.Get? && call.key in after
    ensures Holds(after, call.key, after[call.key], after[call.key].timestamp)
    ensures reply.Served? && reply.snapshot == Snapshot(true, after[call.key].generation)
  {
    hide Enforced;
  }

  lemma HeldIsReplaced(l: Limits, before: Entries, call: Call, after: Entries, reply: Reply, e: Entry, t: int)
    requires Did(l, before, call, after, reply) && call.Replace? && Holds(before, call.key, e, t)
    requires call.snapshot == Snapshot(true, e.generation)
    requires 0 < |call.content| <= l.maxSessionBytes && l.isContentArray(call.content)
    ensures reply == Done(true)
  {
    hide Enforced, Continued;
  }

  lemma ServedLater(l: Limits, states: seq<Entries>, calls: seq<Call>, replies: seq<Reply>, i: nat, j: nat, key: Key,
                    e: Entry, t: int)
    requires Run(l, states, calls, replies) && i <= j < |calls| && Holds(states[i], key, e, t)
    requires forall k | i <= k < j ::
      Spares(l, calls[k], replies[k], states[k + 1], key, LastRead(calls[i..k], key, t))
    requires calls[j].Get? && calls[j].key == key
    ensures replies[j].Served?
    ensures replies[j].contents == (if calls[j].now - LastRead(calls[i..j], key, t) <= l.ttl then e.contents else [])
    ensures replies[j].found == (replies[j].contents != [])
    ensures key in states[j + 1] && states[j + 1][key].timestamp == calls[j].now
  {
    hide Did, Spares, Holds;
    assert Did(l, states[j], calls[j], states[j + 1], replies[j]);
    HoldsOn(l, states, calls, replies, i, j, key, e, t);
    hide Run;
    HeldIsServed(l, states[j], calls[j], states[j + 1], replies[j], e, LastRead(calls[i..j], key, t));
  }

  /** A session that a Store or a Replace has left is served to every Get for as long as `ttl` after it was left or last
      read, with the content given to the Store or Replace as its last turn where that was new, if nothing deletes,
      overwrites or evicts it; and to no Get after that. Each Get that it is served to starts the time anew. */
  lemma FreshIsServed(l: Limits, states: seq<Entries>, calls: seq<Call>, replies: seq<Reply>, i: nat, j: nat, key: Key,
                      t: int)
    requires Run(l, states, calls, replies) && i < j < |calls| && Stores(calls[i], replies[i], states[i + 1], key, t)
    requires forall k | i < k < j ::
      Spares(l, calls[k], replies[k], states[k + 1], key, LastRead(calls[i + 1..k], key, t))
    requires calls[j].Get? && calls[j].key == key
    ensures var now, last := calls[j].now, LastRead(calls[i + 1..j], key, t);
      var contents := if calls[i].Store? then [calls[i].content] else Continued(l, states[i], key, calls[i].content);
      && replies[j].Served? && replies[j].contents == (if now - last <= l.ttl then contents else [])
      && replies[j].found == (replies[j].contents != [])
      && key in states[j + 1] && states[j + 1][key].timestamp == now
  {
    hide Did, Spares, Holds, Continued;
    assert Did(l, states[i], calls[i], states[i + 1], replies[i]);
    StoreHolds(l, states[i], calls[i], states[i + 1], replies[i], key, t);
    var contents := if calls[i].Store? then [calls[i].content] else Continued(l, states[i], key, calls[i].content);
    ServedLater(l, states, calls, replies, i + 1, j, key, Entry(contents, t, calls[i].next, false), t);
  }

  /** A Replace with the snapshot of the last Get of its key, nothing else having happened to the key since, publishes
      every acceptable content. */
  lemma CurrentIsPublished(l: Limits, states: seq<Entries>, calls: seq<Call>, replies: seq<Reply>, i: nat, j: nat,
                           key: Key, e: Entry)
    requires Run(l, states, calls, replies) && i < j < |calls| && calls[i].Get? && calls[i].key == key
    requires key in states[i + 1] && states[i + 1][key] == e
    requires forall k | i < k < j ::
      Spares(l, calls[k], replies[k], states[k + 1], key, LastRead(calls[i + 1..k], key, e.timestamp))
    requires calls[j].Replace? && calls[j].key == key
    requires replies[i].Served? && calls[j].snapshot == replies[i].snapshot
    requires 0 < |calls[j].content| <= l.maxSessionBytes && l.isContentArray(calls[j].content)
    ensures replies[j] == Done(true)
  {
    hide Did, Spares, Holds;
    assert Did(l, states[i], calls[i], states[i + 1], replies[i]);
    assert Did(l, states[j], calls[j], states[j + 1], replies[j]);
    hide Run;
    ReadHolds(l, states[i], calls[i], states[i + 1], replies[i]);
    HoldsOn(l, states, calls, replies, i + 1, j, key, e, e.timestamp);
    HeldIsReplaced(l, states[j], calls[j], states[j + 1], replies[j], e, LastRead(calls[i + 1..j], key, e.timestamp));
  }

  /** Whatever a call evicts is at least as old as what stays. */
  lemma EvictsTheOldest(l: Limits, before: Entries, call: Call, after: Entries, reply: Reply, lost: Key, kept: Key)
    requires Did(l, before, call, after, reply) && (call.Get? || call.Store? || call.Replace?)
    requires lost in before && lost !in after && lost != call.key
    requires kept in before && kept in after && kept != call.key
    ensures before[lost].timestamp <= before[kept].timestamp && after[kept] == before[kept]
  {
    match call
    case Get(key, now, next) =>
      assert !(key in before && now <= before[key].timestamp + l.ttl);
      var stored := before[key := Entry([], now, next, true)];
      var mid: Entries :| Enforced(l, stored, mid) && after == mid[key := Entry([], now, next, true)];
      EnforcedTakesTheOldest(l, stored, mid, lost, kept);
    case Store(key, content, now, next) =>
      EnforcedTakesTheOldest(l, before[key := Entry([content], now, next, false)], after, lost, kept);
    case Replace(key, s, content, now, next) =>
      EnforcedTakesTheOldest(l, before[key := Entry(Continued(l, before, key, content), now, next, false)], after, lost,
                             kept);
  }

  lemma EnforcedTakesTheOldest(l: Limits, before: Entries, after: Entries, lost: Key, kept: Key)
    requires Enforced(l, before, after) && lost in before && lost !in after && kept in after
    ensures kept in before && before[lost].timestamp <= before[kept].timestamp && after[kept] == before[kept]
  {
    hide Sum, LastBatch;
  }

  /** The cache with what a Store or a Replace puts into it. */
  ghost function StoredBy(l: Limits, before: Entries, call: Call): Entries
    requires call.Store? || call.Replace?
  {
    var contents := if call.Store? then [call.content] else Continued(l, before, call.key, call.content);
    before[call.key := Entry(contents, call.now, call.next, false)]
  }

  /** A Store or a published Replace evicts nothing when the limits leave room for what it has stored, and otherwise no
      batch more than it takes to get within them. */
  lemma EvictsNoMoreThanNeeded(l: Limits, before: Entries, call: Call, after: Entries, reply: Reply)
    requires Did(l, before, call, after, reply) && (call.Store? || (call.Replace? && reply == Done(true)))
    ensures |after| <= l.maxEntries && Sum(after) <= l.maxTotalBytes
    ensures var stored := StoredBy(l, before, call);
      if |stored| <= l.maxEntries && Sum(stored) <= l.maxTotalBytes then after == stored
      else exists mid: Entries :: BatchBefore(l, stored, mid, after)
  {
    hide Sum, Continued;
    EnforcedNoMore(l, StoredBy(l, before, call), after);
  }

  /** Whole batches before the last one still left too much. */
  ghost predicate BatchBefore(l: Limits, stored: Entries, mid: Entries, after: Entries) {
    && (|mid| > l.maxEntries || Sum(mid) > l.maxTotalBytes)
    && after.Keys <= mid.Keys <= stored.Keys
    && (exists batches: nat :: Apart(|stored|, |mid|, batches, l.evictBatch))
    && |after| == if l.evictBatch < |mid| then |mid| - l.evictBatch else 0
  }

  lemma EnforcedNoMore(l: Limits, stored: Entries, after: Entries)
    requires Enforced(l, stored, after)
    ensures |after| <= l.maxEntries && Sum(after) <= l.maxTotalBytes
    ensures if |stored| <= l.maxEntries && Sum(stored) <= l.maxTotalBytes then after == stored
            else exists mid: Entries :: BatchBefore(l, stored, mid, after)
  {
    hide Sum, Apart;
    if !(|stored| <= l.maxEntries && Sum(stored) <= l.maxTotalBytes) {
      var mid: Entries :| LastBatch(l, stored, mid, after);
      assert BatchBefore(l, stored, mid, after);
    }
  }
}
