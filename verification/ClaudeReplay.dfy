/** The local Claude thinking replay cache (internal/cache/claude_thinking_replay_cache.go): sessions of
    assistant turns, each within its own limits, and one counter of all cached bytes. */
module ClaudeReplay {
  import opened Wrappers
  import opened ByteText
  import opened Eviction

  type Key = string

  /** One content array per assistant turn. */
  type Contents = seq<Bytes>

  datatype Entry = Entry(contents: Contents, timestamp: int, generation: nat, deleted: bool)

  datatype Snapshot = Snapshot(found: bool, generation: nat)

  /** The limits of the source, and the JSON facts it depends on: the canonical form of a text (none when
      it does not parse) and whether a text is an acceptable content array. */
  datatype Limits = Limits(maxTurns: nat, maxSessionBytes: nat, maxEntries: nat, evictBatch: nat, maxTotalBytes: nat,
                           ttl: int, canonical: Bytes -> Option<Bytes>, isContentArray: Bytes -> bool)
  {
    predicate Valid() {
      maxTurns >= 1 && maxEntries >= 1 && evictBatch >= 2
    }

    predicate JsonEqual(a: Bytes, b: Bytes) {
      canonical(a).Some? && canonical(a) == canonical(b)
    }

    predicate ValidContent(content: Bytes) {
      0 < |content| <= maxSessionBytes && isContentArray(content)
    }

    predicate Fits(contents: Contents) {
      |contents| <= maxTurns && TotalBytes(contents) <= maxSessionBytes
    }

    /** A session list as the cache keeps it: within its limits, no turn twice. */
    ghost predicate SessionOk(contents: Contents) {
      Fits(contents) && NoTurnTwice(this, contents)
    }
  }

  function TotalBytes(contents: Contents): nat {
    if contents == [] then 0 else |contents[0]| + TotalBytes(contents[1..])
  }

  // ---- one session -------------------------------------------------------------------------------

  /** The longest part at the end that fits. */
  function DropToFit(l: Limits, contents: Contents): Contents {
    if contents == [] || l.Fits(contents) then contents else DropToFit(l, contents[1..])
  }

  function Appended(l: Limits, contents: Contents, content: Bytes): Contents {
    if HasTurn(l, contents, content) then contents
    else DropToFit(l, contents + [content])
  }

  /** `appendClaudeThinkingReplayContent`. */
  method AppendContent(l: Limits, contents: Contents, content: Bytes) returns (result: Contents)
    ensures result == Appended(l, contents, content)
  {
    for i := 0 to |contents|
      invariant forall j | 0 <= j < i :: !l.JsonEqual(contents[j], content)
    {
      if l.JsonEqual(contents[i], content) {
        return contents;
      }
    }
    result := contents + [content];
    while |result| > l.maxTurns || TotalBytes(result) > l.maxSessionBytes
      invariant DropToFit(l, result) == DropToFit(l, contents + [content])
      decreases |result|
    {
      if |result| == 0 {
        break;
      }
      result := result[1..];
    }
  }

  /** `r` is `contents` from the first place on from where it fits. */
  ghost predicate LongestEnd(l: Limits, contents: Contents, r: Contents) {
    exists n: nat :: n < |contents| && r == contents[n..] && l.Fits(r) && NoFitBefore(l, contents, n)
  }

  ghost predicate NoFitBefore(l: Limits, contents: Contents, n: nat)
    requires n <= |contents|
  {
    forall m: nat | m < n :: !l.Fits(contents[m..])
  }

  lemma OneFits(l: Limits, content: Bytes)
    requires l.maxTurns >= 1 && |content| <= l.maxSessionBytes
    ensures l.Fits([content])
  {
    assert [content][1..] == [];
  }

  /** Nothing but the last turn need stay, so something always does. */
  lemma {:induction false} DropToFitIsLongest(l: Limits, contents: Contents)
    requires l.maxTurns >= 1 && contents != [] && |contents[|contents| - 1]| <= l.maxSessionBytes
    ensures LongestEnd(l, contents, DropToFit(l, contents))
    decreases |contents|
  {
    assert contents[0..] == contents;
    if |contents| == 1 {
      OneFits(l, contents[0]);
      assert contents == [contents[0]];
      assert NoFitBefore(l, contents, 0);
    } else if l.Fits(contents) {
      assert NoFitBefore(l, contents, 0);
    } else {
      var rest := contents[1..];
      DropToFitIsLongest(l, rest);
      var n: nat :| n < |rest| && DropToFit(l, rest) == rest[n..] && l.Fits(rest[n..]) && NoFitBefore(l, rest, n);
      NoFitBeforeNext(l, contents, n);
      assert contents[n + 1..] == rest[n..];
    }
  }

  lemma NoFitBeforeNext(l: Limits, contents: Contents, n: nat)
    requires contents != [] && n <= |contents[1..]| && !l.Fits(contents) && NoFitBefore(l, contents[1..], n)
    ensures NoFitBefore(l, contents, n + 1)
  {
    forall m: nat | m < n + 1
      ensures !l.Fits(contents[m..])
    {
      if m == 0 {
        assert contents[0..] == contents;
      } else {
        assert contents[m..] == contents[1..][m - 1..];
        assert !l.Fits(contents[1..][m - 1..]);
      }
    }
  }

  ghost predicate NoTurnTwice(l: Limits, contents: Contents) {
    forall i, j | 0 <= i < j < |contents| :: !l.JsonEqual(contents[i], contents[j])
  }

  lemma EndKeepsNoTurnTwice(l: Limits, contents: Contents, n: nat)
    requires NoTurnTwice(l, contents) && n <= |contents|
    ensures NoTurnTwice(l, contents[n..])
  {
  }

  lemma NewTurnIsNew(l: Limits, contents: Contents, content: Bytes)
    requires NoTurnTwice(l, contents) && !HasTurn(l, contents, content)
    ensures NoTurnTwice(l, contents + [content])
  {
  }

  predicate HasTurn(l: Limits, contents: Contents, content: Bytes) {
    exists i | 0 <= i < |contents| :: l.JsonEqual(contents[i], content)
  }

  /** Appending a valid turn to a session in order leaves it in order. A turn already there changes nothing;
      a new one ends up last, and what goes to make room is only the oldest turns, as few as the limits
      ask for. */
  lemma AppendedLaws(l: Limits, contents: Contents, content: Bytes)
    requires l.Valid() && l.SessionOk(contents) && l.ValidContent(content)
    ensures var r := Appended(l, contents, content);
            && l.SessionOk(r)
            && (if HasTurn(l, contents, content) then r == contents
                else r != [] && r[|r| - 1] == content && LongestEnd(l, contents + [content], r))
  {
    hide DropToFit;
    if !HasTurn(l, contents, content) {
      var all := contents + [content];
      DropToFitIsLongest(l, all);
      var n: nat :| n < |all| && DropToFit(l, all) == all[n..] && l.Fits(all[n..]) && NoFitBefore(l, all, n);
      NewTurnIsNew(l, contents, content);
      EndKeepsNoTurnTwice(l, all, n);
    }
  }

  // ---- what the limits count -----------------------------------------------------------------------

  /** The turns written one after another. */
  function Text(contents: Contents): Bytes {
    if contents == [] then [] else contents[0] + Text(contents[1..])
  }

  lemma TextOfOne(content: Bytes)
    ensures Text([content]) == content
  {
    assert [content][1..] == [];
  }

  lemma {:induction false} TextOfSum(a: Contents, b: Contents)
    ensures Text(a + b) == Text(a) + Text(b)
  {
    if a == [] {
      assert a + b == b;
    } else {
      assert (a + b)[1..] == a[1..] + b;
      TextOfSum(a[1..], b);
    }
  }

  lemma {:induction false} BytesAreText(contents: Contents)
    ensures TotalBytes(contents) == |Text(contents)|
  {
    if contents != [] {
      BytesAreText(contents[1..]);
    }
  }

  /** A turn that the session already has, up to the JSON text it is written in, changes nothing. Any other turn is
      added, and the oldest ones go, as few as it takes to be within the number of turns and the bytes of a session. */
  lemma AppendedByText(l: Limits, contents: Contents, content: Bytes)
    requires l.maxTurns >= 1 && |content| <= l.maxSessionBytes
    ensures var r, all := Appended(l, contents, content), contents + [content];
      if exists i :: 0 <= i < |contents| && l.canonical(contents[i]).Some? &&
                     l.canonical(contents[i]) == l.canonical(content)
      then r == contents
      else
        && 0 < |r| <= |all| && r == all[|all| - |r|..]
        && |r| <= l.maxTurns && |Text(r)| <= l.maxSessionBytes
        && forall i | 0 <= i < |all| - |r| :: |all[i..]| > l.maxTurns || |Text(all[i..])| > l.maxSessionBytes
  {
    hide DropToFit;
    if !HasTurn(l, contents, content) {
      var all := contents + [content];
      DropToFitIsLongest(l, all);
      var n: nat :| n < |all| && DropToFit(l, all) == all[n..] && l.Fits(all[n..]) && NoFitBefore(l, all, n);
      BytesAreText(all[n..]);
      forall i: nat | i < n ensures |all[i..]| > l.maxTurns || |Text(all[i..])| > l.maxSessionBytes {
        BytesAreText(all[i..]);
        assert !l.Fits(all[i..]);
      }
    }
  }

  // ---- the byte counter --------------------------------------------------------------------------

  /** All cached bytes. */
  ghost function Sum(entries: map<Key, Entry>): nat {
    if entries == map[] then 0
    else
      var k :| k in entries;
      TotalBytes(entries[k].contents) + Sum(entries - {k})
  }

  lemma {:induction false} SumWithout(entries: map<Key, Entry>, k: Key)
    requires k in entries
    ensures Sum(entries) == TotalBytes(entries[k].contents) + Sum(entries - {k})
    decreases |entries|
  {
    var p :| p in entries && Sum(entries) == TotalBytes(entries[p].contents) + Sum(entries - {p});
    if p != k {
      RemovalCount(entries, {p});
      SumWithout(entries - {p}, k);
      assert (entries - {p}) - {k} == (entries - {k}) - {p};
      RemovalCount(entries, {k});
      SumWithout(entries - {k}, p);
    }
  }

  lemma SumPut(entries: map<Key, Entry>, k: Key, e: Entry)
    ensures Sum(entries[k := e]) == TotalBytes(e.contents) + Sum(entries) -
                                    if k in entries then TotalBytes(entries[k].contents) else 0
  {
    SumWithout(entries[k := e], k);
    assert entries[k := e] - {k} == entries - {k};
    if k in entries {
      SumWithout(entries, k);
    } else {
      assert entries - {k} == entries;
    }
  }

  /** The counter, entry by entry, by the text it counts. */
  lemma SumByText(entries: map<Key, Entry>, k: Key)
    requires k in entries
    ensures Sum(map[]) == 0 && Sum(entries) == |Text(entries[k].contents)| + Sum(entries - {k})
  {
    SumWithout(entries, k);
    BytesAreText(entries[k].contents);
  }

  function Stamps(entries: map<Key, Entry>): map<Key, int> {
    map k | k in entries :: entries[k].timestamp
  }

  /** Evicting to the limits: nothing goes when the map is within them; otherwise only entries at least as
      old as all that stay, batch by batch, until the map is within them. */
  ghost predicate Enforced(l: Limits, before: map<Key, Entry>, after: map<Key, Entry>) {
    && |after| <= l.maxEntries && Sum(after) <= l.maxTotalBytes
    && EvictedFrom(before, after)
    && if |before| <= l.maxEntries && Sum(before) <= l.maxTotalBytes then after == before
       else exists mid: map<Key, Entry> :: LastBatch(l, before, mid, after)
  }

  ghost predicate Apart(more: nat, less: nat, batches: nat, batch: nat) {
    more == less + batches * batch
  }

  /** What the last batch was taken from: it was still beyond a limit. */
  ghost predicate LastBatch(l: Limits, before: map<Key, Entry>, mid: map<Key, Entry>, after: map<Key, Entry>) {
    && (|mid| > l.maxEntries || Sum(mid) > l.maxTotalBytes)
    && EvictedFrom(before, mid) && EvictedFrom(mid, after)
    && (exists batches: nat :: Apart(|before|, |mid|, batches, l.evictBatch))
    && |after| == if l.evictBatch < |mid| then |mid| - l.evictBatch else 0
  }

  ghost predicate EvictedFrom(before: map<Key, Entry>, after: map<Key, Entry>) {
    && (forall k | k in after :: k in before && after[k] == before[k])
    && (forall v, k | v in before && v !in after && k in after :: before[v].timestamp <= before[k].timestamp)
  }

  lemma EvictedFurther(before: map<Key, Entry>, entries: map<Key, Entry>, victims: set<Key>)
    requires EvictedFrom(before, entries) && victims <= entries.Keys && AllOlder(Stamps(entries), victims)
    ensures EvictedFrom(before, entries - victims)
  {
    var after := entries - victims;
    forall v, k | v in before && v !in after && k in after
      ensures before[v].timestamp <= before[k].timestamp
    {
      if v in entries {
        assert v in victims && k in Stamps(entries) && k !in victims;
        assert Stamps(entries)[v] <= Stamps(entries)[k];
      }
    }
  }

  /** After some batches of the eviction. */
  ghost predicate EnforcedSoFar(l: Limits, before: map<Key, Entry>, mid: map<Key, Entry>, batches: nat,
                                entries: map<Key, Entry>) {
    && EvictedFrom(before, entries)
    && (entries != map[] ==> Apart(|before|, |entries|, batches, l.evictBatch))
    && if batches == 0 then entries == before
       else LastBatch(l, before, mid, entries) && (|before| > l.maxEntries || Sum(before) > l.maxTotalBytes)
  }

  lemma EnforcedStart(l: Limits, before: map<Key, Entry>)
    ensures EnforcedSoFar(l, before, before, 0, before)
  {
    hide Sum, LastBatch;
  }

  /** One batch less. */
  lemma BatchTaken(before: map<Key, Entry>, now: map<Key, Entry>, victims: set<Key>, batch: nat)
    requires EvictedFrom(before, now) && OldestOf(Stamps(now), victims, batch)
    ensures var after := now - victims;
      && EvictedFrom(before, after) && EvictedFrom(now, after)
      && |after| == if batch < |now| then |now| - batch else 0
  {
    hide OldestOf, AllOlder, EvictedFrom;
    OldestAre(now, victims, batch);
    RemovalCount(now, victims);
    NotEvicted(now);
    EvictedFurther(before, now, victims);
    EvictedFurther(now, now, victims);
  }

  lemma EnforcedNext(l: Limits, before: map<Key, Entry>, mid: map<Key, Entry>, batches: nat, now: map<Key, Entry>,
                     victims: set<Key>, after: map<Key, Entry>)
    requires EnforcedSoFar(l, before, mid, batches, now)
    requires now != map[] && (|now| > l.maxEntries || Sum(now) > l.maxTotalBytes)
    requires OldestOf(Stamps(now), victims, l.evictBatch) && after == now - victims
    ensures EnforcedSoFar(l, before, now, batches + 1, after)
  {
    hide Sum, OldestOf, EvictedFrom, Apart, Stamps;
    BatchTaken(before, now, victims, l.evictBatch);
    BatchesAdd(|before|, |now|, batches, l.evictBatch);
    CountsAgree(after);
  }

  lemma CountsAgree(after: map<Key, Entry>)
    ensures after != map[] ==> |after| > 0
  {
    if after != map[] {
      assert |after.Keys| == |after| && after.Keys != {};
    }
  }

  lemma NotEvicted(now: map<Key, Entry>)
    ensures EvictedFrom(now, now)
  {
  }

  lemma OldestAre(now: map<Key, Entry>, victims: set<Key>, count: nat)
    requires OldestOf(Stamps(now), victims, count)
    ensures victims <= now.Keys && AllOlder(Stamps(now), victims)
    ensures |victims| == if count < |now| then count else |now|
  {
    StampsCount(now);
  }

  lemma BatchesAdd(all: nat, left: nat, batches: nat, batch: nat)
    requires Apart(all, left, batches, batch)
    ensures left >= batch ==> Apart(all, left - batch, batches + 1, batch)
  {
  }

  lemma EnforcedEnd(l: Limits, before: map<Key, Entry>, mid: map<Key, Entry>, batches: nat, after: map<Key, Entry>)
    requires EnforcedSoFar(l, before, mid, batches, after) && |after| <= l.maxEntries && Sum(after) <= l.maxTotalBytes
    requires l.evictBatch >= 2
    ensures Enforced(l, before, after)
    ensures after == before || |after| + 2 <= |before| || after == map[]
  {
    hide Sum, LastBatch, EvictedFrom;
    if batches > 0 {
      assert batches * l.evictBatch >= 1 * 2;
    }
  }

  /** A key that held nothing live is reserved: its tombstone is put, the limits are enforced, and the
      tombstone is written again. */
  ghost predicate Reserved(l: Limits, before: map<Key, Entry>, after: map<Key, Entry>, key: Key, tombstone: Entry) {
    var stored := before[key := tombstone];
    exists kept: map<Key, Entry> :: Enforced(l, stored, kept) && after == kept[key := tombstone]
  }

  lemma OneEmptyIsOk(l: Limits)
    ensures l.SessionOk([])
  {
  }

  lemma StampsCount(entries: map<Key, Entry>)
    ensures Stamps(entries).Keys == entries.Keys && |Stamps(entries)| == |entries|
  {
    assert |Stamps(entries).Keys| == |Stamps(entries)| && |entries.Keys| == |entries|;
  }

  // ---- the source's form -------------------------------------------------------------------------

  class ClaudeCache {
    const limits: Limits
    var entries: map<Key, Entry>
    var totalBytes: int

    /** The counter is right, and every session is in order. */
    ghost predicate Accounted()
      reads this
    {
      && limits.Valid() && totalBytes == Sum(entries)
      && forall k | k in entries ::
           limits.SessionOk(entries[k].contents) && (entries[k].deleted ==> entries[k].contents == [])
    }

    ghost predicate Valid()
      reads this
    {
      Accounted() && |entries| <= limits.maxEntries && totalBytes <= limits.maxTotalBytes
    }

    constructor (limits: Limits)
      requires limits.Valid()
      ensures Valid() && entries == map[] && this.limits == limits
    {
      this.limits := limits;
      entries, totalBytes := map[], 0;
    }

    /** Sets one entry and moves the counter by the difference. */
    method Put(key: Key, e: Entry)
      requires Accounted() && limits.SessionOk(e.contents) && (e.deleted ==> e.contents == [])
      modifies this`entries, this`totalBytes
      ensures Accounted() && entries == old(entries)[key := e]
    {
      SumPut(entries, key, e);
      if key in entries {
        totalBytes := totalBytes - TotalBytes(entries[key].contents);
      }
      totalBytes := totalBytes + TotalBytes(e.contents);
      entries := entries[key := e];
    }

    /** Deletes one entry and takes its bytes off the counter. */
    method Remove(key: Key)
      requires Accounted() && key in entries
      modifies this`entries, this`totalBytes
      ensures Accounted() && entries == old(entries) - {key} && |entries| == |old(entries)| - 1
    {
      SumWithout(entries, key);
      RemovalCount(entries, {key});
      totalBytes := totalBytes - TotalBytes(entries[key].contents);
      entries := entries - {key};
    }

    /** Deletes the given entries one by one. */
    method RemoveAll(victims: set<Key>)
      requires Accounted() && victims <= entries.Keys
      modifies this`entries, this`totalBytes
      ensures Accounted() && entries == old(entries) - victims
      ensures |entries| == |old(entries)| - |victims| && Sum(entries) <= Sum(old(entries))
    {
      ghost var before := entries;
      var rest := victims;
      RemovedNone(before, victims);
      while rest != {}
        invariant Accounted() && RemovedSoFar(before, entries, victims, rest) && Sum(entries) <= Sum(before)
        decreases |rest|
      {
        var k :| k in rest;
        RemovedNext(before, entries, victims, rest, k);
        SumWithout(entries, k);
        hide RemovedSoFar;
        Remove(k);
        rest := rest - {k};
      }
      RemovedEnd(before, entries, victims);
    }

    /** `evictOldest…EntriesLocked`. */
    method EvictOldest(count: nat)
      requires Accounted()
      modifies this`entries, this`totalBytes
      ensures Accounted()
      ensures exists victims: set<Key> ::
                OldestOf(Stamps(old(entries)), victims, count) && entries == old(entries) - victims
      ensures |entries| == if count < |old(entries)| then |old(entries)| - count else 0
    {
      StampsCount(entries);
      var victims := OldestKeys(Stamps(entries), count);
      RemoveAll(victims);
    }

    /** `enforce…LimitsLocked`. */
    method Enforce()
      requires Accounted()
      modifies this`entries, this`totalBytes
      ensures Valid() && Enforced(limits, old(entries), entries)
      ensures entries == old(entries) || |entries| + 2 <= |old(entries)| || entries == map[]
    {
      hide EnforcedSoFar;
      ghost var before, mid, batches := entries, entries, 0;
      EnforcedStart(limits, entries);
      while |entries| > limits.maxEntries || totalBytes > limits.maxTotalBytes
        invariant Accounted() && EnforcedSoFar(limits, before, mid, batches, entries)
        decreases |entries|
      {
        // The source resets the counter here when the map is empty; with the counter right that cannot be.
        if |entries| == 0 {
          assert false;
        }
        ghost var now := entries;
        EvictOldest(limits.evictBatch);
        ghost var victims: set<Key> :| OldestOf(Stamps(now), victims, limits.evictBatch) && entries == now - victims;
        EnforcedNext(limits, before, mid, batches, now, victims, entries);
        mid, batches := now, batches + 1;
      }
      EnforcedEnd(limits, before, mid, batches, entries);
    }

    /** `storeClaudeThinkingReplayLocal`, as the unconditional store uses it: one valid turn. */
    method Store(key: Key, content: Bytes, now: int, next: nat)
      requires Valid() && limits.ValidContent(content)
      modifies this`entries, this`totalBytes
      ensures Valid()
      ensures Enforced(limits, old(entries)[key := Entry([content], now, next, false)], entries)
    {
      OneFits(limits, content);
      Put(key, Entry([content], now, next, false));
      Enforce();
    }

    /** `Get…WithSnapshotRequired`, local mode: a live entry is refreshed; an absent or expired one is
        replaced by a tombstone, which stays even if the eviction it sets off took it. */
    method Get(key: Key, now: int, next: nat) returns (contents: Contents, s: Snapshot, found: bool)
      requires Valid()
      modifies this`entries, this`totalBytes
      ensures Valid() && key in entries && s == Snapshot(true, entries[key].generation)
      ensures contents == entries[key].contents && (found <==> contents != [])
      ensures key in old(entries) && now <= old(entries)[key].timestamp + limits.ttl ==>
                entries == old(entries)[key := old(entries)[key].(timestamp := now)]
      ensures key !in old(entries) || now > old(entries)[key].timestamp + limits.ttl ==>
                Reserved(limits, old(entries), entries, key, Entry([], now, next, true))
    {
      if key !in entries || now - entries[key].timestamp > limits.ttl {
        Delete(key);
        assert entries[key := Entry([], now, next, true)] == old(entries)[key := Entry([], now, next, true)];
        Reserve(key, now, next);
        ReAdd(key, Entry([], now, next, true));
        return [], Snapshot(true, next), false;
      }
      Refresh(key, now);
      var entry := entries[key];
      return entry.contents, Snapshot(true, entry.generation), |entry.contents| > 0;
    }

    /** The write of `entry` after the reservation. */
    method ReAdd(key: Key, e: Entry)
      requires Valid() && e.contents == [] && (key in entries ==> entries[key] == e)
      requires key !in entries ==> |entries| < limits.maxEntries
      modifies this`entries, this`totalBytes
      ensures Valid() && entries == old(entries)[key := e]
    {
      ghost var before := entries;
      OneEmptyIsOk(limits);
      SumPut(entries, key, e);
      Put(key, e);
      assert entries.Keys == before.Keys + {key};
      assert |entries.Keys| == |entries| && |before.Keys| == |before|;
    }

    /** `reserve…LocalLocked`. There is room left for the key even when the eviction took it. */
    method Reserve(key: Key, now: int, next: nat)
      requires Valid() && key !in entries
      modifies this`entries, this`totalBytes
      ensures Valid() && Enforced(limits, old(entries)[key := Entry([], now, next, true)], entries)
      ensures key !in entries ==> |entries| < limits.maxEntries
      ensures key in entries ==> entries[key] == Entry([], now, next, true)
    {
      OneEmptyIsOk(limits);
      Put(key, Entry([], now, next, true));
      assert entries.Keys == old(entries).Keys + {key};
      assert |entries.Keys| == |entries| && |old(entries).Keys| == |old(entries)|;
      Enforce();
    }

    method Refresh(key: Key, now: int)
      requires Valid() && key in entries
      modifies this`entries, this`totalBytes
      ensures Valid() && entries == old(entries)[key := old(entries)[key].(timestamp := now)]
    {
      ghost var before := entries;
      SumPut(entries, key, entries[key]);
      Put(key, entries[key].(timestamp := now));
      SumPut(before, key, before[key].(timestamp := now));
      assert entries.Keys == before.Keys;
      assert |entries.Keys| == |entries| && |before.Keys| == |before|;
    }

    /** `Replace…IfUnchanged`, local mode. Content that is not valid is refused first. */
    method Replace(key: Key, s: Snapshot, content: Bytes, now: int, next: nat) returns (published: bool)
      requires Valid()
      modifies this`entries, this`totalBytes
      ensures Valid()
      ensures published <==>
                && 0 < |content| <= limits.maxSessionBytes && limits.isContentArray(content)
                && s.found == (key in old(entries))
                && (key in old(entries) ==> old(entries)[key].generation == s.generation)
      ensures !published ==> entries == old(entries)
      ensures published ==>
                var was := if key in old(entries) then old(entries)[key].contents else [];
                Enforced(limits, old(entries)[key := Entry(Appended(limits, was, content), now, next, false)], entries)
    {
      if !limits.ValidContent(content) {
        return false;
      }
      var found := key in entries;
      if found != s.found || (found && entries[key].generation != s.generation) {
        return false;
      }
      var was := if found then entries[key].contents else [];
      var contents := AppendContent(limits, was, content);
      AppendedLaws(limits, was, content);
      Put(key, Entry(contents, now, next, false));
      Enforce();
      return true;
    }

    /** `Delete…IfUnchanged`, local mode: a tombstone, without enforcing the limits. With a snapshot that a
        local Get returned, which always says found, the bound is kept; it is broken exactly by a snapshot
        of an absent key on a full cache. */
    method DeleteIfUnchanged(key: Key, s: Snapshot, now: int, next: nat) returns (deleted: bool)
      requires Valid()
      modifies this`entries, this`totalBytes
      ensures Accounted()
      ensures deleted <==>
                && s.found == (key in old(entries))
                && (key in old(entries) ==> old(entries)[key].generation == s.generation)
      ensures entries == if deleted then old(entries)[key := Entry([], now, next, true)] else old(entries)
      ensures Valid() <==> !(key !in old(entries) && !s.found && |old(entries)| == limits.maxEntries)
    {
      var found := key in entries;
      if found != s.found || (found && entries[key].generation != s.generation) {
        return false;
      }
      ghost var before := entries;
      SumPut(entries, key, Entry([], now, next, true));
      Put(key, Entry([], now, next, true));
      assert entries.Keys == before.Keys + {key};
      assert |entries.Keys| == |entries| && |before.Keys| == |before|;
      return true;
    }

    /** `Delete…Required`, local mode. */
    method Delete(key: Key)
      requires Valid()
      modifies this`entries, this`totalBytes
      ensures Valid() && entries == old(entries) - {key}
    {
      if key in entries {
        SumWithout(entries, key);
        Remove(key);
      } else {
        assert entries - {key} == entries;
      }
    }

    /** `Clear…Cache`. */
    method Clear()
      requires Valid()
      modifies this`entries, this`totalBytes
      ensures Valid() && entries == map[]
    {
      entries, totalBytes := map[], 0;
    }

    /** `purgeExpired…Cache`: exactly the expired entries go, and their bytes. */
    method Purge(now: int)
      requires Valid()
      modifies this`entries, this`totalBytes
      ensures Valid()
      ensures entries == old(entries) - set k | k in old(entries) && old(entries)[k].timestamp < now - limits.ttl
      ensures forall k | k in old(entries) :: k in entries <==> old(entries)[k].timestamp >= now - limits.ttl
    {
      var gone := set k | k in entries && now - entries[k].timestamp > limits.ttl;
      assert gone == set k | k in entries && entries[k].timestamp < now - limits.ttl;
      RemoveAll(gone);
    }
  }
}
