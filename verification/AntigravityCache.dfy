/** The local mode of the Antigravity replay cache
    (internal/cache/antigravity_reasoning_replay_cache.go): a map under a mutex, whose entries carry a
    revision and a branch, with optimistic Replace and Delete against a snapshot.

    The functions say what one critical section computes; the class is the source's form. Time is a
    parameter and so is the next random branch id. */
module AntigravityCache {
  import opened Wrappers
  import opened ByteText
  import opened Eviction

  type Key = string
  type Items = seq<Bytes>
  type Branch = nat

  datatype Entry = Entry(items: Items, timestamp: int, revision: nat, branch: Branch, deleted: bool)

  /** What a Get saw. An empty branch id (an error snapshot) is `None`. */
  datatype Snapshot = Snapshot(found: bool, items: Items, revision: nat, branch: Option<Branch>, epoch: nat)

  datatype Cache = Cache(entries: map<Key, Entry>, nextRevision: nat, epoch: nat)

  /** The sizes the source fixes: entries kept, entries dropped at a time, time to live. */
  datatype Limits = Limits(maxEntries: nat, evictBatch: nat, ttl: int) {
    predicate Valid() {
      0 < evictBatch <= maxEntries
    }
  }

  // ---- the publication rule ----------------------------------------------------------------------

  /** May a completed chain `items` replace the current entry? Either nothing changed since the snapshot,
      or the chain extends the live list of the snapshot's own branch. */
  predicate RuleAllows(unchanged_: bool, deleted: bool, branch: Branch, current: Items, snapshot: Option<Branch>,
                       items: Items) {
    unchanged_ || (!deleted && snapshot == Some(branch) && current <= items)
  }

  /** The branch of the published chain: the snapshot's, unless the chain starts over. */
  function RuleBranch(unchanged_: bool, snapshot: Option<Branch>, seen: Items, items: Items, next: Branch): Branch {
    if snapshot == None || (unchanged_ && !(seen <= items)) then next else snapshot.value
  }

  predicate Matches(c: Cache, key: Key, s: Snapshot) {
    if key in c.entries then s.found && c.entries[key].revision == s.revision
    else !s.found && s.epoch == c.epoch
  }

  predicate CanReplace(c: Cache, key: Key, s: Snapshot, items: Items) {
    if key in c.entries then
      var e := c.entries[key];
      RuleAllows(Matches(c, key, s), e.deleted, e.branch, e.items, s.branch, items)
    else Matches(c, key, s)
  }

  // ---- what the critical sections do -------------------------------------------------------------

  function Put(c: Cache, key: Key, items: Items, now: int, branch: Branch, deleted: bool): Cache {
    Cache(c.entries[key := Entry(items, now, c.nextRevision + 1, branch, deleted)], c.nextRevision + 1, c.epoch)
  }

  function Drop(c: Cache, keys: set<Key>): Cache {
    Cache(c.entries - keys, c.nextRevision, c.epoch + |keys * c.entries.Keys|)
  }

  function Touch(c: Cache, key: Key, now: int): Cache
    requires key in c.entries
  {
    c.(entries := c.entries[key := c.entries[key].(timestamp := now)])
  }

  function Replaced(c: Cache, key: Key, s: Snapshot, items: Items, now: int, next: Branch): Cache {
    Put(c, key, items, now, RuleBranch(Matches(c, key, s), s.branch, s.items, items, next), false)
  }

  function SnapshotOf(c: Cache, key: Key): Snapshot
    requires key in c.entries
  {
    var e := c.entries[key];
    Snapshot(true, if e.deleted then [] else e.items, e.revision, Some(e.branch), c.epoch)
  }

  function Stamps(entries: map<Key, Entry>): map<Key, int> {
    map k | k in entries :: entries[k].timestamp
  }

  lemma StampsCount(entries: map<Key, Entry>)
    ensures Stamps(entries).Keys == entries.Keys && |Stamps(entries)| == |entries|
  {
    assert |Stamps(entries).Keys| == |Stamps(entries)| && |entries.Keys| == |entries|;
  }

  /** Dropping keys that are all present. */
  lemma DropPresent(c: Cache, keys: set<Key>)
    requires keys <= c.entries.Keys
    ensures Drop(c, keys) == Cache(c.entries - keys, c.nextRevision, c.epoch + |keys|)
  {
    assert keys * c.entries.Keys == keys;
  }

  /** A critical section that has put an entry drops the oldest batch when the map has grown too big. */
  ghost predicate Trimmed(l: Limits, c: Cache, c': Cache) {
    if |c.entries| > l.maxEntries then
      exists victims: set<Key> :: OldestOf(Stamps(c.entries), victims, l.evictBatch) && c' == Drop(c, victims)
    else c' == c
  }

  /** Room for one more entry: in a full map the oldest batch makes way. */
  ghost predicate MakesRoom(l: Limits, entries: map<Key, Entry>, victims: set<Key>) {
    if |entries| >= l.maxEntries then OldestOf(Stamps(entries), victims, l.evictBatch) else victims == {}
  }

  // ---- the source's form -------------------------------------------------------------------------

  class ReplayCache {
    const limits: Limits
    var entries: map<Key, Entry>
    var nextRevision: nat
    var epoch: nat

    ghost function View(): Cache
      reads this
    {
      Cache(entries, nextRevision, epoch)
    }

    ghost predicate Valid()
      reads this
    {
      limits.Valid() && |entries| <= limits.maxEntries
    }

    constructor (limits: Limits)
      requires limits.Valid()
      ensures Valid() && View() == Cache(map[], 0, 0) && this.limits == limits
    {
      this.limits := limits;
      entries, nextRevision, epoch := map[], 0, 0;
    }

    /** `antigravityReasoningReplayItemsPrefix`. */
    static method IsPrefix(prefix: Items, items: Items) returns (b: bool)
      ensures b <==> prefix <= items
    {
      if |prefix| > |items| {
        return false;
      }
      for i := 0 to |prefix|
        invariant prefix[..i] == items[..i]
      {
        if prefix[i] != items[i] {
          return false;
        }
      }
      return true;
    }

    /** Deletes the given entries one by one, each raising the epoch. */
    method RemoveAll(victims: set<Key>)
      requires victims <= entries.Keys
      modifies this`entries, this`epoch
      ensures entries == old(entries) - victims && |entries| == |old(entries)| - |victims|
      ensures epoch == old(epoch) + |victims|
    {
      hide RemovedSoFar;
      RemovedNone(entries, victims);
      ghost var before := entries;
      var rest := victims;
      while rest != {}
        invariant RemovedSoFar(before, entries, victims, rest) && epoch + |rest| == old(epoch) + |victims|
        decreases |rest|
      {
        var k :| k in rest;
        RemovedNext(before, entries, victims, rest, k);
        epoch := epoch + 1;
        entries := entries - {k};
        rest := rest - {k};
      }
      RemovedEnd(before, entries, victims);
    }

    /** `evictOldest…Entries`: the oldest `count` entries go, each raising the epoch. */
    method EvictOldest(count: nat) returns (ghost victims: set<Key>)
      modifies this`entries, this`epoch
      ensures OldestOf(Stamps(old(entries)), victims, count) && View() == Drop(old(View()), victims)
      ensures |entries| == |old(entries)| - |victims|
      ensures |victims| == if count < |old(entries)| then count else |old(entries)|
    {
      StampsCount(entries);
      var oldest := OldestKeys(Stamps(entries), count);
      DropPresent(View(), oldest);
      RemoveAll(oldest);
      victims := oldest;
    }

    /** The end of every publishing critical section. */
    method TrimIfFull()
      requires limits.Valid() && |entries| <= limits.maxEntries + 1
      modifies this`entries, this`epoch
      ensures Valid() && Trimmed(limits, old(View()), View())
    {
      if |entries| > limits.maxEntries {
        var victims := EvictOldest(limits.evictBatch);
      }
    }

    /** Stores an entry under the next revision. */
    method Store(key: Key, items: Items, now: int, branch: Branch, deleted: bool)
      requires Valid()
      modifies this`entries, this`nextRevision
      ensures View() == Put(old(View()), key, items, now, branch, deleted)
      ensures |entries| <= limits.maxEntries + 1 && |entries| <= |old(entries)| + 1
    {
      nextRevision := nextRevision + 1;
      entries := entries[key := Entry(items, now, nextRevision, branch, deleted)];
      assert entries.Keys == old(entries).Keys + {key};
    }

    /** `reserve…AbsentLocked`: make room first, then fence the miss with a tombstone. */
    method ReserveAbsent(key: Key, now: int, next: Branch) returns (s: Snapshot, ghost victims: set<Key>)
      requires Valid()
      modifies this
      ensures Valid()
      ensures MakesRoom(limits, old(entries), victims)
      ensures View() == Put(Drop(old(View()), victims), key, [], now, next, true)
      ensures s == SnapshotOf(View(), key)
    {
      victims := {};
      if |entries| >= limits.maxEntries {
        victims := EvictOldest(limits.evictBatch);
      }
      assert View() == Drop(old(View()), victims) by {
        assert old(entries) - {} == old(entries);
      }
      Store(key, [], now, next, true);
      return Snapshot(true, [], nextRevision, Some(next), epoch), victims;
    }

    /** `Get…WithSnapshotRequired`, local mode. An expired entry is dropped and the miss fenced. */
    method Get(key: Key, now: int, next: Branch) returns (items: Items, s: Snapshot, found: bool)
      requires Valid()
      modifies this
      ensures Valid() && key in entries && s == SnapshotOf(View(), key)
      ensures found <==> s.items != []
      ensures items == s.items
      ensures key in old(entries) && now <= old(entries)[key].timestamp + limits.ttl ==>
                && View() == Touch(old(View()), key, now)
                && items == if old(entries)[key].deleted then [] else old(entries)[key].items
      ensures key !in old(entries) || now > old(entries)[key].timestamp + limits.ttl ==>
                items == [] &&
                var left := Drop(old(View()), {key});
                exists victims: set<Key> ::
                  && MakesRoom(limits, left.entries, victims)
                  && View() == Put(Drop(left, victims), key, [], now, next, true)
    {
      ghost var before := View();
      if key !in entries {
        ghost var victims;
        assert Drop(before, {key}) == before by {
          assert {key} * before.entries.Keys == {};
        }
        s, victims := ReserveAbsent(key, now, next);
        return [], s, false;
      }
      var entry := entries[key];
      if now - entry.timestamp > limits.ttl {
        epoch := epoch + 1;
        entries := entries - {key};
        assert View() == Drop(before, {key}) by {
          assert {key} * before.entries.Keys == {key};
        }
        assert |entries| <= |before.entries| by { RemovalCount(before.entries, {key}); }
        ghost var victims;
        s, victims := ReserveAbsent(key, now, next);
        return [], s, false;
      }
      entries := entries[key := entry.(timestamp := now)];
      assert entries.Keys == before.entries.Keys;
      if entry.deleted || entry.items == [] {
        return [], Snapshot(true, [], entry.revision, Some(entry.branch), epoch), false;
      }
      return entry.items, Snapshot(true, entry.items, entry.revision, Some(entry.branch), epoch), true;
    }

    /** `Cache…BestEffort`, local mode: unconditional, on a new branch. */
    method Set(key: Key, items: Items, now: int, next: Branch)
      requires Valid()
      modifies this
      ensures Valid() && Trimmed(limits, Put(old(View()), key, items, now, next, false), View())
    {
      Store(key, items, now, next, false);
      TrimIfFull();
    }

    /** `Replace…IfUnchanged`, local mode. */
    method Replace(key: Key, s: Snapshot, items: Items, now: int, next: Branch) returns (published: bool)
      requires Valid()
      modifies this
      ensures Valid() && (published <==> CanReplace(old(View()), key, s, items))
      ensures key !in old(entries) ==> (published <==> !s.found && s.epoch == old(epoch))
      ensures published ==> Trimmed(limits, Replaced(old(View()), key, s, items, now, next), View())
      ensures !published ==> View() == old(View())
    {
      var found := key in entries;
      var matchesSnapshot := found == s.found
        && ((found && entries[key].revision == s.revision) || (!found && s.epoch == epoch));
      var isDescendant := false;
      if found && !entries[key].deleted && s.branch == Some(entries[key].branch) {
        isDescendant := IsPrefix(entries[key].items, items);
      }
      if !matchesSnapshot && !isDescendant {
        return false;
      }
      var extends_ := IsPrefix(s.items, items);
      var branch := if s.branch == None || (matchesSnapshot && !extends_) then next else s.branch.value;
      Store(key, items, now, branch, false);
      TrimIfFull();
      return true;
    }

    /** `Delete…IfUnchanged`, local mode: a tombstone on a new branch. */
    method DeleteIfUnchanged(key: Key, s: Snapshot, now: int, next: Branch) returns (deleted: bool)
      requires Valid()
      modifies this
      ensures Valid() && (deleted <==> Matches(old(View()), key, s))
      ensures key !in old(entries) ==> (deleted <==> !s.found && s.epoch == old(epoch))
      ensures deleted ==> Trimmed(limits, Put(old(View()), key, [], now, next, true), View())
      ensures !deleted ==> View() == old(View())
    {
      var found := key in entries;
      if found != s.found || (found && entries[key].revision != s.revision) || (!found && s.epoch != epoch) {
        return false;
      }
      Store(key, [], now, next, true);
      TrimIfFull();
      return true;
    }

    /** `Delete…Required`, local mode. */
    method Delete(key: Key, now: int, next: Branch)
      requires Valid()
      modifies this
      ensures Valid() && Trimmed(limits, Put(old(View()), key, [], now, next, true), View())
    {
      Store(key, [], now, next, true);
      TrimIfFull();
    }

    /** `Clear…Cache`: revisions go on, the epoch moves once. */
    method Clear()
      requires Valid()
      modifies this`entries, this`epoch
      ensures Valid() && View() == Cache(map[], old(nextRevision), old(epoch) + 1)
    {
      entries := map[];
      epoch := epoch + 1;
    }

    /** `purgeExpired…Cache`: exactly the expired entries go, each raising the epoch. */
    method Purge(now: int)
      requires Valid()
      modifies this`entries, this`epoch
      ensures Valid()
      ensures View() == Drop(old(View()), set k | k in old(entries) && old(entries)[k].timestamp < now - limits.ttl)
      ensures forall k | k in old(entries) :: k in entries <==> old(entries)[k].timestamp >= now - limits.ttl
    {
      var gone := set k | k in entries && now - entries[k].timestamp > limits.ttl;
      assert gone == set k | k in entries && entries[k].timestamp < now - limits.ttl;
      DropPresent(View(), gone);
      RemoveAll(gone);
    }
  }
}
