/** Whole runs of the local replay cache: any interleaving of reads, publications, deletions, evictions
    and purges by any number of requests holding any of the snapshots handed out so far.

    Each event is one critical section. Losing entries (eviction, expiry, purge) is an event of its own
    that may take any keys at any time, which covers every place where the source drops entries. */
module AntigravityRuns {
  import opened Wrappers
  import opened ByteText
  import opened AntigravityCache

  /** One stored entry, as history remembers it: the entry of revision n is record n - 1. */
  datatype Record = Record(key: Key, branch: Branch, items: Items)

  datatype World = World(cache: Cache, log: seq<Record>, issued: set<(Key, Snapshot)>, used: set<Branch>)

  const START: World := World(Cache(map[], 0, 0), [], {}, {})

  datatype Event =
    | ReadLive(key: Key, now: int)
    | ReadMiss(key: Key, now: int, next: Branch)
    | Publish(key: Key, snapshot: Snapshot, items: Items, now: int, next: Branch)
    | DeleteIf(key: Key, snapshot: Snapshot, now: int, next: Branch)
    | Set(key: Key, items: Items, now: int, next: Branch)
    | Delete(key: Key, now: int, next: Branch)
    | Lose(keys: set<Key>)
    | Clear

  ghost predicate Issued(w: World, s: Snapshot) {
    exists key :: (key, s) in w.issued
  }

  /** Branch ids are random: a new one was never used. Publications and conditional deletions come with a
      snapshot some read returned, for whatever key. */
  ghost predicate Enabled(w: World, e: Event) {
    && (e.ReadMiss? || e.Publish? || e.DeleteIf? || e.Set? || e.Delete? ==> e.next !in w.used)
    && (e.ReadLive? ==> e.key in w.cache.entries)
    && (e.ReadMiss? ==> e.key !in w.cache.entries)
    && (e.Publish? || e.DeleteIf? ==> Issued(w, e.snapshot))
  }

  function Stored(w: World, key: Key, items: Items, now: int, branch: Branch, deleted: bool, next: Branch): World {
    World(Put(w.cache, key, items, now, branch, deleted), w.log + [Record(key, branch, items)], w.issued,
          w.used + {next})
  }

  function Next(w: World, e: Event): World
    requires e.ReadLive? ==> e.key in w.cache.entries
  {
    match e
    case ReadLive(key, now) =>
      var c := Touch(w.cache, key, now);
      w.(cache := c, issued := w.issued + {(key, SnapshotOf(c, key))})
    case ReadMiss(key, now, next) =>
      var w' := Stored(w, key, [], now, next, true, next);
      w'.(issued := w.issued + {(key, SnapshotOf(w'.cache, key))})
    case Publish(key, s, items, now, next) =>
      if CanReplace(w.cache, key, s, items) then
        Stored(w, key, items, now, RuleBranch(Matches(w.cache, key, s), s.branch, s.items, items, next), false, next)
      else w.(used := w.used + {next})
    case DeleteIf(key, s, now, next) =>
      if Matches(w.cache, key, s) then Stored(w, key, [], now, next, true, next) else w.(used := w.used + {next})
    case Set(key, items, now, next) => Stored(w, key, items, now, next, false, next)
    case Delete(key, now, next) => Stored(w, key, [], now, next, true, next)
    case Lose(keys) => w.(cache := Drop(w.cache, keys))
    case Clear => w.(cache := Cache(map[], w.cache.nextRevision, w.cache.epoch + 1))
  }

  // ---- the invariant -----------------------------------------------------------------------------

  ghost predicate EntryRecorded(w: World, key: Key) {
    key in w.cache.entries &&
    var e := w.cache.entries[key];
    && 1 <= e.revision <= |w.log|
    && w.log[e.revision - 1] == Record(key, e.branch, e.items)
    && (e.deleted ==> e.items == [])
    && forall i | e.revision <= i < |w.log| :: w.log[i].branch != e.branch
  }

  /** Under one branch id the stored lists belong to one key and form a growing prefix chain. */
  ghost predicate Chained(log: seq<Record>) {
    forall i, j | 0 <= i < j < |log| && log[i].branch == log[j].branch ::
      log[i].key == log[j].key && log[i].items <= log[j].items
  }

  ghost predicate SnapshotRecorded(w: World, key: Key, s: Snapshot) {
    && s.found && s.branch.Some? && 1 <= s.revision <= |w.log|
    && w.log[s.revision - 1] == Record(key, s.branch.value, s.items)
  }

  ghost predicate Inv(w: World) {
    && w.cache.nextRevision == |w.log|
    && Chained(w.log)
    && (forall i | 0 <= i < |w.log| :: w.log[i].branch in w.used)
    && (forall key | key in w.cache.entries :: EntryRecorded(w, key))
    && (forall key, s | (key, s) in w.issued :: SnapshotRecorded(w, key, s))
  }

  /** Storing an entry keeps the invariant when its branch is new, or is the branch of the current entry
      and the list extends the current one. */
  lemma StoredKeeps(w: World, key: Key, items: Items, now: int, branch: Branch, deleted: bool, next: Branch)
    requires Inv(w) && next !in w.used && (deleted ==> items == [])
    requires branch == next ||
             (key in w.cache.entries && w.cache.entries[key].branch == branch && w.cache.entries[key].items <= items)
    ensures Inv(Stored(w, key, items, now, branch, deleted, next))
  {
    var w' := Stored(w, key, items, now, branch, deleted, next);
    BranchIsFree(w, key, items, branch, next);
    ChainedMore(w.log, Record(key, branch, items));
    hide Chained;
    forall k | k in w'.cache.entries
      ensures EntryRecorded(w', k)
    {
      if k != key {
        assert EntryRecorded(w, k);
      }
    }
    forall k, s | (k, s) in w'.issued
      ensures SnapshotRecorded(w', k, s)
    {
      assert SnapshotRecorded(w, k, s);
    }
    forall i | 0 <= i < |w'.log|
      ensures w'.log[i].branch in w'.used
    {
      if i < |w.log| { assert w'.log[i] == w.log[i]; }
    }
  }

  /** No other key's list stands under this branch, and no longer one. */
  ghost predicate FreeFor(w: World, key: Key, items: Items, branch: Branch) {
    && (forall i | 0 <= i < |w.log| && w.log[i].branch == branch :: w.log[i].key == key && w.log[i].items <= items)
    && (forall k | k in w.cache.entries && k != key :: w.cache.entries[k].branch != branch)
  }

  lemma BranchIsFree(w: World, key: Key, items: Items, branch: Branch, next: Branch)
    requires Inv(w) && next !in w.used
    requires branch == next ||
             (key in w.cache.entries && w.cache.entries[key].branch == branch && w.cache.entries[key].items <= items)
    ensures FreeFor(w, key, items, branch) && (branch == next || branch in w.used)
  {
    hide Chained, SnapshotRecorded;
    if branch == next {
      forall k | k in w.cache.entries ensures w.cache.entries[k].branch != branch {
        assert EntryRecorded(w, k);
      }
    } else {
      assert EntryRecorded(w, key);
      StoredOnBranch(w, key, items);
      forall k | k in w.cache.entries && k != key ensures w.cache.entries[k].branch != branch {
        OneEntryPerBranch(w, k, key);
      }
    }
  }

  lemma ChainedMore(log: seq<Record>, r: Record)
    requires Chained(log) && forall i | 0 <= i < |log| && log[i].branch == r.branch ::
             log[i].key == r.key && log[i].items <= r.items
    ensures Chained(log + [r])
  {
  }

  /** All records on the branch of a current entry are of its key and within its list. */
  lemma StoredOnBranch(w: World, key: Key, items: Items)
    requires Inv(w) && key in w.cache.entries && w.cache.entries[key].items <= items
    ensures forall i | 0 <= i < |w.log| && w.log[i].branch == w.cache.entries[key].branch ::
              w.log[i].key == key && w.log[i].items <= items
  {
    assert EntryRecorded(w, key);
    var e := w.cache.entries[key];
    forall i | 0 <= i < |w.log| && w.log[i].branch == e.branch
      ensures w.log[i].key == key && w.log[i].items <= items
    {
      assert i <= e.revision - 1;
    }
  }

  lemma OneEntryPerBranch(w: World, a: Key, b: Key)
    requires Inv(w) && a in w.cache.entries && b in w.cache.entries && a != b
    ensures w.cache.entries[a].branch != w.cache.entries[b].branch
    ensures w.cache.entries[a].revision != w.cache.entries[b].revision
  {
    assert EntryRecorded(w, a) && EntryRecorded(w, b);
  }

  lemma NextKeeps(w: World, e: Event)
    requires Inv(w) && Enabled(w, e)
    ensures Inv(Next(w, e))
  {
    match e
    case ReadLive(key, now) =>
      assert EntryRecorded(w, key);
      ReadLiveKeeps(w, key, now);
    case ReadMiss(key, now, next) =>
      StoredKeeps(w, key, [], now, next, true, next);
      var w' := Stored(w, key, [], now, next, true, next);
      assert EntryRecorded(w', key);
      IssueKeeps(w', key);
    case Publish(key, s, items, now, next) =>
      if CanReplace(w.cache, key, s, items) {
        PublishIsSafe(w, key, s, items, next);
        StoredKeeps(w, key, items, now, RuleBranch(Matches(w.cache, key, s), s.branch, s.items, items, next), false,
                    next);
      } else {
        MoreUsed(w, next);
      }
    case DeleteIf(key, s, now, next) =>
      if Matches(w.cache, key, s) {
        StoredKeeps(w, key, [], now, next, true, next);
      } else {
        MoreUsed(w, next);
      }
    case Set(key, items, now, next) => StoredKeeps(w, key, items, now, next, false, next);
    case Delete(key, now, next) => StoredKeeps(w, key, [], now, next, true, next);
    case Lose(keys) => FewerEntries(w, Next(w, e));
    case Clear => FewerEntries(w, Next(w, e));
  }

  lemma MoreUsed(w: World, next: Branch)
    requires Inv(w)
    ensures Inv(w.(used := w.used + {next}))
  {
    var w' := w.(used := w.used + {next});
    FewerEntries(w, w');
  }

  /** Entries may go and branch ids be used up: what is recorded stays recorded. */
  lemma FewerEntries(w: World, w': World)
    requires Inv(w) && w'.log == w.log && w'.issued == w.issued && w.used <= w'.used
    requires w'.cache.nextRevision == w.cache.nextRevision
    requires forall k | k in w'.cache.entries :: k in w.cache.entries && w'.cache.entries[k] == w.cache.entries[k]
    ensures Inv(w')
  {
    forall k | k in w'.cache.entries
      ensures EntryRecorded(w', k)
    {
      assert EntryRecorded(w, k);
    }
    forall k, s | (k, s) in w'.issued
      ensures SnapshotRecorded(w', k, s)
    {
      assert SnapshotRecorded(w, k, s);
    }
  }

  lemma IssueKeeps(w: World, key: Key)
    requires Inv(w) && key in w.cache.entries
    ensures Inv(w.(issued := w.issued + {(key, SnapshotOf(w.cache, key))}))
  {
    var w' := w.(issued := w.issued + {(key, SnapshotOf(w.cache, key))});
    assert EntryRecorded(w, key);
    forall k | k in w'.cache.entries
      ensures EntryRecorded(w', k)
    {
      assert EntryRecorded(w, k);
    }
    forall k, s | (k, s) in w'.issued
      ensures SnapshotRecorded(w', k, s)
    {
      if (k, s) in w.issued {
        assert SnapshotRecorded(w, k, s);
      }
    }
  }

  lemma ReadLiveKeeps(w: World, key: Key, now: int)
    requires Inv(w) && key in w.cache.entries
    ensures Inv(Next(w, ReadLive(key, now)))
  {
    var touched := w.(cache := Touch(w.cache, key, now));
    forall k | k in touched.cache.entries
      ensures EntryRecorded(touched, k)
    {
      assert EntryRecorded(w, k);
    }
    forall k, s | (k, s) in touched.issued
      ensures SnapshotRecorded(touched, k, s)
    {
      assert SnapshotRecorded(w, k, s);
    }
    IssueKeeps(touched, key);
  }

  // ---- no published item is lost -----------------------------------------------------------------

  /** A publication the rule allows meets either exactly the entry its snapshot read, or a live entry of
      the same branch that has grown since and that the new list extends. Either way the list it replaces
      is the one the request saw, or a prefix of the new list; and in the second case the branch stays. */
  lemma PublishIsSafe(w: World, key: Key, s: Snapshot, items: Items, next: Branch)
    requires Inv(w) && Issued(w, s) && CanReplace(w.cache, key, s, items)
    ensures key in w.cache.entries
    ensures var e := w.cache.entries[key];
            var branch := RuleBranch(Matches(w.cache, key, s), s.branch, s.items, items, next);
            && Some(e.branch) == s.branch
            && (if e.revision == s.revision
                then e.items == s.items && ((branch == e.branch && e.items <= items) || branch == next)
                else !e.deleted && s.items <= e.items <= items && branch == e.branch)
  {
    var k :| (k, s) in w.issued;
    assert SnapshotRecorded(w, k, s);
    assert EntryRecorded(w, key);
    var e := w.cache.entries[key];
    if e.revision != s.revision {
      assert s.revision - 1 < e.revision - 1;
    }
  }

  // ---- a snapshot left behind never publishes ----------------------------------------------------

  /** No current entry has the snapshot's revision or its branch. */
  ghost predicate LeftBehind(w: World, s: Snapshot) {
    forall key | key in w.cache.entries ::
      w.cache.entries[key].revision != s.revision && Some(w.cache.entries[key].branch) != s.branch
  }

  /** Once the entry a snapshot was read from is gone or on another branch, the snapshot is left behind. */
  lemma GoneIsLeftBehind(w: World, key: Key, s: Snapshot)
    requires Inv(w) && (key, s) in w.issued
    requires key !in w.cache.entries || Some(w.cache.entries[key].branch) != s.branch
    ensures LeftBehind(w, s)
  {
    assert SnapshotRecorded(w, key, s);
    forall k | k in w.cache.entries
      ensures w.cache.entries[k].revision != s.revision && Some(w.cache.entries[k].branch) != s.branch
    {
      assert EntryRecorded(w, k);
    }
  }

  lemma LeftBehindIsRefused(w: World, s: Snapshot, key: Key, items: Items)
    requires Inv(w) && Issued(w, s) && LeftBehind(w, s)
    ensures !CanReplace(w.cache, key, s, items) && !Matches(w.cache, key, s)
  {
    var k :| (k, s) in w.issued;
    assert SnapshotRecorded(w, k, s);
  }

  lemma LeftBehindStays(w: World, e: Event, s: Snapshot)
    requires Inv(w) && Enabled(w, e) && Issued(w, s) && LeftBehind(w, s)
    ensures LeftBehind(Next(w, e), s) && Issued(Next(w, e), s)
  {
    var k :| (k, s) in w.issued;
    assert SnapshotRecorded(w, k, s);
    assert (k, s) in Next(w, e).issued;
    if e.Publish? && CanReplace(w.cache, e.key, e.snapshot, e.items) {
      PublishIsSafe(w, e.key, e.snapshot, e.items, e.next);
    }
  }

  // ---- runs --------------------------------------------------------------------------------------

  /** `es` can happen one after another from `w`. */
  ghost predicate Possible(w: World, es: seq<Event>)
    decreases |es|
  {
    es != [] ==> Enabled(w, es[0]) && Possible(Next(w, es[0]), es[1..])
  }

  ghost function After(w: World, es: seq<Event>): World
    requires Possible(w, es)
    decreases |es|
  {
    if es == [] then w else After(Next(w, es[0]), es[1..])
  }

  lemma {:induction false} RunKeeps(w: World, es: seq<Event>)
    requires Inv(w) && Possible(w, es)
    ensures Inv(After(w, es))
    decreases |es|
  {
    if es != [] {
      NextKeeps(w, es[0]);
      RunKeeps(Next(w, es[0]), es[1..]);
    }
  }

  /** In every run, the lists stored under one branch id are those of one key and form a growing prefix
      chain. */
  lemma BranchesGrow(es: seq<Event>)
    requires Possible(START, es)
    ensures Chained(After(START, es).log)
  {
    RunKeeps(START, es);
  }

  /** In every run, a publication that goes through replaces the list its request saw, or extends the
      current live list on the same branch: no list published since the read is lost. */
  lemma NoLostUpdate(es: seq<Event>, key: Key, s: Snapshot, items: Items, now: int, next: Branch)
    requires Possible(START, es)
    requires var w := After(START, es);
             Enabled(w, Publish(key, s, items, now, next)) && CanReplace(w.cache, key, s, items)
    ensures var w := After(START, es);
            && key in w.cache.entries
            && (w.cache.entries[key].items == s.items || w.cache.entries[key].items <= items)
            && (w.cache.entries[key].revision != s.revision ==>
                  s.items <= w.cache.entries[key].items <= items
                  && Replaced(w.cache, key, s, items, now, next).entries[key].branch == w.cache.entries[key].branch)
  {
    RunKeeps(START, es);
    PublishIsSafe(After(START, es), key, s, items, next);
  }

  lemma {:induction false} LeftBehindForever(w: World, s: Snapshot, later: seq<Event>)
    requires Inv(w) && Issued(w, s) && LeftBehind(w, s) && Possible(w, later)
    ensures Issued(After(w, later), s) && LeftBehind(After(w, later), s)
    decreases |later|
  {
    if later != [] {
      NextKeeps(w, later[0]);
      LeftBehindStays(w, later[0], s);
      LeftBehindForever(Next(w, later[0]), s, later[1..]);
    }
  }

  /** In every run, once the entry a snapshot was read from has been evicted, purged or moved to another
      branch (which every deletion does), no later publication or conditional deletion with that snapshot
      goes through, under any key. */
  lemma StaleNeverPublishes(es: seq<Event>, key: Key, s: Snapshot, later: seq<Event>, other: Key, items: Items)
    requires Possible(START, es)
    requires var w := After(START, es);
             && (key, s) in w.issued
             && (key !in w.cache.entries || Some(w.cache.entries[key].branch) != s.branch)
             && Possible(w, later)
    ensures var w' := After(After(START, es), later);
            !CanReplace(w'.cache, other, s, items) && !Matches(w'.cache, other, s)
  {
    var w := After(START, es);
    RunKeeps(START, es);
    GoneIsLeftBehind(w, key, s);
    LeftBehindForever(w, s, later);
    RunKeeps(w, later);
    LeftBehindIsRefused(After(w, later), s, other, items);
  }

  /** A deletion that goes through leaves every earlier snapshot of its key behind at once. */
  lemma DeletionLeavesBehind(w: World, e: Event, s: Snapshot)
    requires Inv(w) && Enabled(w, e) && (e.Delete? || (e.DeleteIf? && Matches(w.cache, e.key, e.snapshot)))
    requires (e.key, s) in w.issued
    ensures LeftBehind(Next(w, e), s)
  {
    assert SnapshotRecorded(w, e.key, s);
    NextKeeps(w, e);
    GoneIsLeftBehind(Next(w, e), e.key, s);
  }

  /** Events on other keys, losing other keys included, do not spoil a snapshot: every publication and conditional
      deletion that it allowed before it allows after. */
  lemma OthersDoNotBlock(w: World, e: Event, key: Key, s: Snapshot, items: Items)
    requires Inv(w) && Enabled(w, e) && (key, s) in w.issued
    requires if e.Lose? then key !in e.keys else !e.Clear? && e.key != key
    ensures Matches(w.cache, key, s) ==> Matches(Next(w, e).cache, key, s)
    ensures CanReplace(w.cache, key, s, items) ==> CanReplace(Next(w, e).cache, key, s, items)
  {
    assert SnapshotRecorded(w, key, s);
  }

  /** An event on another key. */
  ghost predicate Elsewhere(e: Event, key: Key) {
    if e.Lose? then key !in e.keys else !e.Clear? && e.key != key
  }

  lemma {:induction false} StaysAllowed(w: World, es: seq<Event>, key: Key, s: Snapshot, items: Items)
    requires Inv(w) && Possible(w, es) && (key, s) in w.issued && forall i | 0 <= i < |es| :: Elsewhere(es[i], key)
    requires Matches(w.cache, key, s)
    ensures Matches(After(w, es).cache, key, s) && CanReplace(After(w, es).cache, key, s, items)
    decreases |es|
  {
    if es != [] {
      NextKeeps(w, es[0]);
      assert Elsewhere(es[0], key);
      OthersDoNotBlock(w, es[0], key, s, items);
      StaysAllowed(Next(w, es[0]), es[1..], key, s, items);
    }
  }

  /** The snapshot that this read of the key hands out. */
  ghost predicate HandsOut(w: World, read: Event, s: Snapshot)
    requires Enabled(w, read) && (read.ReadLive? || read.ReadMiss?)
  {
    (read.key, s) in Next(w, read).issued && s.found && s.revision == Next(w, read).cache.entries[read.key].revision
  }

  lemma AllowedTakesEffect(w: World, key: Key, s: Snapshot, items: Items, now: int, next: Branch)
    requires Matches(w.cache, key, s) && CanReplace(w.cache, key, s, items)
    ensures var published, deleted := Next(w, Publish(key, s, items, now, next)), Next(w, DeleteIf(key, s, now, next));
      && key in published.cache.entries && key in deleted.cache.entries
      && var e, d := published.cache.entries[key], deleted.cache.entries[key];
      && e.items == items && !e.deleted && e.timestamp == now
      && d.items == [] && d.deleted && d.branch == next
  {
  }

  /** In every run, a request that is alone with its key between its read and its Replace publishes its items, and one
      that asks for deletion instead deletes. */
  lemma UndisturbedGoesThrough(before: seq<Event>, read: Event, es: seq<Event>, s: Snapshot, items: Items, now: int,
                               next: Branch)
    requires Possible(START, before) && Enabled(After(START, before), read) && (read.ReadLive? || read.ReadMiss?)
    requires HandsOut(After(START, before), read, s)
    requires Possible(Next(After(START, before), read), es) && forall i | 0 <= i < |es| :: Elsewhere(es[i], read.key)
    ensures var w, key := After(Next(After(START, before), read), es), read.key;
      var published, deleted := Next(w, Publish(key, s, items, now, next)), Next(w, DeleteIf(key, s, now, next));
      && key in published.cache.entries && key in deleted.cache.entries
      && var e, d := published.cache.entries[key], deleted.cache.entries[key];
      && e.items == items && !e.deleted && e.timestamp == now
      && d.items == [] && d.deleted && d.branch == next
  {
    var w := After(START, before);
    RunKeeps(START, before);
    NextKeeps(w, read);
    assert Matches(Next(w, read).cache, read.key, s);
    hide *;
    StaysAllowed(Next(w, read), es, read.key, s, items);
    AllowedTakesEffect(After(Next(w, read), es), read.key, s, items, now, next);
  }

  /** A chain that extends what others have published meanwhile on the branch of its snapshot is published too. */
  lemma ExtensionGoesThrough(w: World, key: Key, s: Snapshot, items: Items, now: int, next: Branch)
    requires key in w.cache.entries && !w.cache.entries[key].deleted
    requires s.branch == Some(w.cache.entries[key].branch) && w.cache.entries[key].items <= items
    ensures var c := Next(w, Publish(key, s, items, now, next)).cache;
      key in c.entries && c.entries[key].items == items && !c.entries[key].deleted
  {
  }

  // ---- the methods of the cache make runs ------------------------------------------------------------

  /** These events are possible and leave this cache. */
  ghost predicate Run(w: World, es: seq<Event>, c: Cache) {
    Possible(w, es) && After(w, es).cache == c
  }

  lemma RunOfOne(w: World, e: Event)
    requires Enabled(w, e)
    ensures Run(w, [e], Next(w, e).cache)
  {
    assert [e][1..] == [];
  }

  lemma RunOfMore(w: World, e: Event, es: seq<Event>, c: Cache)
    requires Enabled(w, e) && Run(Next(w, e), es, c)
    ensures Run(w, [e] + es, c)
  {
    assert ([e] + es)[1..] == es;
  }

  /** The trimming at the end of a critical section is a loss of some keys. */
  lemma TrimmingLoses(l: Limits, c: Cache, c': Cache)
    requires Trimmed(l, c, c')
    ensures exists keys: set<Key> :: c' == Drop(c, keys)
  {
    if |c.entries| <= l.maxEntries {
      assert c.entries - {} == c.entries;
      assert c' == Drop(c, {});
    }
  }

  lemma TrimmedRun(l: Limits, w: World, e: Event, c': Cache)
    requires Enabled(w, e) && Trimmed(l, Next(w, e).cache, c')
    ensures exists es :: Run(w, es, c')
  {
    TrimmingLoses(l, Next(w, e).cache, c');
    var keys: set<Key> :| c' == Drop(Next(w, e).cache, keys);
    RunOfOne(Next(w, e), Lose(keys));
    RunOfMore(w, e, [Lose(keys)], c');
  }

  /** `ReplayCache.Get` is a run: a refresh, or the losses of the expired and the evicted entries, then the miss. */
  lemma GetIsARun(l: Limits, w: World, key: Key, now: int, next: Branch, c': Cache)
    requires next !in w.used
    requires if key in w.cache.entries && now <= w.cache.entries[key].timestamp + l.ttl
             then c' == Touch(w.cache, key, now)
             else
               var left := Drop(w.cache, {key});
               exists victims: set<Key> ::
                 MakesRoom(l, left.entries, victims) && c' == Put(Drop(left, victims), key, [], now, next, true)
    ensures exists es :: Run(w, es, c')
  {
    if key in w.cache.entries && now <= w.cache.entries[key].timestamp + l.ttl {
      RunOfOne(w, ReadLive(key, now));
    } else {
      var left := Drop(w.cache, {key});
      var victims: set<Key> :| MakesRoom(l, left.entries, victims)
        && c' == Put(Drop(left, victims), key, [], now, next, true);
      MissIsARun(w, key, victims, now, next);
    }
  }

  lemma MissIsARun(w: World, key: Key, victims: set<Key>, now: int, next: Branch)
    requires next !in w.used
    ensures exists es :: Run(w, es, Put(Drop(Drop(w.cache, {key}), victims), key, [], now, next, true))
  {
    hide Run, After, Possible;
    var gone := Next(w, Lose({key}));
    var left, miss := Next(gone, Lose(victims)), ReadMiss(key, now, next);
    assert left.cache == Drop(Drop(w.cache, {key}), victims) && left.used == w.used && key !in left.cache.entries;
    assert Next(left, miss).cache == Put(left.cache, key, [], now, next, true);
    RunOfOne(left, miss);
    var c' := Next(left, miss).cache;
    hide Next, Put, Drop;
    RunOfMore(gone, Lose(victims), [miss], c');
    RunOfMore(w, Lose({key}), [Lose(victims)] + [miss], c');
  }

  /** `ReplayCache.Replace` is a run, whether it publishes or not. */
  lemma ReplaceIsARun(l: Limits, w: World, key: Key, s: Snapshot, items: Items, now: int, next: Branch, c': Cache)
    requires next !in w.used && Issued(w, s)
    requires if CanReplace(w.cache, key, s, items) then Trimmed(l, Replaced(w.cache, key, s, items, now, next), c')
             else c' == w.cache
    ensures exists es :: Run(w, es, c')
  {
    if CanReplace(w.cache, key, s, items) {
      TrimmedRun(l, w, Publish(key, s, items, now, next), c');
    } else {
      RunOfOne(w, Publish(key, s, items, now, next));
    }
  }

  /** `ReplayCache.Set` and `ReplayCache.Delete` are runs. */
  lemma StoreIsARun(l: Limits, w: World, key: Key, items: Items, now: int, next: Branch, deleted: bool, c': Cache)
    requires next !in w.used && (deleted ==> items == [])
    requires Trimmed(l, Put(w.cache, key, items, now, next, deleted), c')
    ensures exists es :: Run(w, es, c')
  {
    TrimmedRun(l, w, if deleted then Delete(key, now, next) else Set(key, items, now, next), c');
  }

  /** `ReplayCache.DeleteIfUnchanged` is a run, whether it deletes or not. */
  lemma DeleteIfIsARun(l: Limits, w: World, key: Key, s: Snapshot, now: int, next: Branch, c': Cache)
    requires next !in w.used && Issued(w, s)
    requires if Matches(w.cache, key, s) then Trimmed(l, Put(w.cache, key, [], now, next, true), c') else c' == w.cache
    ensures exists es :: Run(w, es, c')
  {
    if Matches(w.cache, key, s) {
      TrimmedRun(l, w, DeleteIf(key, s, now, next), c');
    } else {
      RunOfOne(w, DeleteIf(key, s, now, next));
    }
  }
}
