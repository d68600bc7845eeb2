/** Concurrent appenders of the Codex cache (internal/cache/codex_reasoning_replay_cache.go,
    `AppendCodexReasoningReplayItemsBestEffort`): in Home mode each reads the register, computes the new
    list and swaps it in, again and again; locally each is one critical section. */
module CodexRuns {
  import opened Wrappers
  import opened ByteText
  import opened Eviction
  import opened CodexReplay

  const MAX_ATTEMPTS: nat := 32

  /** An appender between its read and its swap holds what it read; otherwise it is about to read. */
  datatype Appender = Appender(turn: Items, attempt: nat, read: Option<Option<Items>>)

  /** What changed the register, in order: a successful appender, or something else that set it outright
      (an unconditional store, a deletion, expiry). */
  datatype Effect = Appended(op: nat, turn: Items) | SetTo(value: Option<Items>)

  datatype World = World(register: Option<Items>, log: seq<Effect>, running: map<nat, Appender>,
                         results: map<nat, bool>)

  const START: World := World(None, [], map[], map[])

  datatype Event =
    | Begin(op: nat, turn: Items)
    | Read(op: nat)
    | Swap(op: nat)
    | GiveUp(op: nat)          // cancelled, or a read or swap that reports an error
    | Overwrite(items: Items)
    | Remove

  predicate Enabled(l: Limits, w: World, e: Event) {
    match e
    case Begin(op, turn) => op !in w.running && op !in w.results && Fits(l, turn)
    case Read(op) => op in w.running && w.running[op].read == None
    case Swap(op) => op in w.running && w.running[op].read.Some?
    case GiveUp(op) => op in w.running
    case Overwrite(items) => Fits(l, items)
    case Remove => true
  }

  function ItemsOf(value: Option<Items>): Items {
    if value.Some? then value.value else []
  }

  function Finish(w: World, op: nat, success: bool): World {
    w.(running := w.running - {op}, results := w.results[op := success])
  }

  function Next(l: Limits, w: World, e: Event): World
    requires Enabled(l, w, e)
  {
    match e
    case Begin(op, turn) => w.(running := w.running[op := Appender(turn, 0, None)])
    case Read(op) => w.(running := w.running[op := w.running[op].(read := Some(w.register))])
    case Swap(op) =>
      var a := w.running[op];
      if w.register == a.read.value then
        Finish(w.(register := Some(Append(l, ItemsOf(a.read.value), a.turn)), log := w.log + [Appended(op, a.turn)]),
               op, true)
      else if a.attempt + 1 == MAX_ATTEMPTS then Finish(w, op, false)
      else w.(running := w.running[op := Appender(a.turn, a.attempt + 1, None)])
    case GiveUp(op) => Finish(w, op, false)
    case Overwrite(items) => w.(register := Some(items), log := w.log + [SetTo(Some(items))])
    case Remove => w.(register := None, log := w.log + [SetTo(None)])
  }

  /** The register after a list of effects, each append done alone on what the last one left. */
  function Fold(l: Limits, log: seq<Effect>): Option<Items> {
    if log == [] then None
    else
      match log[|log| - 1]
      case SetTo(value) => value
      case Appended(_, turn) => Some(Append(l, ItemsOf(Fold(l, log[..|log| - 1])), turn))
  }

  function TimesAppended(log: seq<Effect>, op: nat): nat {
    if log == [] then 0
    else
      var last := log[|log| - 1];
      TimesAppended(log[..|log| - 1], op) + if last.Appended? && last.op == op then 1 else 0
  }

  ghost predicate Inv(l: Limits, w: World) {
    && w.register == Fold(l, w.log)
    && Fits(l, ItemsOf(w.register))
    && w.running.Keys !! w.results.Keys
    && (forall op :: TimesAppended(w.log, op) == if op in w.results && w.results[op] then 1 else 0)
  }

  lemma {:induction false} TrimFits(l: Limits, items: Items)
    requires l.maxTurns >= 1
    ensures Fits(l, Trim(l, items))
    decreases |items|
  {
    hide Fits;
    if !Fits(l, items) {
      if NextTurn(items, 1).Some? {
        TrimFits(l, items[NextTurn(items, 1).value..]);
      } else {
        NothingFits(l);
      }
    }
  }

  lemma NothingFits(l: Limits)
    requires l.maxTurns >= 1
    ensures Fits(l, [])
  {
  }

  lemma LogGrows(l: Limits, log: seq<Effect>, e: Effect)
    ensures Fold(l, log + [e]) == match e
                                  case SetTo(value) => value
                                  case Appended(_, turn) => Some(Append(l, ItemsOf(Fold(l, log)), turn))
    ensures forall op ::
              TimesAppended(log + [e], op) == TimesAppended(log, op) + if e.Appended? && e.op == op then 1 else 0
  {
    assert (log + [e])[..|log|] == log;
  }

  lemma NextKeeps(l: Limits, w: World, e: Event)
    requires l.maxTurns >= 1 && Inv(l, w) && Enabled(l, w, e)
    ensures Inv(l, Next(l, w, e))
  {
    hide Fits, Append, Fold, TimesAppended;
    match e
    case Begin(op, turn) =>
    case Read(op) =>
    case Swap(op) =>
      var a := w.running[op];
      if w.register == a.read.value {
        var items := ItemsOf(w.register);
        AppendFits(l, items, a.turn);
        LogGrows(l, w.log, Appended(op, a.turn));
      }
    case GiveUp(op) =>
    case Overwrite(items) => LogGrows(l, w.log, SetTo(Some(items)));
    case Remove =>
      NothingFits(l);
      LogGrows(l, w.log, SetTo(None));
  }

  lemma AppendFits(l: Limits, existing: Items, turn: Items)
    requires l.maxTurns >= 1
    ensures Fits(l, Append(l, existing, turn))
  {
    TrimFits(l, Continued(existing));
    TrimFits(l, Continued(existing) + turn);
  }

  ghost predicate Possible(l: Limits, w: World, es: seq<Event>)
    decreases |es|
  {
    es != [] ==> Enabled(l, w, es[0]) && Possible(l, Next(l, w, es[0]), es[1..])
  }

  ghost function After(l: Limits, w: World, es: seq<Event>): World
    requires Possible(l, w, es)
    decreases |es|
  {
    if es == [] then w else After(l, Next(l, w, es[0]), es[1..])
  }

  lemma {:induction false} RunKeeps(l: Limits, w: World, es: seq<Event>)
    requires l.maxTurns >= 1 && Inv(l, w) && Possible(l, w, es)
    ensures Inv(l, After(l, w, es))
    decreases |es|
  {
    hide Inv, Enabled;
    if es != [] {
      NextKeeps(l, w, es[0]);
      RunKeeps(l, Next(l, w, es[0]), es[1..]);
    }
  }

  /** In every run the register is the pure append folded over the successful appenders in the order of
      their swaps (and over whatever else set the register); a successful appender counts once, a failed,
      cancelled, exhausted or unfinished one not at all; and the stored list is always within the limits. */
  lemma AppendersAreLinearizable(l: Limits, es: seq<Event>)
    requires l.maxTurns >= 1 && Possible(l, START, es)
    ensures var w := After(l, START, es);
            && w.register == Fold(l, w.log)
            && Fits(l, ItemsOf(w.register))
            && forall op :: TimesAppended(w.log, op) == if op in w.results && w.results[op] then 1 else 0
  {
    assert Inv(l, START) by { NothingFits(l); }
    RunKeeps(l, START, es);
  }

  function Swaps(es: seq<Event>, op: nat): nat {
    if es == [] then 0 else (if es[0] == Swap(op) then 1 else 0) + Swaps(es[1..], op)
  }

  /** How far an appender has got, if it has made `made` swaps in vain so far and all of `es` is still to come. */
  ghost predicate Progress(w: World, op: nat, made: nat) {
    && (op in w.running ==> w.running[op].attempt == made < 32)
    && (op !in w.running && op !in w.results ==> made == 0)
  }

  lemma {:induction false} SwapsCounted(l: Limits, w: World, es: seq<Event>, op: nat, made: nat)
    requires Possible(l, w, es) && Progress(w, op, made) && w.running.Keys !! w.results.Keys
    ensures var w', n := After(l, w, es), made + Swaps(es, op);
      && (op in w'.running ==> w'.running[op].attempt == n < 32)
      && (op in w.results ==> op in w'.results && w'.results[op] == w.results[op] && n == made)
      && (op !in w.results && op in w'.results ==>
            && n <= 32 && (w'.results[op] ==> n > made)
            && (!w'.results[op] ==> n == 32 || GiveUp(op) in es))
    decreases |es|
  {
    hide Append, Fits;
    if es != [] {
      var w1 := Next(l, w, es[0]);
      var more := if es[0] == Swap(op) then 1 else 0;
      if op !in w.results && op !in w1.results {
        SwapsCounted(l, w1, es[1..], op, made + more);
      } else {
        NoMoreSwaps(l, w1, es[1..], op);
      }
    }
  }

  /** A finished appender does nothing more. */
  lemma {:induction false} NoMoreSwaps(l: Limits, w: World, es: seq<Event>, op: nat)
    requires Possible(l, w, es) && op in w.results && w.running.Keys !! w.results.Keys
    ensures var w' := After(l, w, es);
      op in w'.results && op !in w'.running && w'.results[op] == w.results[op] && Swaps(es, op) == 0
    decreases |es|
  {
    hide Append, Fits;
    if es != [] {
      NoMoreSwaps(l, Next(l, w, es[0]), es[1..], op);
    }
  }

  /** In every run an appender makes at most 32 swaps, and reports failure only after the 32nd or when it was cancelled
      or its read or swap failed. */
  lemma GivesUpAfterThirtyTwo(l: Limits, es: seq<Event>, op: nat)
    requires Possible(l, START, es)
    ensures var w, n := After(l, START, es), Swaps(es, op);
      && (op in w.running ==> n < 32)
      && (op in w.results ==> n <= 32)
      && (op in w.results && w.results[op] ==> n > 0)
      && (op in w.results && !w.results[op] ==> n == 32 || GiveUp(op) in es)
  {
    SwapsCounted(l, START, es, op, 0);
  }

  /** An appender whose register does not change between its read and its swap succeeds at once. */
  lemma UndisturbedSucceeds(l: Limits, w: World, op: nat)
    requires Enabled(l, w, Read(op))
    ensures var w1 := Next(l, w, Read(op));
      && Enabled(l, w1, Swap(op))
      && var w2 := Next(l, w1, Swap(op));
      && op in w2.results && w2.results[op]
      && w2.register == Some(Append(l, if w.register.Some? then w.register.value else [], w.running[op].turn))
  {
    hide Append, Fits;
  }

  /** So in every run the stored texts take no more bytes than allowed, and hold no more turns. */
  lemma StoredTextIsBounded(l: Limits, es: seq<Event>)
    requires l.maxTurns >= 1 && Possible(l, START, es) && After(l, START, es).register.Some?
    ensures var items := After(l, START, es).register.value;
      |Text(items)| <= l.maxBytes && |set i | 0 < i < |items| && items[i].Turn?| < l.maxTurns
  {
    AppendersAreLinearizable(l, es);
    FitsMeans(l, After(l, START, es).register.value);
  }

  // ---- what the fold holds -----------------------------------------------------------------------

  function AppendAll(l: Limits, turns: seq<Items>): Items {
    if turns == [] then [] else Append(l, AppendAll(l, turns[..|turns| - 1]), turns[|turns| - 1])
  }

  function Concat(turns: seq<Items>): Items {
    if turns == [] then [] else Concat(turns[..|turns| - 1]) + turns[|turns| - 1]
  }

  /** Marked turns, the marker id of each new among the earlier ones. */
  ghost predicate DistinctTurns(l: Limits, turns: seq<Items>) {
    && (forall i | 0 <= i < |turns| :: MarkedTurn(l, turns[i]))
    && (forall i, j | 0 <= i < j < |turns| :: !HasTurn(turns[i], turns[j][0].id))
  }

  lemma {:induction false} ConcatHasTurn(turns: seq<Items>, id: string)
    requires forall i | 0 <= i < |turns| :: !HasTurn(turns[i], id)
    ensures !HasTurn(Concat(turns), id)
  {
    if turns != [] {
      ConcatHasTurn(turns[..|turns| - 1], id);
    }
  }

  lemma {:induction false} TrimIsPart(l: Limits, items: Items)
    ensures forall item | item in Trim(l, items) :: item in items
    ensures items != [] && items[0].Turn? && Trim(l, items) != [] ==> Trim(l, items)[0].Turn?
    decreases |items|
  {
    hide Fits;
    if !Fits(l, items) && NextTurn(items, 1).Some? {
      TrimIsPart(l, items[NextTurn(items, 1).value..]);
    }
  }

  lemma {:induction false} ConcatStartsMarked(l: Limits, turns: seq<Items>)
    requires DistinctTurns(l, turns) && turns != []
    ensures Concat(turns) != [] && Concat(turns)[0].Turn?
  {
    if |turns| > 1 {
      ConcatStartsMarked(l, turns[..|turns| - 1]);
    }
  }

  /** Appending distinct marked turns one by one, trimming each time, is trimming them all at once: nothing
      is dropped before the limits ask for it, and then only from the oldest end. */
  lemma {:induction false} AppendAllIsTrimOfAll(l: Limits, turns: seq<Items>)
    requires l.maxTurns >= 1 && DistinctTurns(l, turns)
    ensures AppendAll(l, turns) == Trim(l, Concat(turns))
    ensures Fits(l, Concat(turns)) ==> AppendAll(l, turns) == Concat(turns)
  {
    hide Fits;
    if turns == [] {
      NothingFits(l);
    } else {
      var front, last := turns[..|turns| - 1], turns[|turns| - 1];
      AppendAllIsTrimOfAll(l, front);
      var all := Concat(front);
      ConcatHasTurn(front, last[0].id);
      TrimIsPart(l, all);
      if front != [] {
        ConcatStartsMarked(l, front);
      }
      assert Continued(Trim(l, all)) == Trim(l, all);
      TrimAhead(l, all, last);
    }
  }

  // ---- local mode --------------------------------------------------------------------------------

  type Key = string

  datatype Entry = Entry(items: Items, timestamp: int)

  /** The local cache: the entries, and their bound. */
  class CodexCache {
    const limits: Limits
    const maxEntries: nat
    const evictBatch: nat
    const ttl: int
    var entries: map<Key, Entry>

    constructor (limits: Limits, maxEntries: nat, evictBatch: nat, ttl: int)
      requires 0 < evictBatch <= maxEntries
      ensures entries == map[] && Valid()
      ensures this.limits == limits && this.maxEntries == maxEntries && this.evictBatch == evictBatch && this.ttl == ttl
    {
      this.limits, this.maxEntries, this.evictBatch, this.ttl := limits, maxEntries, evictBatch, ttl;
      entries := map[];
    }

    ghost predicate Valid()
      reads this
    {
      0 < evictBatch <= maxEntries && |entries| <= maxEntries
    }

    function Stamps(entries: map<Key, Entry>): map<Key, int> {
      map k | k in entries :: entries[k].timestamp
    }

    /** The critical section of a local append, eviction included. An absent or expired entry counts as empty. */
    method AppendLocal(key: Key, turn: Items, now: int)
      requires Valid()
      modifies this`entries
      ensures Valid()
      ensures var live := if key in old(entries) && now <= old(entries)[key].timestamp + ttl
                          then old(entries)[key].items else [];
              var stored := old(entries)[key := Entry(Append(limits, live, turn), now)];
              if |stored| > maxEntries then
                exists victims: set<Key> :: OldestOf(Stamps(stored), victims, evictBatch) && entries == stored - victims
              else entries == stored
      ensures |entries| <= maxEntries
      ensures forall k, m | k in old(entries) && k !in entries && k != key && m in entries && m != key ::
                m in old(entries) && old(entries)[k].timestamp <= old(entries)[m].timestamp
    {
      var existing := if key in entries then entries[key].items else [];
      if key in entries && now - entries[key].timestamp > ttl {
        existing := [];
      }
      var items := AppendTurn(limits, existing, turn);
      assert entries[key := Entry(items, now)].Keys == entries.Keys + {key};
      entries := entries[key := Entry(items, now)];
      assert |entries.Keys| == |entries| && |old(entries).Keys| == |old(entries)|;
      if |entries| > maxEntries {
        ghost var stored := entries;
        assert Stamps(entries).Keys == entries.Keys && |Stamps(entries).Keys| == |Stamps(entries)|;
        var victims := OldestKeys(Stamps(entries), evictBatch);
        RemovalCount(entries, victims);
        entries := entries - victims;
      }
    }
  }
}
