/** The Home mode of the Antigravity replay cache
    (internal/cache/antigravity_reasoning_replay_cache.go): one remote register with get, set,
    compare-and-swap and expiry, used by any number of concurrent requests. A Replace is a loop of swap
    attempts with reads between them; its branch id is computed once, before the first attempt.

    A register value stands for the bytes this code writes: the marker (generation, branch, deleted) and
    the items. Every write carries a new generation, so equal bytes are the same write. */
module AntigravityHome {
  import opened Wrappers
  import opened ByteText
  import opened AntigravityCache

  type Nonce = nat

  datatype Value = Value(generation: Nonce, branch: Branch, deleted: bool, items: Items)

  /** A read: the raw value, and what was decoded from it. */
  datatype HomeSnapshot = HomeSnapshot(raw: Option<Value>, branch: Option<Branch>, items: Items)

  /** What a Get hands out when the register fails it: a snapshot that expects an empty register. */
  const FAILED: HomeSnapshot := HomeSnapshot(None, None, [])

  function SnapshotFor(v: Value): HomeSnapshot {
    HomeSnapshot(Some(v), Some(v.branch), if v.deleted then [] else v.items)
  }

  const MAX_ATTEMPTS: nat := 4

  /** A Replace in flight: about to swap against `expected`, or about to read after a failed swap. */
  datatype Replacing = Replacing(snapshot: HomeSnapshot, items: Items, branch: Branch, next: Branch,
                                 expected: Option<Value>, attempt: nat, reading: bool)

  /** `written` is every value ever put in the register, in order; `current` is the last of them, unless
      the register expired since. */
  datatype World = World(current: Option<Value>, written: seq<Value>, issued: set<HomeSnapshot>,
                         replacing: map<nat, Replacing>, used: set<Nonce>)

  const START: World := World(None, [], {}, map[], {})

  datatype Event =
    | ReadFound                                                    // Get: the value is there
    | Reserve(generation: Nonce, branch: Nonce)                    // Get: fence an absent value
    | ReadFails                                                    // Get: the register fails, or stays absent
    | Overwrite(items: Items, generation: Nonce, branch: Nonce)    // unconditional store
    | Erase(generation: Nonce, branch: Nonce)                      // unconditional delete
    | EraseIf(snapshot: HomeSnapshot, generation: Nonce, branch: Nonce)
    | Expire
    | Begin(op: nat, snapshot: HomeSnapshot, items: Items, next: Nonce)
    | Swap(op: nat, generation: Nonce)
    | Reread(op: nat)

  ghost predicate Enabled(w: World, e: Event) {
    match e
    case ReadFound => w.current.Some?
    case Reserve(g, b) => w.current.None? && g !in w.used && b !in w.used && g != b
    case ReadFails => true
    case Overwrite(_, g, b) => g !in w.used && b !in w.used && g != b
    case Erase(g, b) => g !in w.used && b !in w.used && g != b
    case EraseIf(s, g, b) => s in w.issued && g !in w.used && b !in w.used && g != b
    case Expire => true
    case Begin(op, s, _, next) => op !in w.replacing && s in w.issued && next !in w.used
    case Swap(op, g) => op in w.replacing && !w.replacing[op].reading && g !in w.used
    case Reread(op) => op in w.replacing && w.replacing[op].reading
  }

  function Write(w: World, v: Value): World {
    w.(current := Some(v), written := w.written + [v], used := w.used + {v.generation, v.branch})
  }

  /** May the loop try again against what it just read? */
  predicate Retries(r: Replacing, read: Option<Value>) {
    && read.Some? && !read.value.deleted && Some(read.value.branch) == r.snapshot.branch
    && read.value.items <= r.items && r.attempt + 1 < MAX_ATTEMPTS
  }

  function Next(w: World, e: Event): World
    requires Enabled(w, e)
  {
    match e
    case ReadFound => w.(issued := w.issued + {SnapshotFor(w.current.value)})
    case Reserve(g, b) =>
      var v := Value(g, b, true, []);
      Write(w, v).(issued := w.issued + {SnapshotFor(v)})
    case ReadFails => w.(issued := w.issued + {FAILED})
    case Overwrite(items, g, b) => Write(w, Value(g, b, false, items))
    case Erase(g, b) => Write(w, Value(g, b, true, []))
    case EraseIf(s, g, b) =>
      if w.current == s.raw then Write(w, Value(g, b, true, [])) else w.(used := w.used + {g, b})
    case Expire => w.(current := None)
    case Begin(op, s, items, next) =>
      var branch := if s.branch.Some? && s.items <= items then s.branch.value else next;
      w.(replacing := w.replacing[op := Replacing(s, items, branch, next, s.raw, 0, false)], used := w.used + {next})
    case Swap(op, g) =>
      var r := w.replacing[op];
      if w.current == r.expected
      then Write(w, Value(g, r.branch, false, r.items)).(replacing := w.replacing - {op})
      else w.(replacing := w.replacing[op := r.(reading := true)], used := w.used + {g})
    case Reread(op) =>
      var r := w.replacing[op];
      if Retries(r, w.current)
      then w.(replacing := w.replacing[op := r.(expected := w.current, attempt := r.attempt + 1, reading := false)])
      else w.(replacing := w.replacing - {op})
  }

  // ---- the invariant -----------------------------------------------------------------------------

  ghost predicate Chained(written: seq<Value>) {
    forall i, j | 0 <= i < j < |written| && written[i].branch == written[j].branch ::
      written[i].items <= written[j].items
  }

  /** A value another request has written since, which the items to publish extend. */
  ghost predicate Continues(w: World, r: Replacing, v: Value) {
    v in w.written && !v.deleted && Some(v.branch) == r.snapshot.branch && v.items <= r.items
  }

  ghost predicate ReplacingOk(w: World, op: nat)
    requires op in w.replacing
  {
    var r := w.replacing[op];
    && r.snapshot in w.issued && r.next in w.used
    && (r.expected == r.snapshot.raw || (r.expected.Some? && Continues(w, r, r.expected.value)))
    && (if r.snapshot.branch.Some? && r.snapshot.items <= r.items then Some(r.branch) == r.snapshot.branch
        else r.branch == r.next)
    && (forall v | v in w.written :: v.branch != r.next)
    && (forall other | other in w.replacing && other != op :: w.replacing[other].next != r.next)
  }

  ghost predicate Taken(w: World, s: HomeSnapshot) {
    s.raw.Some? && s.raw.value in w.written && s == SnapshotFor(s.raw.value)
  }

  ghost predicate WrittenOk(w: World) {
    && Chained(w.written)
    && (forall v | v in w.written :: v.branch in w.used && v.generation in w.used && (v.deleted ==> v.items == []))
    && (forall i, j | 0 <= i < j < |w.written| :: w.written[i].generation != w.written[j].generation)
    && (forall s | s in w.issued :: s == FAILED || Taken(w, s))
  }

  ghost predicate Inv(w: World) {
    && (w.current.Some? ==> w.written != [] && w.current.value == w.written[|w.written| - 1])
    && WrittenOk(w)
    && (forall op | op in w.replacing :: ReplacingOk(w, op))
  }

  /** What is written stays in order when only requests, the register's expiry and used-up ids change. */
  lemma WrittenOkStays(w: World, w': World)
    requires WrittenOk(w) && w'.written == w.written && w'.issued == w.issued && w.used <= w'.used
    ensures WrittenOk(w')
  {
  }

  /** The current value is the longest of its branch. */
  lemma CurrentIsLongest(w: World, v: Value)
    requires Inv(w) && w.current.Some? && v in w.written && v.branch == w.current.value.branch
    ensures v.items <= w.current.value.items
  {
    var i :| 0 <= i < |w.written| && w.written[i] == v;
  }

  /** The branch of a new value is new, or is the current one and the value extends the current list. */
  ghost predicate BranchFits(w: World, v: Value) {
    || (forall u | u in w.written :: u.branch != v.branch)
    || (w.current.Some? && v.branch == w.current.value.branch && w.current.value.items <= v.items)
  }

  lemma WriteKeeps(w: World, v: Value)
    requires Inv(w) && v.generation !in w.used && (v.deleted ==> v.items == []) && BranchFits(w, v)
    ensures WrittenOk(Write(w, v))
  {
    var w' := Write(w, v);
    forall i, j | 0 <= i < j < |w'.written| && w'.written[i].branch == w'.written[j].branch
      ensures w'.written[i].items <= w'.written[j].items
    {
      if j == |w.written| {
        assert w.written[i] in w.written;
        if w.current.Some? && v.branch == w.current.value.branch {
          CurrentIsLongest(w, w.written[i]);
        }
      }
    }
    hide Chained, BranchFits, ReplacingOk;
    forall i, j | 0 <= i < j < |w'.written|
      ensures w'.written[i].generation != w'.written[j].generation
    {
      assert w.written[i] in w.written;
    }
  }

  /** A write on a branch no request holds in reserve leaves the requests in flight as they were. */
  lemma WriteKeepsReplacing(w: World, v: Value, op: nat)
    requires Inv(w) && op in w.replacing && v.branch != w.replacing[op].next
    ensures ReplacingOk(Write(w, v), op)
  {
    assert ReplacingOk(w, op);
  }

  /** A write with a new generation on a new branch. */
  lemma FreshWriteKeeps(w: World, v: Value)
    requires Inv(w) && v.generation !in w.used && v.branch !in w.used && (v.deleted ==> v.items == [])
    ensures Inv(Write(w, v))
  {
    WriteKeeps(w, v);
    forall op | op in w.replacing
      ensures ReplacingOk(Write(w, v), op)
    {
      assert ReplacingOk(w, op);
      WriteKeepsReplacing(w, v, op);
    }
  }

  lemma BranchesUsed(w: World)
    requires WrittenOk(w)
    ensures forall v | v in w.written :: v.branch in w.used
    ensures forall s | s in w.issued :: s == FAILED || Taken(w, s)
  {
  }

  lemma BeginKeeps(w: World, op: nat, s: HomeSnapshot, items: Items, next: Nonce)
    requires Inv(w) && Enabled(w, Begin(op, s, items, next))
    ensures Inv(Next(w, Begin(op, s, items, next)))
  {
    var w' := Next(w, Begin(op, s, items, next));
    WrittenOkStays(w, w');
    NewRequestIsOk(w, op, s, items, next);
    hide WrittenOk;
    forall other | other in w.replacing
      ensures ReplacingOk(w', other)
    {
      assert ReplacingOk(w, other);
      assert w'.replacing[other] == w.replacing[other];
    }
  }

  lemma NewRequestIsOk(w: World, op: nat, s: HomeSnapshot, items: Items, next: Nonce)
    requires Inv(w) && Enabled(w, Begin(op, s, items, next))
    ensures ReplacingOk(Next(w, Begin(op, s, items, next)), op)
  {
    BranchesUsed(w);
    hide WrittenOk;
    forall other | other in w.replacing ensures w.replacing[other].next != next {
      assert ReplacingOk(w, other);
    }
  }

  /** A request stays in order when no value is written and no other request changes its reserved id. */
  lemma OtherUnaffected(w: World, w': World, op: nat)
    requires op in w.replacing && op in w'.replacing && ReplacingOk(w, op)
    requires w'.written == w.written && w'.issued == w.issued && w.used <= w'.used
    requires w'.replacing[op] == w.replacing[op]
    requires forall x | x in w'.replacing :: x in w.replacing && w'.replacing[x].next == w.replacing[x].next
    ensures ReplacingOk(w', op)
  {
  }

  lemma OnlyRequestsChange(w: World, w': World, op: nat)
    requires Inv(w) && op in w.replacing && w' == w.(replacing := w'.replacing)
    requires forall x | x in w'.replacing :: x in w.replacing && w'.replacing[x].next == w.replacing[x].next
    requires forall x | x in w'.replacing && x != op :: w'.replacing[x] == w.replacing[x]
    requires op in w'.replacing ==> ReplacingOk(w', op)
    ensures Inv(w')
  {
    WrittenOkStays(w, w');
    hide WrittenOk, ReplacingOk;
    forall other | other in w'.replacing && other != op
      ensures ReplacingOk(w', other)
    {
      OtherUnaffected(w, w', other);
    }
  }

  lemma RereadKeeps(w: World, op: nat)
    requires Inv(w) && Enabled(w, Reread(op))
    ensures Inv(Next(w, Reread(op)))
  {
    hide Inv, ReplacingOk;
    var w' := Next(w, Reread(op));
    if op in w'.replacing {
      RereadSelf(w, op);
    }
    assert forall x | x in w'.replacing :: x in w.replacing && w'.replacing[x].next == w.replacing[x].next;
    OnlyRequestsChange(w, w', op);
  }

  lemma RereadSelf(w: World, op: nat)
    requires Inv(w) && Enabled(w, Reread(op)) && op in Next(w, Reread(op)).replacing
    ensures ReplacingOk(Next(w, Reread(op)), op)
  {
    hide WrittenOk;
    assert ReplacingOk(w, op);
  }

  /** The local rule lets this request publish over `current`, on the branch it has chosen, and what stands there is
      what its snapshot read or lies between that and the items to publish. */
  ghost predicate LocalStep(r: Replacing, current: Option<Value>) {
    var untouched := current == r.snapshot.raw;
    && (match current
        case None => untouched
        case Some(v) =>
          && RuleAllows(untouched, v.deleted, v.branch, v.items, r.snapshot.branch, r.items)
          && (untouched || r.snapshot.items <= v.items <= r.items))
    && r.branch == RuleBranch(untouched, r.snapshot.branch, r.snapshot.items, r.items, r.next)
  }

  /** A swap that goes through is a step the local rule allows, with the branch the local rule gives: the
      branch computed before the first attempt is still right at the last one. */
  lemma SwapFollowsTheLocalRule(w: World, op: nat)
    requires Inv(w) && op in w.replacing && w.current == w.replacing[op].expected
    ensures LocalStep(w.replacing[op], w.current)
  {
    assert ReplacingOk(w, op);
    var r := w.replacing[op];
    if w.current != r.snapshot.raw {
      assert Taken(w, r.snapshot);
      CurrentIsLongest(w, r.snapshot.raw.value);
    }
  }

  lemma SwapSucceedsKeeps(w: World, op: nat, g: Nonce)
    requires Inv(w) && Enabled(w, Swap(op, g)) && w.current == w.replacing[op].expected
    ensures Inv(Next(w, Swap(op, g)))
  {
    var r := w.replacing[op];
    var v := Value(g, r.branch, false, r.items);
    var w' := Write(w, v).(replacing := w.replacing - {op});
    assert ReplacingOk(w, op);
    SwapFollowsTheLocalRule(w, op);
    BranchesUsed(w);
    WriteKeeps(w, v);
    WrittenOkStays(Write(w, v), w');
    SwapLeavesOthers(w, op, v);
  }

  lemma SwapLeavesOthers(w: World, op: nat, v: Value)
    requires Inv(w) && op in w.replacing && (v.branch == w.replacing[op].branch)
    ensures var w' := Write(w, v).(replacing := w.replacing - {op});
            forall other | other in w'.replacing :: ReplacingOk(w', other)
  {
    var w' := Write(w, v).(replacing := w.replacing - {op});
    BranchesUsed(w);
    assert ReplacingOk(w, op);
    hide WrittenOk;
    forall other | other in w'.replacing
      ensures ReplacingOk(w', other)
    {
      assert ReplacingOk(w, other);
      assert w.replacing[op].snapshot == FAILED || w.replacing[op].snapshot.raw.value.branch != w.replacing[other].next;
      WriteKeepsReplacing(w, v, other);
      WithoutSelf(Write(w, v), op, other);
    }
  }

  lemma WithoutSelf(w: World, op: nat, other: nat)
    requires op in w.replacing && other in w.replacing && op != other && ReplacingOk(w, other)
    ensures ReplacingOk(w.(replacing := w.replacing - {op}), other)
  {
  }

  lemma SwapFailsKeeps(w: World, op: nat, g: Nonce)
    requires Inv(w) && Enabled(w, Swap(op, g)) && w.current != w.replacing[op].expected
    ensures Inv(Next(w, Swap(op, g)))
  {
    hide Inv, ReplacingOk;
    UsedUpKeeps(w, {g});
    ReadingKeeps(w.(used := w.used + {g}), op);
  }

  /** What a Replace is to do next. */
  lemma ReadingKeeps(w: World, op: nat)
    requires Inv(w) && op in w.replacing
    ensures Inv(w.(replacing := w.replacing[op := w.replacing[op].(reading := true)]))
  {
    var w' := w.(replacing := w.replacing[op := w.replacing[op].(reading := true)]);
    assert ReplacingOk(w, op);
    assert ReplacingOk(w', op);
    hide Inv, ReplacingOk;
    OnlyRequestsChange(w, w', op);
  }

  lemma UsedUpKeeps(w: World, more: set<Nonce>)
    requires Inv(w)
    ensures Inv(w.(used := w.used + more))
  {
    forall op | op in w.replacing
      ensures ReplacingOk(w.(used := w.used + more), op)
    {
      assert ReplacingOk(w, op);
    }
  }

  lemma IssueKeeps(w: World, v: Value)
    requires Inv(w) && v in w.written
    ensures Inv(w.(issued := w.issued + {SnapshotFor(v)}))
  {
    forall op | op in w.replacing
      ensures ReplacingOk(w.(issued := w.issued + {SnapshotFor(v)}), op)
    {
      assert ReplacingOk(w, op);
    }
  }

  lemma FailureKeeps(w: World)
    requires Inv(w)
    ensures Inv(w.(issued := w.issued + {FAILED}))
  {
    forall op | op in w.replacing
      ensures ReplacingOk(w.(issued := w.issued + {FAILED}), op)
    {
      assert ReplacingOk(w, op);
    }
  }

  lemma NextKeeps(w: World, e: Event)
    requires Inv(w) && Enabled(w, e)
    ensures Inv(Next(w, e))
  {
    match e
    case ReadFound => IssueKeeps(w, w.current.value);
    case Reserve(g, b) =>
      FreshWriteKeeps(w, Value(g, b, true, []));
      IssueKeeps(Write(w, Value(g, b, true, [])), Value(g, b, true, []));
    case ReadFails => FailureKeeps(w);
    case Overwrite(items, g, b) => FreshWriteKeeps(w, Value(g, b, false, items));
    case Erase(g, b) => FreshWriteKeeps(w, Value(g, b, true, []));
    case EraseIf(s, g, b) =>
      FreshWriteKeeps(w, Value(g, b, true, []));
      UsedUpKeeps(w, {g, b});
    case Expire =>
      forall op | op in w.replacing
        ensures ReplacingOk(Next(w, e), op)
      {
        assert ReplacingOk(w, op);
      }
    case Begin(op, s, items, next) => BeginKeeps(w, op, s, items, next);
    case Swap(op, g) =>
      if w.current == w.replacing[op].expected { SwapSucceedsKeeps(w, op, g); } else { SwapFailsKeeps(w, op, g); }
    case Reread(op) => RereadKeeps(w, op);
  }

  // ---- what a request comes to -----------------------------------------------------------------------

  /** A Replace whose swap fails because another request has published a shorter extension on the same branch reads
      that and tries again, four swaps in all; left alone then, it goes through. */
  lemma TriesAgain(w: World, op: nat, g: Nonce, g': Nonce)
    requires Enabled(w, Swap(op, g)) && w.current.Some? && w.current != w.replacing[op].expected
    requires g' !in w.used && g' != g
    requires var r, v := w.replacing[op], w.current.value;
      !v.deleted && r.snapshot.branch == Some(v.branch) && v.items <= r.items
    ensures var r, w1 := w.replacing[op], Next(w, Swap(op, g));
      && w1.current == w.current && Enabled(w1, Reread(op))
      && var w2 := Next(w1, Reread(op));
      && w2.current == w.current
      && if r.attempt < 3 then
           && Enabled(w2, Swap(op, g')) && op !in Next(w2, Swap(op, g')).replacing
           && Next(w2, Swap(op, g')).current == Some(Value(g', r.branch, false, r.items))
         else op !in w2.replacing
  {
  }

  /** In all other cases a failed swap is the last one. */
  lemma OtherwiseGivesUp(w: World, op: nat)
    requires Enabled(w, Reread(op))
    requires var r := w.replacing[op];
      || w.current.None? || w.current.value.deleted || Some(w.current.value.branch) != r.snapshot.branch
      || !(w.current.value.items <= r.items)
    ensures Next(w, Reread(op)) == w.(replacing := w.replacing - {op})
  {
  }

  /** A conditional delete takes effect exactly when the register holds what its snapshot read. */
  lemma DeletesExactly(w: World, s: HomeSnapshot, g: Nonce, b: Nonce)
    requires Enabled(w, EraseIf(s, g, b))
    ensures Next(w, EraseIf(s, g, b)).current == if w.current == s.raw then Some(Value(g, b, true, [])) else w.current
  {
  }

  // ---- runs --------------------------------------------------------------------------------------

  ghost predicate Possible(w: World, es: seq<Event>)
    decreases |es|
  {
    es != [] ==> Enabled(w, es[0]) && Possible(Next(w, es[0]), es[1..])
  }

  ghost function After(w: World, es: seq<Event>): World
    requires Possible(w, es)
    decreases |es|
  {
    if es == [] then w else After(Next(w, es[0]), es[1..])
  }

  lemma {:induction false} RunKeeps(w: World, es: seq<Event>)
    requires Inv(w) && Possible(w, es)
    ensures Inv(After(w, es))
    decreases |es|
  {
    if es != [] {
      NextKeeps(w, es[0]);
      RunKeeps(Next(w, es[0]), es[1..]);
    }
  }

  /** The swaps a Replace has made since it began, `made` of them before these events. */
  function Made(es: seq<Event>, op: nat, made: nat): nat {
    if es == [] then made else Made(es[1..], op, MadeBy(es[0], op, made))
  }

  function MadeBy(e: Event, op: nat, made: nat): nat {
    if e.Begin? && e.op == op then 0 else if e.Swap? && e.op == op then made + 1 else made
  }

  ghost predicate HasMade(w: World, op: nat, made: nat) {
    op in w.replacing ==>
      var r := w.replacing[op];
      r.attempt < 4 && made == if r.reading then r.attempt + 1 else r.attempt
  }

  lemma {:induction false} MadeInRuns(w: World, es: seq<Event>, op: nat, made: nat)
    requires Possible(w, es) && HasMade(w, op, made)
    ensures HasMade(After(w, es), op, Made(es, op, made))
    decreases |es|
  {
    if es != [] {
      MadeInRuns(Next(w, es[0]), es[1..], op, MadeBy(es[0], op, made));
    }
  }

  /** In every run a Replace makes four swaps at the most, and `attempt` counts the ones that failed. */
  lemma FourSwapsAtMost(es: seq<Event>, op: nat, g: Nonce)
    requires Possible(START, es) && Enabled(After(START, es), Swap(op, g))
    ensures Made(es, op, 0) < 4 && After(START, es).replacing[op].attempt == Made(es, op, 0)
  {
    MadeInRuns(START, es, op, 0);
  }

  /** The value the snapshot was read from is gone, and so is its branch. */
  ghost predicate LeftBehind(w: World, s: HomeSnapshot) {
    s.branch.Some? && (w.current.None? || w.current.value.branch != s.branch.value)
  }

  lemma LeftBehindStays(w: World, e: Event, s: HomeSnapshot)
    requires Inv(w) && Enabled(w, e) && s in w.issued && LeftBehind(w, s)
    ensures s in Next(w, e).issued && LeftBehind(Next(w, e), s)
  {
    assert Taken(w, s) && s.branch.value in w.used;
    if e.Swap? {
      SwappedBranch(w, e.op, s);
    }
  }

  /** A swap never brings back a branch that was left. */
  lemma SwappedBranch(w: World, op: nat, s: HomeSnapshot)
    requires Inv(w) && op in w.replacing && s in w.issued && LeftBehind(w, s)
    ensures w.current == w.replacing[op].expected ==>
              w.replacing[op].branch != s.branch.value && w.replacing[op].snapshot != s
  {
    var r := w.replacing[op];
    assert ReplacingOk(w, op);
    assert Taken(w, s) && (r.snapshot == FAILED || Taken(w, r.snapshot));
  }

  lemma {:induction false} LeftBehindForever(w: World, s: HomeSnapshot, es: seq<Event>)
    requires Inv(w) && s in w.issued && LeftBehind(w, s) && Possible(w, es)
    ensures Inv(After(w, es)) && s in After(w, es).issued && LeftBehind(After(w, es), s)
    decreases |es|
  {
    if es != [] {
      NextKeeps(w, es[0]);
      LeftBehindStays(w, es[0], s);
      hide Inv, Enabled, LeftBehind;
      LeftBehindForever(Next(w, es[0]), s, es[1..]);
    }
  }

  /** In every run, once the register is empty or on another branch than a snapshot, no later swap of a Replace with
      that snapshot goes through, and no conditional delete with it. */
  lemma StaleNeverPublishes(es: seq<Event>, s: HomeSnapshot, later: seq<Event>, op: nat)
    requires Possible(START, es)
    requires var w := After(START, es); s in w.issued && LeftBehind(w, s) && Possible(w, later)
    ensures var w := After(After(START, es), later);
            && w.current != s.raw
            && (op in w.replacing && w.replacing[op].snapshot == s ==> w.current != w.replacing[op].expected)
  {
    var w := After(START, es);
    RunKeeps(START, es);
    LeftBehindForever(w, s, later);
    var w' := After(w, later);
    assert Taken(w', s);
    if op in w'.replacing {
      SwappedBranch(w', op, s);
    }
  }

  /** In every run, a Replace with the snapshot of a failed read swaps against an empty register only, and onto a
      branch that no value was ever written on. */
  lemma FailedReadsPublishIntoNothing(es: seq<Event>, op: nat)
    requires Possible(START, es)
    requires var w := After(START, es); op in w.replacing && w.replacing[op].snapshot == FAILED
    ensures var w := After(START, es);
            && w.replacing[op].expected == None
            && forall v | v in w.written :: v.branch != w.replacing[op].branch
  {
    RunKeeps(START, es);
    assert ReplacingOk(After(START, es), op);
  }

  /** In every interleaving of any number of requests, the lists written under one branch id form a growing
      prefix chain, and a Replace whose swap goes through publishes exactly its items, on the branch the
      local rule gives, in a step the local rule allows against what it replaced. */
  lemma HomeRefinesLocalRule(es: seq<Event>, op: nat, g: Nonce)
    requires Possible(START, es)
    requires var w := After(START, es); Enabled(w, Swap(op, g)) && w.current == w.replacing[op].expected
    ensures var w := After(START, es);
            var r := w.replacing[op];
            var untouched := w.current == r.snapshot.raw;
            && Chained(w.written)
            && (w.current.Some? ==>
                  var cur := w.current.value;
                  && RuleAllows(untouched, cur.deleted, cur.branch, cur.items, r.snapshot.branch, r.items)
                  && (cur.items == r.snapshot.items || cur.items <= r.items))
            && (w.current.None? ==> untouched)
            && Next(w, Swap(op, g)).current ==
               Some(Value(g, RuleBranch(untouched, r.snapshot.branch, r.snapshot.items, r.items, r.next), false,
                          r.items))
  {
    RunKeeps(START, es);
    SwapFollowsTheLocalRule(After(START, es), op);
    assert ReplacingOk(After(START, es), op);
  }
}
