/** Whole runs of the release flusher (internal/home/concurrency_release.go): marks, snapshots, sends
    and acknowledgements of any number of flushes, in any order; and the delay between flushes. */
module ReleaseRuns {
  import opened ByteText
  import opened ReleaseFlusher

  /** `inFlight` are the frames taken from a snapshot, `delivered` those whose send succeeded. */
  datatype World = World(f: Flusher, inFlight: set<(Group, int)>, delivered: set<(Group, int)>)

  const START: World := World(Flusher(map[], map[], 0, {}), {}, {})

  datatype Event =
    | Mark(g: Group, n: int)
    | Snapshot
    | Deliver(g: Group, n: int)
    | Acknowledge(g: Group, n: int)

  predicate Enabled(w: World, e: Event) {
    match e
    case Mark(g, n) => Accepted(g, n)
    case Snapshot => true
    case Deliver(g, n) => (g, n) in w.inFlight
    case Acknowledge(g, n) => (g, n) in w.delivered
  }

  function Next(w: World, e: Event): World {
    match e
    case Mark(g, n) => w.(f := Marked(w.f, g, n))
    case Snapshot => w.(inFlight := w.inFlight + PendingOf(w.f.groups).Items)
    case Deliver(g, n) => w.(delivered := w.delivered + {(g, n)})
    case Acknowledge(g, n) => w.(f := Acknowledged(w.f, g, n))
  }

  ghost predicate FrameOk(w: World, g: Group, n: int) {
    g in w.f.groups && 0 < n <= w.f.groups[g].latest
  }

  ghost predicate Inv(w: World) {
    && Valid(w.f)
    && (forall g, n | (g, n) in w.inFlight + w.delivered :: FrameOk(w, g, n))
    && (forall g | g in w.f.groups :: w.f.groups[g].acked == 0 || (g, w.f.groups[g].acked) in w.delivered)
  }

  /** Sequence numbers never fall, tickets are never forgotten or reopened. */
  ghost predicate NeverFalls(f: Flusher, f': Flusher) {
    && f.closed <= f'.closed
    && (forall t | t in f.tickets :: t in f'.tickets && f'.tickets[t] == f.tickets[t])
    && (forall g | g in f.groups ::
          g in f'.groups && f.groups[g].acked <= f'.groups[g].acked && f.groups[g].latest <= f'.groups[g].latest)
  }

  lemma NextNeverFalls(w: World, e: Event)
    requires Inv(w) && Enabled(w, e)
    ensures NeverFalls(w.f, Next(w, e).f)
  {
    if e.Mark? {
      NextIsNew(w.f);
    }
  }

  lemma NextKeeps(w: World, e: Event)
    requires Inv(w) && Enabled(w, e)
    ensures Inv(Next(w, e))
  {
    var w' := Next(w, e);
    assert Valid(w'.f) by {
      match e
      case Mark(g, n) => MarkedKeeps(w.f, g, n);
      case Snapshot =>
      case Deliver(g, n) =>
      case Acknowledge(g, n) =>
        assert FrameOk(w, g, n);
        AcknowledgedKeeps(w.f, g, n);
    }
    NextNeverFalls(w, e);
    hide Valid;
    forall g, n | (g, n) in w'.inFlight + w'.delivered
      ensures FrameOk(w', g, n)
    {
      if (g, n) in w.inFlight + w.delivered {
        assert FrameOk(w, g, n);
      } else {
        PendingIsPositive(w, g, n);
      }
    }
  }

  lemma PendingIsPositive(w: World, g: Group, n: int)
    requires Valid(w.f) && (g, n) in PendingOf(w.f.groups).Items
    ensures FrameOk(w, g, n)
  {
    assert g in PendingOf(w.f.groups) && PendingOf(w.f.groups)[g] == n;
    assert GroupOk(w.f, g);
  }

  ghost predicate Possible(w: World, es: seq<Event>)
    decreases |es|
  {
    es != [] ==> Enabled(w, es[0]) && Possible(Next(w, es[0]), es[1..])
  }

  ghost function After(w: World, es: seq<Event>): World
    requires Possible(w, es)
    decreases |es|
  {
    if es == [] then w else After(Next(w, es[0]), es[1..])
  }

  lemma {:induction false} RunKeeps(w: World, es: seq<Event>)
    requires Inv(w) && Possible(w, es)
    ensures Inv(After(w, es)) && NeverFalls(w.f, After(w, es).f)
    decreases |es|
  {
    if es != [] {
      NextKeeps(w, es[0]);
      NextNeverFalls(w, es[0]);
      hide Inv, Enabled;
      RunKeeps(Next(w, es[0]), es[1..]);
    }
  }

  /** In every run: acknowledged numbers stay at or below the latest ones, whoever waits waits for a number
      between the two, a ticket is closed only after a send of at least its number succeeded, and an idle
      flusher has closed every ticket. */
  lemma TicketsMeanDelivery(es: seq<Event>, t: nat)
    requires Possible(START, es)
    ensures var w := After(START, es);
            && (forall g | g in w.f.groups :: StateOk(w.f.groups[g]))
            && (t in w.f.closed ==>
                  t in w.f.tickets &&
                  exists n :: n >= w.f.tickets[t].1 && (w.f.tickets[t].0, n) in w.delivered)
            && (t in w.f.tickets && (forall g | g in w.f.groups :: w.f.groups[g].latest <= w.f.groups[g].acked) ==>
                  t in w.f.closed)
            && (t in w.f.tickets && t !in w.f.closed ==>
                  var (g, n) := w.f.tickets[t];
                  g in w.f.groups && w.f.groups[g].acked < n <= w.f.groups[g].latest)
  {
    RunKeeps(START, es);
    var w := After(START, es);
    forall g | g in w.f.groups
      ensures GroupOk(w.f, g)
    {
    }
    if t in w.f.tickets {
      assert TicketOk(w.f, t);
      assert Positive(w.f, t) by { PositiveInRuns(START, es, t); }
    }
    if IdleGroups(w.f.groups) {
      IdleClosesAll(w.f);
    }
  }

  /** In every run no ticket is closed twice, which would close a closed channel: what an event closes was open, and
      an acknowledgement meets each ticket once, in one waiter list. */
  lemma NoTicketIsClosedTwice(es: seq<Event>, e: Event)
    requires Possible(START, es) && Enabled(After(START, es), e)
    ensures var w := After(START, es);
            && (e.Mark? ==> w.f.next !in w.f.closed)
            && (e.Acknowledge? ==>
                  var lists := StateOf(w.f.groups, e.g).waiters;
                  && CoveredIn(lists, e.n) !! w.f.closed
                  && (forall m | m in lists :: NoRepeats(lists[m]))
                  && (forall m, m', t | m in lists && m' in lists && t in lists[m] && t in lists[m'] :: m == m'))
  {
    RunKeeps(START, es);
    var w := After(START, es);
    NextIsNew(w.f);
    if e.Acknowledge? {
      var lists := StateOf(w.f.groups, e.g).waiters;
      forall m | m in lists ensures WaitersOk(w.f, e.g, m, lists[m]) {
        assert GroupOk(w.f, e.g);
      }
    }
  }

  // ---- what becomes of one ticket ----------------------------------------------------------------

  lemma {:induction false} AfterBoth(w: World, a: seq<Event>, b: seq<Event>)
    requires Possible(w, a + b)
    ensures Possible(w, a) && Possible(After(w, a), b) && After(w, a + b) == After(After(w, a), b)
    decreases |a|
  {
    if a == [] {
      assert a + b == b;
    } else {
      assert (a + b)[0] == a[0] && (a + b)[1..] == a[1..] + b;
      AfterBoth(Next(w, a[0]), a[1..], b);
    }
  }

  lemma AfterOne(w: World, e: Event, es: seq<Event>)
    requires Possible(w, [e] + es)
    ensures Enabled(w, e) && Possible(Next(w, e), es) && After(w, [e] + es) == After(Next(w, e), es)
  {
    assert ([e] + es)[1..] == es;
  }

  /** Each mark gets a new ticket of its own that carries its group and number for good. */
  lemma MarkGetsATicket(before: seq<Event>, g: Group, n: int, after: seq<Event>)
    requires Possible(START, before + ([Mark(g, n)] + after))
    ensures var es := before + ([Mark(g, n)] + after);
            && Possible(START, before)
            && (var t := After(START, before).f.next;
                && t !in After(START, before).f.tickets
                && t in After(START, es).f.tickets && After(START, es).f.tickets[t] == (g, n))
  {
    AfterBoth(START, before, [Mark(g, n)] + after);
    var w := After(START, before);
    AfterOne(w, Mark(g, n), after);
    RunKeeps(START, before);
    NextIsNew(w.f);
    NextKeeps(w, Mark(g, n));
    RunKeeps(Next(w, Mark(g, n)), after);
  }

  /** Once a number is acknowledged, every ticket of the group up to it that was handed out before is closed
      and stays closed. */
  lemma AcknowledgedForGood(before: seq<Event>, g: Group, m: int, after: seq<Event>, t: nat)
    requires Possible(START, before + ([Acknowledge(g, m)] + after))
    ensures var es := before + ([Acknowledge(g, m)] + after);
            && Possible(START, before)
            && (t in After(START, before).f.tickets ==>
                  var (k, n) := After(START, before).f.tickets[t];
                  k == g && n <= m ==> t in After(START, es).f.closed)
  {
    AfterBoth(START, before, [Acknowledge(g, m)] + after);
    var w := After(START, before);
    AfterOne(w, Acknowledge(g, m), after);
    RunKeeps(START, before);
    assert FrameOk(w, g, m);
    AcknowledgedCloses(w.f, g, m);
    NextKeeps(w, Acknowledge(g, m));
    hide Inv;
    RunKeeps(Next(w, Acknowledge(g, m)), after);
  }

  /** A flush that starts while a ticket is open takes a frame along that answers it. */
  lemma FlushCarriesTheOpen(before: seq<Event>, t: nat)
    requires Possible(START, before)
    ensures var w := After(START, before);
            t in w.f.tickets && t !in w.f.closed ==>
              exists m :: m >= w.f.tickets[t].1 && (w.f.tickets[t].0, m) in Next(w, Snapshot).inFlight
  {
    RunKeeps(START, before);
    var w := After(START, before);
    if t in w.f.tickets && t !in w.f.closed {
      OpenIsPending(w.f, t);
      var g := w.f.tickets[t].0;
      var pending := PendingOf(w.f.groups);
      assert (g, pending[g]) in pending.Items;
      assert pending[g] >= w.f.tickets[t].1 && (g, pending[g]) in Next(w, Snapshot).inFlight;
    }
  }

  ghost predicate AskedFor(f: Flusher, g: Group, n: int) {
    exists t :: t in f.tickets && f.tickets[t] == (g, n)
  }

  ghost predicate NothingInvented(w: World) {
    && (forall g | g in w.f.groups && w.f.groups[g].latest > 0 :: AskedFor(w.f, g, w.f.groups[g].latest))
    && (forall g, n | (g, n) in w.inFlight + w.delivered :: AskedFor(w.f, g, n))
  }

  lemma StaysAskedFor(w: World, e: Event, g: Group, n: int)
    requires Inv(w) && Enabled(w, e) && AskedFor(w.f, g, n)
    ensures AskedFor(Next(w, e).f, g, n)
  {
    NextNeverFalls(w, e);
    var t :| t in w.f.tickets && w.f.tickets[t] == (g, n);
    assert t in Next(w, e).f.tickets && Next(w, e).f.tickets[t] == (g, n);
  }

  lemma LatestIsAskedFor(w: World, e: Event, g: Group)
    requires Inv(w) && Enabled(w, e) && NothingInvented(w)
    requires g in Next(w, e).f.groups && Next(w, e).f.groups[g].latest > 0
    ensures AskedFor(Next(w, e).f, g, Next(w, e).f.groups[g].latest)
  {
    var latest := Next(w, e).f.groups[g].latest;
    if g in w.f.groups && latest == w.f.groups[g].latest {
      StaysAskedFor(w, e, g, latest);
    } else {
      assert w.f.next in Next(w, e).f.tickets && Next(w, e).f.tickets[w.f.next] == (g, latest);
    }
  }

  lemma FramesAreAskedFor(w: World, e: Event, g: Group, n: int)
    requires Inv(w) && Enabled(w, e) && NothingInvented(w) && (g, n) in Next(w, e).inFlight + Next(w, e).delivered
    ensures AskedFor(Next(w, e).f, g, n)
  {
    if (g, n) !in w.inFlight + w.delivered {
      assert (g, n) in PendingOf(w.f.groups).Items;
      PendingIsPositive(w, g, n);
    }
    StaysAskedFor(w, e, g, n);
  }

  lemma {:induction false} NothingInventedFrom(w: World, es: seq<Event>)
    requires Inv(w) && NothingInvented(w) && Possible(w, es)
    ensures NothingInvented(After(w, es))
    decreases |es|
  {
    if es != [] {
      var w' := Next(w, es[0]);
      forall g | g in w'.f.groups && w'.f.groups[g].latest > 0
        ensures AskedFor(w'.f, g, w'.f.groups[g].latest)
      {
        LatestIsAskedFor(w, es[0], g);
      }
      forall g, n | (g, n) in w'.inFlight + w'.delivered
        ensures AskedFor(w'.f, g, n)
      {
        FramesAreAskedFor(w, es[0], g, n);
      }
      NextKeeps(w, es[0]);
      hide Inv, Enabled;
      NothingInventedFrom(w', es[1..]);
    }
  }

  /** Only numbers that somebody marked are ever sent or acknowledged. */
  lemma OnlyMarkedIsSent(es: seq<Event>, g: Group, n: int)
    requires Possible(START, es)
    ensures var w := After(START, es);
            && ((g, n) in w.inFlight + w.delivered ==> exists t :: t in w.f.tickets && w.f.tickets[t] == (g, n))
            && (g in w.f.groups && n == w.f.groups[g].acked && n > 0 ==>
                  exists t :: t in w.f.tickets && w.f.tickets[t] == (g, n))
  {
    NothingInventedFrom(START, es);
    RunKeeps(START, es);
  }

  /** In every run the flusher is idle exactly when every ticket ever handed out is closed. */
  lemma IdleMeansAllAnswered(es: seq<Event>)
    requires Possible(START, es)
    ensures var f := After(START, es).f;
            (forall g | g in f.groups :: f.groups[g].latest <= f.groups[g].acked) <==> f.closed == f.tickets.Keys
  {
    NothingInventedFrom(START, es);
    RunKeeps(START, es);
    var w := After(START, es);
    if IdleGroups(w.f.groups) {
      IdleClosesAll(w.f);
    }
    if w.f.closed == w.f.tickets.Keys {
      forall g | g in w.f.groups
        ensures w.f.groups[g].latest <= w.f.groups[g].acked
      {
        assert GroupOk(w.f, g);
        if w.f.groups[g].latest > 0 {
          var t :| t in w.f.tickets && w.f.tickets[t] == (g, w.f.groups[g].latest);
          assert TicketOk(w.f, t);
        }
      }
    }
  }

  /** Tickets carry positive numbers. */
  ghost predicate Positive(f: Flusher, t: nat) {
    t in f.tickets ==> f.tickets[t].1 > 0
  }

  lemma {:induction false} PositiveInRuns(w: World, es: seq<Event>, t: nat)
    requires Possible(w, es) && Positive(w.f, t)
    ensures Positive(After(w, es).f, t)
    decreases |es|
  {
    if es != [] {
      PositiveInRuns(Next(w, es[0]), es[1..], t);
    }
  }

  // ---- the delay between flushes -----------------------------------------------------------------

  /** Settled timings, as `timings` returns them: nanoseconds in a signed 64-bit integer. */
  datatype Timings = Timings(flushInterval: int, maxBackoff: int) {
    predicate Valid() {
      0 < flushInterval <= maxBackoff <= MAX_INT64
    }
  }

  /** `timings` settles what is configured. */
  function Settle(flushInterval: int, maxBackoff: int, defaultInterval: int): (t: Timings)
    requires 0 < defaultInterval <= MAX_INT64 && flushInterval <= MAX_INT64 && maxBackoff <= MAX_INT64
    ensures t.Valid()
    ensures 0 < flushInterval <= maxBackoff ==> t == Timings(flushInterval, maxBackoff)
  {
    var f := if flushInterval <= 0 then defaultInterval else flushInterval;
    Timings(f, if maxBackoff < f then f else maxBackoff)
  }

  /** Twice a duration, wrapping around as 64-bit addition does. */
  function Doubled(delay: int): (r: int)
    requires 0 <= delay <= MAX_INT64
    ensures -0x8000_0000_0000_0000 <= r <= 0x7fff_ffff_ffff_ffff
    ensures r == 2 * delay || r == 2 * delay - 0x1_0000_0000_0000_0000
  {
    if 2 * delay <= MAX_INT64 then 2 * delay else 2 * delay - 2 * (MAX_INT64 + 1)
  }

  /** `nextDelay`. */
  function NextDelay(t: Timings, delay: int, failed: bool): (r: (int, bool))
    requires t.Valid() && 0 <= delay <= MAX_INT64
    ensures t.flushInterval <= r.0 <= t.maxBackoff && r.1 == failed
    ensures !failed ==> r.0 == t.flushInterval
    ensures failed && delay <= t.maxBackoff < HALF ==> r.0 == t.maxBackoff || r.0 >= 2 * delay
  {
    if !failed then (t.flushInterval, false)
    else
      var twice := Doubled(delay);
      var low := if twice < t.flushInterval then t.flushInterval else twice;
      (if low > t.maxBackoff then t.maxBackoff else low, true)
  }

  /** The delay after `n` failures in a row. */
  function DelayAfter(t: Timings, n: nat): (d: int)
    requires t.Valid()
    ensures t.flushInterval <= d <= t.maxBackoff
  {
    if n == 0 then t.flushInterval else NextDelay(t, DelayAfter(t, n - 1), true).0
  }

  function Pow2(n: nat): nat {
    if n == 0 then 1 else 2 * Pow2(n - 1)
  }

  function Capped(t: Timings, n: nat): int {
    var d := t.flushInterval * Pow2(n);
    if d < t.maxBackoff then d else t.maxBackoff
  }

  const HALF: int := 0x4000_0000_0000_0000  // 2^62

  lemma {:induction false} BackoffDoubles(t: Timings, n: nat)
    requires t.Valid() && (t.maxBackoff < HALF || t.flushInterval == t.maxBackoff)
    ensures DelayAfter(t, n) == Capped(t, n)
  {
    if n > 0 {
      BackoffDoubles(t, n - 1);
      PowPositive(n - 1);
      Scaled(t.flushInterval, n);
    }
  }

  lemma Scaled(f: int, n: nat)
    requires n > 0 && f > 0
    ensures f * Pow2(n) == 2 * (f * Pow2(n - 1)) && f * Pow2(n - 1) >= f
  {
    PowPositive(n - 1);
    assert f * Pow2(n) == f * (2 * Pow2(n - 1));
    assert f * Pow2(n - 1) >= f * 1;
  }

  lemma {:induction false} PowPositive(n: nat)
    ensures Pow2(n) >= 1
  {
    if n > 0 {
      PowPositive(n - 1);
    }
  }

  lemma Pow62()
    ensures Pow2(62) == HALF
  {
    assert Pow2(10) == 1024;
    assert Pow2(20) == 1024 * 1024;
    assert Pow2(30) == 1024 * 1024 * 1024;
    assert Pow2(40) == 1024 * 1024 * 1024 * 1024;
    assert Pow2(50) == 1024 * 1024 * 1024 * 1024 * 1024;
    assert Pow2(60) == 1024 * 1024 * 1024 * 1024 * 1024 * 1024;
  }

  /** After n straight failures the delay is min(maxBackoff, flushInterval * 2^n), for every n, exactly
      when doubling cannot overflow on the way: the maximum is below 2^62 ns, or there is no backing off. */
  lemma BackoffIsCappedDoubling(t: Timings)
    requires t.Valid()
    ensures (forall n: nat :: DelayAfter(t, n) == Capped(t, n))
       <==> t.maxBackoff < HALF || t.flushInterval == t.maxBackoff
  {
    if t.maxBackoff < HALF || t.flushInterval == t.maxBackoff {
      forall n: nat
        ensures DelayAfter(t, n) == Capped(t, n)
      {
        BackoffDoubles(t, n);
      }
    } else {
      Overflows(t);
    }
  }

  /** With a larger maximum the delay is not the capped doubling any more after 62 or 63 failures. */
  lemma Overflows(t: Timings)
    requires t.Valid() && t.maxBackoff >= HALF && t.flushInterval < t.maxBackoff
    ensures DelayAfter(t, 62) != Capped(t, 62) || DelayAfter(t, 63) != Capped(t, 63)
  {
    Pow62();
    assert t.flushInterval * Pow2(62) >= HALF;
    Scaled(t.flushInterval, 63);
    assert Capped(t, 63) == t.maxBackoff;
    if DelayAfter(t, 62) == Capped(t, 62) {
      assert DelayAfter(t, 63) == NextDelay(t, DelayAfter(t, 62), true).0;
      assert Doubled(DelayAfter(t, 62)) < 0;
    }
  }
}
