/** The cumulative release flusher (internal/home/concurrency_release.go): callers mark a group dirty with
    a growing sequence number and get a ticket; a flush sends the latest number of each dirty group and
    closes the tickets the acknowledgement covers.

    A ticket is a number and its channel is closed when the number is in `closed`; closing a closed
    channel would panic, so `Close` requires that it is open. */
module ReleaseFlusher {
  import opened Wrappers
  import opened ByteText

  datatype Group = Group(credentialId: string, model: string)

  datatype State = State(latest: int, acked: int, waiters: map<int, seq<nat>>)

  /** The flusher, and for every ticket handed out the group and sequence it carries. */
  datatype Flusher = Flusher(groups: map<Group, State>, tickets: map<nat, (Group, int)>, next: nat, closed: set<nat>)

  const NO_STATE: State := State(0, 0, map[])

  function StateOf(groups: map<Group, State>, g: Group): State {
    if g in groups then groups[g] else NO_STATE
  }

  function WaitingAt(s: State, n: int): seq<nat> {
    if n in s.waiters then s.waiters[n] else []
  }

  // ---- the invariant -----------------------------------------------------------------------------

  /** Acknowledged up to `acked`, asked for up to `latest`; whoever waits, waits for something between. */
  ghost predicate StateOk(s: State) {
    && 0 <= s.acked <= s.latest
    && forall n | n in s.waiters :: s.acked < n <= s.latest
  }

  ghost predicate NoRepeats(ts: seq<nat>) {
    forall i, j | 0 <= i < j < |ts| :: ts[i] != ts[j]
  }

  /** A list of waiting tickets: each carries this group and sequence, is open, and occurs once. */
  ghost predicate WaitersOk(f: Flusher, g: Group, n: int, ts: seq<nat>) {
    && NoRepeats(ts)
    && forall t | t in ts :: t in f.tickets && f.tickets[t] == (g, n) && t !in f.closed
  }

  ghost predicate GroupOk(f: Flusher, g: Group) {
    g in f.groups && StateOk(f.groups[g])
    && forall n | n in f.groups[g].waiters :: WaitersOk(f, g, n, f.groups[g].waiters[n])
  }

  /** A ticket is closed with its sequence acknowledged, or waits in its group. */
  ghost predicate TicketOk(f: Flusher, t: nat)
    requires t in f.tickets
  {
    var (g, n) := f.tickets[t];
    && t < f.next && g in f.groups
    && (if t in f.closed then n <= f.groups[g].acked
        else n in f.groups[g].waiters && t in f.groups[g].waiters[n])
  }

  ghost predicate Valid(f: Flusher) {
    && (forall g | g in f.groups :: GroupOk(f, g))
    && (forall t | t in f.tickets :: TicketOk(f, t))
    && f.closed <= f.tickets.Keys
  }

  // ---- what the critical sections do -------------------------------------------------------------

  predicate Accepted(g: Group, n: int) {
    n > 0 && g.credentialId != "" && g.model != ""
  }

  function Marked(f: Flusher, g: Group, n: int): Flusher {
    var s := StateOf(f.groups, g);
    var f' := f.(tickets := f.tickets[f.next := (g, n)], next := f.next + 1);
    if n <= s.acked then f'.(closed := f.closed + {f.next})
    else
      f'.(groups := f.groups[g := State(if n > s.latest then n else s.latest, s.acked,
                                        s.waiters[n := WaitingAt(s, n) + [f.next]])])
  }

  /** The tickets of the waiter lists up to `n`. */
  function CoveredIn(waiters: map<int, seq<nat>>, n: int): set<nat> {
    set m, t | m in waiters && m <= n && t in waiters[m] :: t
  }

  function Acknowledged(f: Flusher, g: Group, n: int): Flusher {
    var s := StateOf(f.groups, g);
    if n <= s.acked then f.(groups := f.groups[g := s])
    else
      f.(groups := f.groups[g := State(s.latest, n, map m | m in s.waiters && m > n :: s.waiters[m])],
         closed := f.closed + CoveredIn(s.waiters, n))
  }

  function PendingOf(groups: map<Group, State>): map<Group, int> {
    map g | g in groups && groups[g].latest > groups[g].acked :: groups[g].latest
  }

  predicate IdleGroups(groups: map<Group, State>) {
    forall g | g in groups :: groups[g].latest <= groups[g].acked
  }

  lemma NextIsNew(f: Flusher)
    requires Valid(f)
    ensures f.next !in f.tickets && f.next !in f.closed
  {
    forall t | t in f.tickets
      ensures t != f.next
    {
      assert TicketOk(f, t);
    }
  }

  lemma MarkedKeeps(f: Flusher, g: Group, n: int)
    requires Valid(f) && Accepted(g, n)
    ensures Valid(Marked(f, g, n))
  {
    var f' := Marked(f, g, n);
    var t := f.next;
    NextIsNew(f);
    forall k | k in f'.groups
      ensures GroupOk(f', k)
    {
      if k in f.groups { assert GroupOk(f, k); }
      forall m | m in f'.groups[k].waiters
        ensures WaitersOk(f', k, m, f'.groups[k].waiters[m])
      {
        if k in f.groups && m in f.groups[k].waiters {
          assert WaitersOk(f, k, m, f.groups[k].waiters[m]);
        }
      }
    }
    forall u | u in f'.tickets
      ensures TicketOk(f', u)
    {
      if u != t { assert TicketOk(f, u); }
    }
  }

  lemma AcknowledgedKeeps(f: Flusher, g: Group, n: int)
    requires Valid(f) && g in f.groups && n <= f.groups[g].latest
    ensures Valid(Acknowledged(f, g, n))
    ensures CoveredIn(f.groups[g].waiters, n) !! f.closed
  {
    var f', s := Acknowledged(f, g, n), f.groups[g];
    assert GroupOk(f, g);
    forall t | t in CoveredIn(s.waiters, n)
      ensures t in f.tickets && t !in f.closed && f.tickets[t].0 == g && f.tickets[t].1 <= n
    {
      var m :| m in s.waiters && m <= n && t in s.waiters[m];
      assert WaitersOk(f, g, m, s.waiters[m]);
    }
    forall k | k in f'.groups
      ensures GroupOk(f', k)
    {
      assert GroupOk(f, k);
      forall m | m in f'.groups[k].waiters
        ensures WaitersOk(f', k, m, f'.groups[k].waiters[m])
      {
        assert WaitersOk(f, k, m, f.groups[k].waiters[m]);
      }
    }
    forall t | t in f'.tickets
      ensures TicketOk(f', t)
    {
      assert TicketOk(f, t);
    }
  }

  /** An acknowledged number closes the tickets of its group up to it, and no other. */
  lemma AcknowledgedCloses(f: Flusher, g: Group, n: int)
    requires Valid(f) && g in f.groups && n <= f.groups[g].latest
    ensures forall t | t in f.tickets ::
              t in Acknowledged(f, g, n).closed <==> t in f.closed || (f.tickets[t].0 == g && f.tickets[t].1 <= n)
  {
    var waiters := f.groups[g].waiters;
    assert GroupOk(f, g);
    forall t | t in f.tickets
      ensures t in Acknowledged(f, g, n).closed <==> t in f.closed || (f.tickets[t].0 == g && f.tickets[t].1 <= n)
    {
      assert TicketOk(f, t);
      if t in CoveredIn(waiters, n) {
        var m :| m in waiters && m <= n && t in waiters[m];
        assert WaitersOk(f, g, m, waiters[m]);
      }
    }
  }

  /** Whoever waits is heard: the snapshot of a flush names the group of every open ticket, with a number that
      answers it. */
  lemma OpenIsPending(f: Flusher, t: nat)
    requires Valid(f) && t in f.tickets && t !in f.closed
    ensures var (g, n) := f.tickets[t]; g in PendingOf(f.groups) && PendingOf(f.groups)[g] >= n
  {
    assert TicketOk(f, t);
    assert GroupOk(f, f.tickets[t].0);
  }

  /** An idle flusher keeps nobody waiting: every ticket ever handed out is closed. */
  lemma IdleClosesAll(f: Flusher)
    requires Valid(f) && IdleGroups(f.groups)
    ensures f.closed == f.tickets.Keys
    ensures forall g | g in f.groups :: f.groups[g].waiters == map[]
  {
    forall g | g in f.groups
      ensures f.groups[g].waiters == map[]
    {
      assert GroupOk(f, g);
      assert forall n :: n !in f.groups[g].waiters;
    }
    forall t | t in f.tickets
      ensures t in f.closed
    {
      assert TicketOk(f, t);
    }
  }

  // ---- the source's form -------------------------------------------------------------------------

  class ReleaseFlusher {
    var groups: map<Group, State>
    var next: nat
    var closed: set<nat>
    ghost var tickets: map<nat, (Group, int)>

    ghost function View(): Flusher
      reads this
    {
      Flusher(groups, tickets, next, closed)
    }

    constructor ()
      ensures Valid(View()) && View() == Flusher(map[], map[], 0, {})
    {
      groups, next, closed, tickets := map[], 0, {}, map[];
    }

    /** `close(done)`. */
    method Close(t: nat)
      requires t !in closed
      modifies this`closed
      ensures closed == old(closed) + {t}
    {
      closed := closed + {t};
    }

    /** `MarkDirty`; no ticket for a number that is not positive or a blank group. */
    method MarkDirty(g: Group, n: int) returns (ticket: Option<nat>)
      requires Valid(View())
      modifies this
      ensures Valid(View())
      ensures ticket.Some? <==> n > 0 && g.credentialId != "" && g.model != ""
      ensures ticket.None? ==> View() == old(View())
      ensures ticket.Some? ==>
                var t, s := ticket.value, StateOf(old(groups), g);
                && t !in old(tickets) && tickets == old(tickets)[t := (g, n)]
                && closed == old(closed) + (if n <= s.acked then {t} else {})
                && (n > s.acked ==> groups.Keys == old(groups).Keys + {g} && groups[g].acked == s.acked
                                    && groups[g].latest == if n > s.latest then n else s.latest)
                && (forall k | k in old(groups) && (k != g || n <= s.acked) ::
                      k in groups && groups[k] == old(groups)[k])
                && View() == Marked(old(View()), g, n)
    {
      if n <= 0 || g.credentialId == "" || g.model == "" {
        return None;
      }
      MarkedKeeps(View(), g, n);
      NextIsNew(View());
      var done := next;
      next := next + 1;
      tickets := tickets[done := (g, n)];
      var state := StateOf(groups, g);
      if n <= state.acked {
        Close(done);
      } else {
        var waiters := state.waiters[n := WaitingAt(state, n) + [done]];
        var latest := if n > state.latest then n else state.latest;
        groups := groups[g := State(latest, state.acked, waiters)];
      }
      return Some(done);
    }

    /** The first critical section of `flush`. */
    method Pending() returns (pending: map<Group, int>)
      ensures pending == PendingOf(groups)
    {
      pending := map[];
      var rest := groups.Keys;
      while rest != {}
        invariant rest <= groups.Keys
        invariant pending == map g | g in groups && g !in rest && groups[g].latest > groups[g].acked :: groups[g].latest
        decreases |rest|
      {
        var g :| g in rest;
        var state := groups[g];
        if state.latest > state.acked {
          pending := pending[g := state.latest];
        }
        rest := rest - {g};
      }
    }

    /** `close` for every channel of one waiter list. */
    method CloseAll(ts: seq<nat>)
      requires NoRepeats(ts) && forall t | t in ts :: t !in closed
      modifies this`closed
      ensures closed == old(closed) + set t | t in ts
    {
      for i := 0 to |ts|
        invariant closed == old(closed) + set t | t in ts[..i]
      {
        assert ts[..i + 1] == ts[..i] + [ts[i]];
        assert ts[i] in ts;
        Close(ts[i]);
      }
      assert ts[..|ts|] == ts;
    }

    /** The loop over the waiter lists: close the covered ones, keep the others. */
    method CloseCovered(waiters: map<int, seq<nat>>, n: int) returns (left: map<int, seq<nat>>)
      requires AllOpen(waiters, closed)
      modifies this`closed
      ensures left == map m | m in waiters && m > n :: waiters[m]
      ensures closed == old(closed) + CoveredIn(waiters, n)
    {
      left := waiters;
      var rest := waiters.Keys;
      ghost var before := closed;
      CoveredStart(waiters, n, before);
      while rest != {}
        invariant ClosedSoFar(waiters, n, rest, left, before, closed)
        decreases |rest|
      {
        assert (forall m :: m !in rest) ==> rest == {};
        var m :| m in rest;
        hide ClosedSoFar, AllOpen;
        StillOpen(waiters, n, rest, left, before, closed, m);
        if m <= n {
          CloseAll(waiters[m]);
          left := left - {m};
        }
        rest := rest - {m};
      }
      CoveredEnd(waiters, n, left, before, closed);
    }

    /** The critical section after a successful send. */
    method Acknowledge(g: Group, n: int)
      requires Valid(View()) && g in groups && n <= groups[g].latest
      modifies this`groups, this`closed
      ensures Valid(View()) && View() == Acknowledged(old(View()), g, n)
      ensures forall t | t in tickets ::
                t in closed <==> t in old(closed) || (tickets[t].0 == g && tickets[t].1 <= n)
      ensures groups[g].latest == old(groups)[g].latest
      ensures groups[g].acked == if n > old(groups)[g].acked then n else old(groups)[g].acked
    {
      AcknowledgedKeeps(View(), g, n);
      AcknowledgedCloses(View(), g, n);
      GroupIsOpen(View(), g);
      var state := groups[g];
      if n > state.acked {
        var waiters := CloseCovered(state.waiters, n);
        state := State(state.latest, n, waiters);
      }
      groups := groups[g := state];
    }

    /** `flush` with nobody interfering: `send` says for which groups the send succeeds, once a sender is set. */
    method Flush(send: Option<Group -> bool>) returns (failed: bool)
      requires Valid(View())
      modifies this`groups, this`closed
      ensures Valid(View()) && groups.Keys == old(groups).Keys
      ensures send.None? ==> View() == old(View()) && !failed
      ensures send.Some? ==> forall g | g in groups ::
                && groups[g].latest == old(groups)[g].latest
                && groups[g].acked == if send.value(g) then groups[g].latest else old(groups)[g].acked
      ensures send.Some? ==> (failed <==> exists g | g in PendingOf(old(groups)) :: !send.value(g))
    {
      var pending := Pending();
      if send.None? {
        return false;
      }
      var accepts := send.value;
      var rest := pending.Keys;
      failed := false;
      ghost var before := groups;
      FlushStart(View(), pending, accepts);
      while rest != {}
        invariant Valid(View()) && FlushedSoFar(before, groups, pending, rest, accepts, failed)
        decreases |rest|
      {
        var g :| g in rest;
        FlushNext(before, groups, pending, rest, accepts, failed, g);
        hide Valid, FlushedSoFar;
        if accepts(g) {
          Acknowledge(g, pending[g]);
        } else {
          failed := true;
        }
        rest := rest - {g};
      }
      FlushEnd(before, groups, pending, accepts, failed);
    }

    /** `idle`. */
    method Idle() returns (idle: bool)
      ensures idle <==> forall g | g in groups :: groups[g].latest <= groups[g].acked
    {
      var rest := groups.Keys;
      while rest != {}
        invariant rest <= groups.Keys
        invariant forall g | g in groups && g !in rest :: groups[g].latest <= groups[g].acked
        decreases |rest|
      {
        var g :| g in rest;
        if groups[g].latest > groups[g].acked {
          return false;
        }
        rest := rest - {g};
      }
      return true;
    }
  }

  /** The pending groups outside `rest` have been sent; the accepted ones are acknowledged. */
  ghost predicate FlushedSoFar(before: map<Group, State>, groups: map<Group, State>, pending: map<Group, int>,
                               rest: set<Group>, accepts: Group -> bool, failed: bool) {
    && pending == PendingOf(before) && rest <= pending.Keys && groups.Keys == before.Keys
    && (forall g | g in before :: before[g].acked <= before[g].latest)
    && (forall g | g in groups ::
          && groups[g].latest == before[g].latest
          && groups[g].acked == if g in pending && g !in rest && accepts(g) then pending[g] else before[g].acked)
    && (failed <==> exists g | g in pending && g !in rest :: !accepts(g))
  }

  lemma FlushStart(f: Flusher, pending: map<Group, int>, accepts: Group -> bool)
    requires Valid(f) && pending == PendingOf(f.groups)
    ensures FlushedSoFar(f.groups, f.groups, pending, pending.Keys, accepts, false)
  {
    forall g | g in f.groups
      ensures f.groups[g].acked <= f.groups[g].latest
    {
      assert GroupOk(f, g);
    }
  }

  lemma FlushNext(before: map<Group, State>, groups: map<Group, State>, pending: map<Group, int>, rest: set<Group>,
                  accepts: Group -> bool, failed: bool, g: Group)
    requires FlushedSoFar(before, groups, pending, rest, accepts, failed) && g in rest
    ensures g in pending && g in groups && pending[g] <= groups[g].latest
    ensures forall f: Flusher | f.groups == groups :: accepts(g) ==>
              FlushedSoFar(before, Acknowledged(f, g, pending[g]).groups, pending, rest - {g}, accepts, failed)
    ensures !accepts(g) ==> FlushedSoFar(before, groups, pending, rest - {g}, accepts, true)
  {
    assert pending[g] == before[g].latest && groups[g].acked == before[g].acked;
  }

  lemma FlushEnd(before: map<Group, State>, groups: map<Group, State>, pending: map<Group, int>,
                 accepts: Group -> bool, failed: bool)
    requires FlushedSoFar(before, groups, pending, {}, accepts, failed)
    ensures groups.Keys == before.Keys
    ensures forall g | g in groups ::
              && groups[g].latest == before[g].latest
              && groups[g].acked == if accepts(g) then groups[g].latest else before[g].acked
    ensures failed <==> exists g | g in PendingOf(before) :: !accepts(g)
  {
  }

  /** All listed tickets are open, and no ticket is listed twice. */
  ghost predicate AllOpen(waiters: map<int, seq<nat>>, closed: set<nat>) {
    && (forall m | m in waiters :: NoRepeats(waiters[m]) && forall t | t in waiters[m] :: t !in closed)
    && (forall m, m', t | m in waiters && m' in waiters && t in waiters[m] && t in waiters[m'] :: m == m')
  }

  lemma GroupIsOpen(f: Flusher, g: Group)
    requires g in f.groups && GroupOk(f, g)
    ensures AllOpen(f.groups[g].waiters, f.closed)
  {
    var waiters := f.groups[g].waiters;
    forall m | m in waiters
      ensures WaitersOk(f, g, m, waiters[m])
    {
    }
  }

  /** The lists outside `rest` have been visited: those up to `n` are closed and no longer kept. */
  ghost predicate ClosedSoFar(waiters: map<int, seq<nat>>, n: int, rest: set<int>, left: map<int, seq<nat>>,
                              before: set<nat>, closed: set<nat>) {
    && rest <= waiters.Keys
    && left == (map m | m in waiters && (m in rest || m > n) :: waiters[m])
    && (forall t :: t in closed <==>
          t in before || exists m :: m in waiters && m !in rest && m <= n && t in waiters[m])
    && AllOpen(waiters, before)
  }

  lemma CoveredStart(waiters: map<int, seq<nat>>, n: int, before: set<nat>)
    requires AllOpen(waiters, before)
    ensures ClosedSoFar(waiters, n, waiters.Keys, waiters, before, before)
  {
  }

  lemma CoveredEnd(waiters: map<int, seq<nat>>, n: int, left: map<int, seq<nat>>, before: set<nat>, closed: set<nat>)
    requires ClosedSoFar(waiters, n, {}, left, before, closed)
    ensures left == map m | m in waiters && m > n :: waiters[m]
    ensures closed == before + CoveredIn(waiters, n)
  {
  }

  /** The next list is open, and visiting it keeps the loop's invariant. */
  lemma StillOpen(waiters: map<int, seq<nat>>, n: int, rest: set<int>, left: map<int, seq<nat>>, before: set<nat>,
                  closed: set<nat>, m: int)
    requires ClosedSoFar(waiters, n, rest, left, before, closed) && m in rest
    ensures m in waiters && NoRepeats(waiters[m]) && forall t | t in waiters[m] :: t !in closed
    ensures m > n ==> ClosedSoFar(waiters, n, rest - {m}, left, before, closed)
    ensures m <= n ==>
              ClosedSoFar(waiters, n, rest - {m}, left - {m}, before, closed + set t | t in waiters[m])
  {
    if m <= n {
      var closed' := closed + set t | t in waiters[m];
      forall t
        ensures t in closed' <==>
                t in before || exists k :: k in waiters && k !in rest - {m} && k <= n && t in waiters[k]
      {
        if t in waiters[m] {
          assert m in waiters && m !in rest - {m} && m <= n;
        }
      }
    }
  }
}
