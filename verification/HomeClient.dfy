/** The lifetime of the Home client (internal/home/client.go): who may install redis clients and register
    connections, and how `Close` and `AbortAmbiguousDispatch` end it.

    The fence flag is an atomic: it is stored before the closing critical section and read both before
    and inside every installing critical section. Redis clients and connections are numbers. */
module HomeClient {
  import opened Wrappers
  import opened ByteText

  /** The fields the lock guards, with the fence flag, and what has become of everything ever created:
      which redis clients and connections were handed over for closing, which connections removed
      themselves, which were refused. */
  datatype State = State(cmd: Option<nat>, sub: Option<nat>, release: Option<nat>, connections: set<nat>, fenced: bool,
                         next: nat, handedClients: set<nat>, handedConns: set<nat>, removedConns: set<nat>,
                         refusedConns: set<nat>)

  const NEW_CLIENT: State := State(None, None, None, {}, false, 0, {}, {}, {}, {})

  function Held(o: Option<nat>): set<nat> {
    if o.Some? then {o.value} else {}
  }

  /** Every client created is installed or was handed over; every registered connection is still
      registered, was handed over, or removed itself: exactly one of these. */
  ghost predicate Accounted(s: State) {
    && (s.cmd.Some? && s.sub.Some? ==> s.cmd != s.sub)
    && (s.cmd.Some? && s.release.Some? ==> s.cmd != s.release)
    && (s.sub.Some? && s.release.Some? ==> s.sub != s.release)
    && InUse(s, s.cmd) && InUse(s, s.sub) && InUse(s, s.release)
    && s.connections !! s.handedConns !! s.removedConns !! s.refusedConns
    && (forall c | c in s.handedClients :: c < s.next)
    && (forall c | c in s.connections :: c < s.next)
    && (forall c | c in s.handedConns :: c < s.next)
    && (forall c | c in s.removedConns :: c < s.next)
    && (forall c | c in s.refusedConns :: c < s.next)
  }

  /** A connection that was dialed and that the client has not seen yet. */
  predicate Unseen(s: State, conn: nat) {
    && conn < s.next && conn !in s.connections && conn !in s.handedConns
    && conn !in s.removedConns && conn !in s.refusedConns
  }

  /** An installed client was created and not handed over. */
  predicate InUse(s: State, client: Option<nat>) {
    client.Some? ==> client.value < s.next && client.value !in s.handedClients
  }

  function Clients(s: State): set<nat> {
    Held(s.cmd) + Held(s.sub) + Held(s.release) + s.handedClients
  }

  function Conns(s: State): set<nat> {
    s.connections + s.handedConns + s.removedConns
  }

  // ---- the critical sections ---------------------------------------------------------------------

  /** `detachClientsLocked`: command and subscription client and all connections are taken out. */
  function Detached(s: State): State {
    s.(cmd := None, sub := None, connections := {}, handedClients := s.handedClients + Held(s.cmd) + Held(s.sub),
       handedConns := s.handedConns + s.connections)
  }

  /** The critical section of `Close`, `AbortAmbiguousDispatch` and `closeClientsLocked`. */
  function Sealed(s: State): State {
    Detached(s).(release := None, handedClients := Detached(s).handedClients + Held(s.release))
  }

  /** `ensureClients` under the lock: `cmdOk` and `subOk` say whether the options could be built. */
  function Ensured(s: State, cmdOk: bool, subOk: bool): State {
    if s.fenced || (s.cmd.None? && !cmdOk) then s
    else
      var s1 := if s.cmd.None? then s.(cmd := Some(s.next), next := s.next + 1) else s;
      if s1.sub.None? && subOk then s1.(sub := Some(s1.next), next := s1.next + 1) else s1
  }

  /** The dialer's critical section, for a connection just dialed. */
  function Registered(s: State, conn: nat): State {
    if s.fenced then s.(refusedConns := s.refusedConns + {conn}) else s.(connections := s.connections + {conn})
  }

  /** A connection's own Close takes it off the list, if it is still there. */
  function ConnClosed(s: State, conn: nat): State {
    if conn in s.connections
    then s.(connections := s.connections - {conn}, removedConns := s.removedConns + {conn})
    else s
  }

  /** `concurrencyReleaseClient` under the lock: `stable` is the recovery state it reads. */
  function ReleaseEnsured(s: State, stable: bool, ok: bool): State {
    if s.fenced || !stable || s.release.Some? || !ok then s else s.(release := Some(s.next), next := s.next + 1)
  }

  /** `promoteSubscription` drops the bootstrap command client. */
  function Promoted(s: State): State {
    s.(cmd := None, handedClients := s.handedClients + Held(s.cmd))
  }

  // ---- the source's form -------------------------------------------------------------------------

  class Client {
    var cmd: Option<nat>
    var sub: Option<nat>
    var release: Option<nat>
    var connections: set<nat>
    var dispatchFenced: bool
    var next: nat
    ghost var handedClients: set<nat>
    ghost var handedConns: set<nat>
    ghost var removedConns: set<nat>
    ghost var refusedConns: set<nat>

    ghost function View(): State
      reads this
    {
      State(cmd, sub, release, connections, dispatchFenced, next, handedClients, handedConns, removedConns,
            refusedConns)
    }

    constructor ()
      ensures View() == NEW_CLIENT
    {
      cmd, sub, release, connections, dispatchFenced, next := None, None, None, {}, false, 0;
      handedClients, handedConns, removedConns, refusedConns := {}, {}, {}, {};
    }

    method DetachClientsLocked() returns (command: Option<nat>, subscription: Option<nat>, conns: set<nat>)
      modifies this
      ensures View() == Detached(old(View()))
      ensures command == old(cmd) && subscription == old(sub) && conns == old(connections)
      ensures cmd == sub == None && connections == {} && unchanged(`release, `dispatchFenced, `next)
    {
      command, subscription, conns := cmd, sub, connections;
      cmd, sub, connections := None, None, {};
      handedClients := handedClients + Held(command) + Held(subscription);
      handedConns := handedConns + conns;
    }

    /** `Close`, up to the closing of what was detached. */
    method Close() returns (clients: set<nat>, conns: set<nat>)
      modifies this
      ensures View() == Sealed(old(View()).(fenced := true))
      ensures forall c :: c in clients <==> Some(c) in {old(cmd), old(sub), old(release)}
      ensures conns == old(connections)
      ensures cmd == sub == release == None && connections == {} && dispatchFenced
    {
      dispatchFenced := true;
      var command, subscription;
      command, subscription, conns := DetachClientsLocked();
      var releaseClient := release;
      release := None;
      handedClients := handedClients + Held(releaseClient);
      clients := Held(command) + Held(subscription) + Held(releaseClient);
    }

    /** `ensureClients`; false stands for its errors. */
    method EnsureClients(cmdOk: bool, subOk: bool) returns (ok: bool)
      modifies this
      ensures View() == Ensured(old(View()), cmdOk, subOk)
      ensures ok ==> cmd.Some? && sub.Some? && !dispatchFenced
      ensures ok == (!old(dispatchFenced) && (old(cmd).Some? || cmdOk) && (old(sub).Some? || subOk))
      ensures old(dispatchFenced) ==> unchanged(this)
      ensures (old(cmd).Some? ==> cmd == old(cmd)) && (old(sub).Some? ==> sub == old(sub))
    {
      if dispatchFenced {
        return false;
      }
      if cmd.None? {
        if !cmdOk {
          return false;
        }
        cmd := Some(next);
        next := next + 1;
      }
      if sub.None? {
        if !subOk {
          return false;
        }
        sub := Some(next);
        next := next + 1;
      }
      return true;
    }

    /** The tracked dialer, after a successful dial; false when the connection is refused and closed. */
    method Register(conn: nat) returns (ok: bool)
      modifies this
      ensures View() == Registered(old(View()), conn) && ok == !old(dispatchFenced)
      ensures connections == if ok then old(connections) + {conn} else old(connections)
      ensures unchanged(`cmd, `sub, `release, `dispatchFenced)
    {
      if dispatchFenced {
        refusedConns := refusedConns + {conn};
        return false;
      }
      connections := connections + {conn};
      return true;
    }

    method ConnClose(conn: nat)
      modifies this
      ensures View() == ConnClosed(old(View()), conn)
      ensures connections == old(connections) - {conn} && unchanged(`cmd, `sub, `release, `dispatchFenced)
    {
      if conn in connections {
        removedConns := removedConns + {conn};
        connections := connections - {conn};
      }
    }

    method ReleaseClient(stable: bool, addressOk: bool) returns (client: Option<nat>)
      modifies this
      ensures View() == ReleaseEnsured(old(View()), stable, addressOk)
      ensures client == if old(dispatchFenced) || !stable then None else release
      ensures old(release).Some? || old(dispatchFenced) || !stable || !addressOk ==> unchanged(this)
      ensures old(release).None? && !old(dispatchFenced) && stable && addressOk ==> release == Some(old(next))
      ensures unchanged(`cmd, `sub, `connections, `dispatchFenced)
    {
      if dispatchFenced || !stable {
        return None;
      }
      if release.None? && addressOk {
        release := Some(next);
        next := next + 1;
      }
      return release;
    }
  }

  // ---- interleavings -----------------------------------------------------------------------------

  /** Where a goroutine stands between two atomic steps. */
  datatype Step =
    | CheckedEnsure           // ensureClients has read the fence, outside the lock, and found it down
    | Dialed(conn: nat)       // the dialer has a connection and has not taken the lock yet
    | CheckedRelease          // concurrencyReleaseClient has read the fence and found it down
    | RaisedFence             // Close or AbortAmbiguousDispatch has stored the fence

  /** `ended`: the critical section of some Close or Abort has run. */
  datatype World = World(s: State, at: map<nat, Step>, ended: bool)

  const START: World := World(NEW_CLIENT, map[], false)

  datatype Event =
    | BeginEnsure(t: nat)
    | FinishEnsure(t: nat, cmdOk: bool, subOk: bool)
    | Dial(t: nat)
    | FinishDial(t: nat)
    | BeginRelease(t: nat)
    | FinishRelease(t: nat, stable: bool, ok: bool)
    | BeginClose(t: nat)
    | FinishClose(t: nat)
    | CloseConn(conn: nat)
    | CloseBootstrapPools
    | SwitchNode
    | PromoteSubscription

  predicate Enabled(w: World, e: Event) {
    match e
    case BeginEnsure(t) => t !in w.at
    case Dial(t) => t !in w.at
    case BeginRelease(t) => t !in w.at
    case BeginClose(t) => t !in w.at
    case FinishEnsure(t, _, _) => t in w.at && w.at[t].CheckedEnsure?
    case FinishDial(t) => t in w.at && w.at[t].Dialed?
    case FinishRelease(t, _, _) => t in w.at && w.at[t].CheckedRelease?
    case FinishClose(t) => t in w.at && w.at[t].RaisedFence?
    case _ => true
  }

  function Next(w: World, e: Event): World
    requires Enabled(w, e)
  {
    match e
    case BeginEnsure(t) => if w.s.fenced then w else w.(at := w.at[t := CheckedEnsure])
    case FinishEnsure(t, cmdOk, subOk) => World(Ensured(w.s, cmdOk, subOk), w.at - {t}, w.ended)
    case Dial(t) => World(w.s.(next := w.s.next + 1), w.at[t := Dialed(w.s.next)], w.ended)
    case FinishDial(t) => World(Registered(w.s, w.at[t].conn), w.at - {t}, w.ended)
    case BeginRelease(t) => if w.s.fenced then w else w.(at := w.at[t := CheckedRelease])
    case FinishRelease(t, stable, ok) => World(ReleaseEnsured(w.s, stable, ok), w.at - {t}, w.ended)
    case BeginClose(t) => World(w.s.(fenced := true), w.at[t := RaisedFence], w.ended)
    case FinishClose(t) => World(Sealed(w.s), w.at - {t}, true)
    case CloseConn(conn) => w.(s := ConnClosed(w.s, conn))
    case CloseBootstrapPools => w.(s := Detached(w.s))
    case SwitchNode => w.(s := Sealed(w.s))
    case PromoteSubscription => w.(s := Promoted(w.s))
  }

  ghost predicate DialedOk(w: World, t: nat)
    requires t in w.at
  {
    w.at[t].Dialed? ==>
      var conn := w.at[t].conn;
      && Unseen(w.s, conn)
      && forall u | u in w.at && u != t && w.at[u].Dialed? :: w.at[u].conn != conn
  }

  /** Nothing is installed and nothing is registered. */
  ghost predicate Empty(s: State) {
    s.cmd == None && s.sub == None && s.release == None && s.connections == {}
  }

  ghost predicate Inv(w: World) {
    && Accounted(w.s)
    && (forall t | t in w.at :: w.at[t].RaisedFence? ==> w.s.fenced)
    && (forall t | t in w.at :: DialedOk(w, t))
    && (w.ended ==> w.s.fenced && Empty(w.s))
  }

  lemma InstallingKeeps(s: State, cmdOk: bool, subOk: bool, stable: bool, ok: bool)
    requires Accounted(s)
    ensures Accounted(Ensured(s, cmdOk, subOk)) && Accounted(ReleaseEnsured(s, stable, ok))
  {
  }

  lemma RegisteredKeeps(s: State, conn: nat)
    requires Accounted(s) && Unseen(s, conn)
    ensures Accounted(Registered(s, conn))
  {
  }

  lemma RemovingKeeps(s: State, conn: nat)
    requires Accounted(s)
    ensures Accounted(Detached(s)) && Accounted(Sealed(s)) && Accounted(ConnClosed(s, conn)) && Accounted(Promoted(s))
  {
  }

  lemma AccountedKeeps(w: World, e: Event)
    requires Inv(w) && Enabled(w, e)
    ensures Accounted(Next(w, e).s)
  {
    match e
    case FinishEnsure(_, cmdOk, subOk) => InstallingKeeps(w.s, cmdOk, subOk, true, true);
    case FinishRelease(_, stable, ok) => InstallingKeeps(w.s, true, true, stable, ok);
    case FinishDial(t) =>
      assert DialedOk(w, t);
      RegisteredKeeps(w.s, w.at[t].conn);
    case CloseConn(conn) => RemovingKeeps(w.s, conn);
    case FinishClose(_) => RemovingKeeps(w.s, 0);
    case CloseBootstrapPools => RemovingKeeps(w.s, 0);
    case SwitchNode => RemovingKeeps(w.s, 0);
    case PromoteSubscription => RemovingKeeps(w.s, 0);
    case _ =>
  }

  /** A dialed connection stays unknown to the client until its own dialer registers it. */
  lemma DialedKeeps(w: World, e: Event, t: nat)
    requires Inv(w) && Enabled(w, e) && t in Next(w, e).at
    ensures DialedOk(Next(w, e), t)
  {
    if t in w.at { assert DialedOk(w, t); }
    match e
    case FinishDial(u) => assert DialedOk(w, u);
    case Dial(u) =>
      assert forall v | v in w.at :: DialedOk(w, v);
    case _ =>
  }

  lemma NextKeeps(w: World, e: Event)
    requires Inv(w) && Enabled(w, e)
    ensures Inv(Next(w, e))
  {
    AccountedKeeps(w, e);
    forall t | t in Next(w, e).at
      ensures DialedOk(Next(w, e), t)
    {
      DialedKeeps(w, e, t);
    }
    hide Accounted, DialedOk;
  }

  /** A step never brings anything back: what was handed over, removed or refused stays so, and after the
      end no client and no connection is added. */
  lemma NextForgetsNothing(w: World, e: Event)
    requires Inv(w) && Enabled(w, e)
    ensures var s, s' := w.s, Next(w, e).s;
            && Clients(s) <= Clients(s') && Conns(s) <= Conns(s')
            && s.handedClients <= s'.handedClients && s.handedConns <= s'.handedConns
            && s.removedConns <= s'.removedConns && s.refusedConns <= s'.refusedConns
            && (w.ended ==> Next(w, e).ended && Clients(s') == Clients(s) && Conns(s') == Conns(s))
  {
  }

  ghost predicate Possible(w: World, es: seq<Event>)
    decreases |es|
  {
    es != [] ==> Enabled(w, es[0]) && Possible(Next(w, es[0]), es[1..])
  }

  ghost function After(w: World, es: seq<Event>): World
    requires Possible(w, es)
    decreases |es|
  {
    if es == [] then w else After(Next(w, es[0]), es[1..])
  }

  lemma {:induction false} RunKeeps(w: World, es: seq<Event>)
    requires Inv(w) && Possible(w, es)
    ensures Inv(After(w, es))
    ensures w.ended ==>
              After(w, es).ended && Clients(After(w, es).s) == Clients(w.s) && Conns(After(w, es).s) == Conns(w.s)
    decreases |es|
  {
    if es != [] {
      NextKeeps(w, es[0]);
      NextForgetsNothing(w, es[0]);
      hide Inv, Enabled, Clients, Conns;
      RunKeeps(Next(w, es[0]), es[1..]);
    }
  }

  /** In every interleaving, once the critical section of a Close or Abort has run, no later step installs a
      redis client or registers a connection; every client created before was handed over for closing, and
      every connection registered before was handed over or had removed itself. */
  lemma NothingAfterTheEnd(es: seq<Event>, later: seq<Event>)
    requires Possible(START, es) && After(START, es).ended && Possible(After(START, es), later)
    ensures var w, w' := After(START, es), After(After(START, es), later);
            && Empty(w'.s)
            && Clients(w'.s) == Clients(w.s) && Conns(w'.s) == Conns(w.s)
            && Clients(w.s) == w.s.handedClients
            && Conns(w.s) == w.s.handedConns + w.s.removedConns && w.s.handedConns !! w.s.removedConns
  {
    RunKeeps(START, es);
    RunKeeps(After(START, es), later);
  }

  // ---- from one step to the end ------------------------------------------------------------------------

  /** Where a registered connection is, if nobody but its own user may close it before the end. */
  ghost predicate Tracked(w: World, conn: nat) {
    (conn in w.s.connections || conn in w.s.handedConns || conn in w.s.removedConns) &&
    (w.ended ==> conn !in w.s.connections)
  }

  lemma {:induction false} StaysTracked(w: World, es: seq<Event>, conn: nat)
    requires Inv(w) && Possible(w, es) && Tracked(w, conn)
    ensures Inv(After(w, es)) && Tracked(After(w, es), conn)
    ensures conn in After(w, es).s.removedConns ==> conn in w.s.removedConns || CloseConn(conn) in es
    decreases |es|
  {
    if es != [] {
      NextKeeps(w, es[0]);
      StaysTracked(Next(w, es[0]), es[1..], conn);
    }
  }

  lemma {:induction false} StaysRefused(w: World, es: seq<Event>, conn: nat)
    requires Inv(w) && Possible(w, es) && conn in w.s.refusedConns
    ensures conn in After(w, es).s.refusedConns
    ensures var s := After(w, es).s; conn !in s.connections && conn !in s.handedConns && conn !in s.removedConns
    decreases |es|
  {
    if es != [] {
      NextKeeps(w, es[0]);
      StaysRefused(Next(w, es[0]), es[1..], conn);
    }
  }

  /** In every interleaving, a connection whose dialer takes the lock while the fence is down is on the list, handed
      over for closing, or closed by its own user from then on, and after the end one of the last two; one whose
      dialer finds the fence up is refused for good. */
  lemma DialedIsTracked(es: seq<Event>, t: nat, later: seq<Event>)
    requires Possible(START, es) && Enabled(After(START, es), FinishDial(t))
    requires Possible(Next(After(START, es), FinishDial(t)), later)
    ensures var w, w' := After(START, es), After(Next(After(START, es), FinishDial(t)), later);
            var conn := w.at[t].conn;
            && (!w.s.fenced && !w'.ended ==>
                  conn in w'.s.connections || conn in w'.s.handedConns || conn in w'.s.removedConns)
            && (!w.s.fenced && w'.ended ==> conn in w'.s.handedConns || conn in w'.s.removedConns)
            && (!w.s.fenced && conn in w'.s.removedConns ==> CloseConn(conn) in later)
            && (w.s.fenced ==> conn in w'.s.refusedConns && conn !in w'.s.connections)
  {
    var w := After(START, es);
    var conn, w1 := w.at[t].conn, Next(w, FinishDial(t));
    RunKeeps(START, es);
    NextKeeps(w, FinishDial(t));
    assert DialedOk(w, t);
    if w.s.fenced {
      StaysRefused(w1, later, conn);
    } else {
      StaysTracked(w1, later, conn);
    }
  }

  /** Somebody holds this client, or it was handed over for closing. */
  ghost predicate Kept(s: State, client: nat) {
    Some(client) in {s.cmd, s.sub, s.release} || client in s.handedClients
  }

  lemma {:induction false} StaysKept(w: World, es: seq<Event>, client: nat)
    requires Inv(w) && Possible(w, es) && Kept(w.s, client)
    ensures Inv(After(w, es)) && Kept(After(w, es).s, client)
    ensures After(w, es).ended ==> client in After(w, es).s.handedClients
    decreases |es|
  {
    if es != [] {
      NextKeeps(w, es[0]);
      NextForgetsNothing(w, es[0]);
      StaysKept(Next(w, es[0]), es[1..], client);
    }
  }

  /** `s'` has this client: the one that was there, or one that never was. */
  ghost predicate Installed(before: Option<nat>, now: Option<nat>, s: State) {
    now.Some? && if before.Some? then now == before else now.value >= s.next
  }

  /** In every interleaving, a step that is to install clients and may leaves each of them there, one that was there
      before the same, and otherwise changes nothing; and what it leaves is handed over for closing by the end. */
  lemma InstalledIsHandedOver(es: seq<Event>, e: Event, later: seq<Event>, client: nat)
    requires Possible(START, es) && Enabled(After(START, es), e) && (e.FinishEnsure? || e.FinishRelease?)
    requires Possible(Next(After(START, es), e), later)
    ensures var s, s1, w' := After(START, es).s, Next(After(START, es), e).s, After(Next(After(START, es), e), later);
            && (s.fenced ==> s1 == s)
            && (e.FinishEnsure? && !s.fenced && (s.cmd.Some? || e.cmdOk) && (s.sub.Some? || e.subOk) ==>
                  && Installed(s.cmd, s1.cmd, s) && Installed(s.sub, s1.sub, s)
                  && s1.cmd != s1.sub && s1.release == s.release)
            && (e.FinishRelease? && !s.fenced && e.stable && (s.release.Some? || e.ok) ==>
                  Installed(s.release, s1.release, s) && s1.cmd == s.cmd && s1.sub == s.sub)
            && (e.FinishRelease? && !e.stable ==> s1 == s)
            && (Some(client) in {s1.cmd, s1.sub, s1.release} && w'.ended ==> client in w'.s.handedClients)
  {
    var w := After(START, es);
    RunKeeps(START, es);
    NextKeeps(w, e);
    if Some(client) in {Next(w, e).s.cmd, Next(w, e).s.sub, Next(w, e).s.release} {
      StaysKept(Next(w, e), later, client);
    }
  }
}
