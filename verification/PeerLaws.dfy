/** What the peer state machine does for a session: which events carry a peer
    upwards, that they suffice, and what each event means in every state. */
module PeerLaws {
  import opened Lists
  import opened PeerFsm

  // ------------------------------------------------------ the table by events

  /** The action an event asks for, said per event instead of per state. */
  function ActionFor(e: Event, s: Status): Action
  {
    if s == Deleted then Ignore else
      match e
      case BgpStart => if s == Idle then Start else Ignore
      case BgpStop => Stop
      case BgpStopWithError => if s == Idle then Ignore else StopWithError
      case TcpOpen => if s == Connect || s == Active then ConnectSuccess else Stop
      case TcpClosed => Stop
      case TcpOpenFailed => if s == Idle || s == Active then Ignore else if s == Connect then ConnectFail else Stop
      case TcpFatal => if s == Active then Ignore else if s == Connect then ConnectFail else Stop
      case ClearingCompleted => if s == Clearing then ClearingDone else Ignore
      case _ =>
        if s == Clearing then Stop
        else if s == Idle then Ignore
        else TrafficAction(e, s)
  }

  /** Timers and messages between Connect and Established. */
  function TrafficAction(e: Event, s: Status): Action
  {
    match e
    case ConnectRetryExpired =>
      if s == Connect then Reconnect else if s == Active then Start else if s == Established then Stop else Ignore
    case HoldExpired => if s == Connect || s == Active then Ignore else HoldtimeExpire
    case KeepaliveExpired => if s == Established then KeepaliveExpire else Ignore
    case ReceiveOpen => if s == OpenSent then FsmOpen else if s == Established then Stop else Ignore
    case ReceiveKeepalive =>
      if s == OpenSent then EventError else if s == OpenConfirm then Establish
      else if s == Established then FsmKeepalive else Ignore
    case ReceiveUpdate =>
      if s == OpenSent then EventError else if s == Established then FsmUpdate else Ignore
    case ReceiveNotification => if s == Connect then Stop else StopWithError
    case _ => Ignore
  }

  /** The events that carry a peer one state up, and where to. */
  predicate Climbs(s: Status, e: Event)
  {
    || (s == Idle && e == BgpStart)
    || ((s == Connect || s == Active) && e == TcpOpen)
    || (s == OpenSent && e == ReceiveOpen)
    || (s == OpenConfirm && e == ReceiveKeepalive)
  }

  function Above(s: Status): Status
  {
    match s
    case Idle => Connect case Connect => OpenSent case Active => OpenSent
    case OpenSent => OpenConfirm case _ => Established
  }

  /** Events that leave a session, or the way to one, where it is. */
  predicate Holds(s: Status, e: Event)
  {
    || s == Deleted
    || (s == Clearing && e != ClearingCompleted)
    || (e == BgpStart && s != Idle)
    || (s == Connect && e == ConnectRetryExpired)
    || (s == Active && e == TcpOpenFailed)
    || ((s == OpenConfirm || s == Established) && e == KeepaliveExpired)
    || (s == Established && (e == ReceiveKeepalive || e == ReceiveUpdate))
  }

  function StatusFor(e: Event, s: Status): Status
  {
    if Climbs(s, e) then Above(s)
    else if Holds(s, e) then s
    else if s == Established && e != ClearingCompleted then Clearing
    else if s == Connect && e == TcpOpenFailed then Active
    else if s == Active && e == ConnectRetryExpired then Connect
    else if s == OpenSent && (e == TcpOpen || e == TcpClosed || e == TcpOpenFailed || e == TcpFatal) then Active
    else Idle
  }

  lemma TableActions(s: Status, e: Event)
    ensures Table(s, e).0 == ActionFor(e, s)
  {
  }

  lemma TableStatuses(s: Status, e: Event)
    ensures Table(s, e).1 == StatusFor(e, s)
  {
  }

  /** The table, row by row, says what each event means. */
  lemma TableByEvent(s: Status, e: Event)
    ensures Table(s, e) == (ActionFor(e, s), StatusFor(e, s))
  {
    hide Table, ActionFor, StatusFor;
    TableActions(s, e);
    TableStatuses(s, e);
  }

  // --------------------------------------------------------------- climbing

  /** How near a state is to a session. */
  function Height(s: Status): nat
  {
    match s
    case Connect => 1 case Active => 1 case OpenSent => 2 case OpenConfirm => 3 case Established => 4 case _ => 0
  }

  /** What starting and connecting need of the outside. */
  predicate CanClimb(p: Peer, env: Env)
  {
    match p.status
    case Idle => !p.cfg.suppressed && (p.cfg.passive || env.connect != ConnectInProgress || env.fd)
    case Connect => p.hasFd
    case Active => p.hasFd
    case _ => true
  }

  /** For every peer: a state is left upwards exactly on its own event, and then
      for the next one up. */
  lemma ClimbLaw(p: Peer, e: Event, env: Env)
    ensures var s := Handled(p, e, env).0.status;
            && (Height(s) > Height(p.status) <==> Climbs(p.status, e) && CanClimb(p, env))
            && (Height(s) > Height(p.status) ==> s == Above(p.status))
  {
    hide Acted, TimerSet, ChangedStatus, Table;
    HandledStatus(p, e, env);
    TableByEvent(p.status, e);
    if Climbs(p.status, e) { ClimbProceeds(p, e, env); }
  }

  lemma ClimbProceeds(p: Peer, e: Event, env: Env)
    requires Climbs(p.status, e)
    ensures Handled(p, e, env).1 <==> CanClimb(p, env)
  {
    hide TimerSet, ChangedStatus;
  }

  /** For every peer and every event that proceeds, the status it ends in. */
  lemma StatusLaw(p: Peer, e: Event, env: Env)
    ensures var (q, proceed) := Handled(p, e, env);
            q.status == if proceed then StatusFor(e, p.status) else p.status
  {
    hide Acted, TimerSet, ChangedStatus, Table;
    HandledStatus(p, e, env);
    TableByEvent(p.status, e);
  }

  // ------------------------------------------------------- sessions come up

  /** An event is posted and, the queue being empty before, handled. */
  function Take(p: Peer, e: Event, env: Env): Peer { Run(p, [Posted(e), Dispatch(0, env)]) }

  lemma TakeIs(p: Peer, e: Event, env: Env)
    requires p.events == [] && p.status != Deleted && e != ClearingCompleted
    ensures Take(p, e, env) == Handled(p, e, env).0
  {
    hide Handled, Run, Next;
    var q := p.(events := [e]);
    PostedOnly(p, e);
    DispatchOnly(q, e, env);
    assert q.(events := []) == p;
    assert [Posted(e), Dispatch(0, env)] == [Posted(e)] + [Dispatch(0, env)];
    RunConcat(p, [Posted(e)], [Dispatch(0, env)]);
    RunOne(p, Posted(e));
    RunOne(q, Dispatch(0, env));
  }

  lemma PostedOnly(p: Peer, e: Event)
    requires p.events == [] && p.status != Deleted && e != ClearingCompleted
    ensures Next(p, Posted(e)) == p.(events := [e])
  {
  }

  /** Bring-up as a peer sees it: started and connected at once, the TCP event
      bgp_start posted handled, OPEN and KEEPALIVE received. */
  function BringUp(env: Env): seq<Step>
  {
    [Posted(BgpStart), Dispatch(0, env), Dispatch(0, env), Posted(ReceiveOpen), Dispatch(0, env),
     Posted(ReceiveKeepalive), Dispatch(0, env)]
  }

  lemma StartConnects(p: Peer, env: Env)
    requires p.status == Idle && p.events == [] && !p.cfg.suppressed && !p.cfg.passive
    requires env.connect == ConnectDone && env.fd
    ensures var q := Handled(p, BgpStart, env).0;
            q.status == Connect && q.events == [TcpOpen] && q.hasFd && q.established == p.established && q.cfg == p.cfg
  {
  }

  lemma OpenGoesOut(p: Peer, env: Env)
    requires (p.status == Connect || p.status == Active) && p.events == [] && p.hasFd
    ensures var q := Handled(p, TcpOpen, env).0;
            q.status == OpenSent && q.events == [] && q.established == p.established
  {
  }

  lemma OpenConfirms(p: Peer, env: Env)
    requires p.status == OpenSent && p.events == []
    ensures var q := Handled(p, ReceiveOpen, env).0;
            q.status == OpenConfirm && q.events == [] && q.established == p.established
  {
  }

  lemma KeepaliveEstablishes(p: Peer, env: Env)
    requires p.status == OpenConfirm && p.events == []
    ensures var q := Handled(p, ReceiveKeepalive, env).0;
            q.status == Established && q.events == [] && q.established == p.established + 1
  {
  }

  lemma {:induction false} RunConcat(p: Peer, a: seq<Step>, b: seq<Step>)
    ensures Run(p, a + b) == Run(Run(p, a), b)
    decreases |a|
  {
    hide Next;
    if a == [] {
      assert a + b == b;
    } else {
      assert (a + b)[1..] == a[1..] + b;
      RunConcat(Next(p, a[0]), a[1..], b);
    }
  }

  lemma RunOne(p: Peer, s: Step)
    ensures Run(p, [s]) == Next(p, s)
  {
    hide Next;
    assert [s][1..] == [];
    assert Run(Next(p, s), []) == Next(p, s);
  }

  lemma DispatchOnly(p: Peer, e: Event, env: Env)
    requires p.events == [e]
    ensures Next(p, Dispatch(0, env)) == Handled(p.(events := []), e, env).0
  {
    hide Handled;
    assert p.events[..0] + p.events[1..] == [];
  }

  /** Every fresh peer that may connect gets its session by these steps, and is
      one established session richer. */
  lemma SessionComesUp(p: Peer, env: Env)
    requires Initial(p) && !p.cfg.suppressed && !p.cfg.passive && env.connect == ConnectDone && env.fd
    ensures var q := Run(p, BringUp(env)); q.status == Established && q.established == p.established + 1
  {
    hide Run, Handled, Next;
    var p1 := Take(p, BgpStart, env);
    TakeIs(p, BgpStart, env);
    StartConnects(p, env);
    var p2 := Next(p1, Dispatch(0, env));
    DispatchOnly(p1, TcpOpen, env);
    OpenGoesOut(p1.(events := []), env);
    TakeIs(p2, ReceiveOpen, env);
    OpenConfirms(p2, env);
    var p3 := Take(p2, ReceiveOpen, env);
    TakeIs(p3, ReceiveKeepalive, env);
    KeepaliveEstablishes(p3, env);
    var one, two := [Posted(BgpStart), Dispatch(0, env)], [Dispatch(0, env)];
    var three, four := [Posted(ReceiveOpen), Dispatch(0, env)], [Posted(ReceiveKeepalive), Dispatch(0, env)];
    assert BringUp(env) == one + (two + (three + four));
    RunConcat(p, one, two + (three + four));
    RunConcat(p1, two, three + four);
    RunOne(p1, Dispatch(0, env));
    RunConcat(p2, three, four);
  }

  /** A passive peer gets there by waiting: it starts into Active, and a session
      comes up on a connection from outside. */
  lemma PassiveSessionComesUp(p: Peer, env: Env)
    requires Initial(p) && !p.cfg.suppressed && p.cfg.passive
    ensures var waiting := Run(p, [Posted(BgpStart), Dispatch(0, env), Dispatch(0, env)]);
            && waiting.status == Active && waiting.events == []
            && (var open := Take(Run(waiting, [Configured(p.cfg, false, true, 90, 30)]), TcpOpen, env);
                var q := Take(Take(open, ReceiveOpen, env), ReceiveKeepalive, env);
                q.status == Established && q.established == p.established + 1)
  {
    hide Run, Handled, Next;
    var p1 := Take(p, BgpStart, env);
    TakeIs(p, BgpStart, env);
    PassiveStarts(p, env);
    var p2 := Next(p1, Dispatch(0, env));
    DispatchOnly(p1, TcpOpenFailed, env);
    FailureWaits(p1.(events := []), env);
    var steps := [Posted(BgpStart), Dispatch(0, env), Dispatch(0, env)];
    assert steps == [Posted(BgpStart), Dispatch(0, env)] + [Dispatch(0, env)];
    RunConcat(p, [Posted(BgpStart), Dispatch(0, env)], [Dispatch(0, env)]);
    RunOne(p1, Dispatch(0, env));
    var there := Configured(p.cfg, false, true, 90, 30);
    RunOne(p2, there);
    var p3 := Next(p2, there);
    ConfiguredOnly(p2, there);
    TakeIs(p3, TcpOpen, env);
    OpenGoesOut(p3, env);
    var p4 := Take(p3, TcpOpen, env);
    TakeIs(p4, ReceiveOpen, env);
    OpenConfirms(p4, env);
    var p5 := Take(p4, ReceiveOpen, env);
    TakeIs(p5, ReceiveKeepalive, env);
    KeepaliveEstablishes(p5, env);
  }

  lemma PassiveStarts(p: Peer, env: Env)
    requires p.status == Idle && p.events == [] && !p.cfg.suppressed && p.cfg.passive
    ensures var q := Handled(p, BgpStart, env).0;
            q.status == Connect && q.events == [TcpOpenFailed] && q.established == p.established
  {
  }

  lemma FailureWaits(p: Peer, env: Env)
    requires p.status == Connect && p.events == []
    ensures var q := Handled(p, TcpOpenFailed, env).0;
            q.status == Active && q.events == [] && q.established == p.established
  {
  }

  lemma ConfiguredOnly(p: Peer, s: Step)
    requires s.Configured?
    ensures var q := Next(p, s);
            q.status == p.status && q.events == p.events && q.established == p.established && q.hasFd == s.hasFd
  {
  }

  // ------------------------------------------------------- the actions' effects

  /** What bgp_start posts: an immediate result of connecting, the failure a
      passive peer pretends, nothing while connecting. */
  lemma StartPosts(p: Peer, env: Env)
    requires p.status != Deleted
    ensures var (q, proceed) := Started(p, env);
            && (p.cfg.suppressed ==> !proceed && q == p)
            && (!p.cfg.suppressed && p.cfg.passive ==> proceed && q.events == p.events + [TcpOpenFailed])
            && (!p.cfg.suppressed && !p.cfg.passive ==>
                  && q.hasFd == env.fd
                  && (env.connect == ConnectError ==> proceed && q.events == p.events + [TcpOpenFailed])
                  && (env.connect == ConnectDone ==> proceed && q.events == p.events + [TcpOpen])
                  && (env.connect == ConnectInProgress ==> q.events == p.events && (proceed <==> env.fd)))
  {
  }

  /** A lost session starts the graceful-restart timers when the peer is waited
      for and stops the stale timer otherwise; stopping anything else touches
      neither, and negotiated times are reset to configured ones. */
  lemma StopRestarts(p: Peer, env: Env)
    ensures var q := Stopped(p, env);
            && q.vHoldtime == p.cfg.holdtime && q.vKeepalive == p.cfg.keepalive && !q.hasFd
            && (p.status != Established ==> q.t.grRestart == p.t.grRestart && q.t.grStale == p.t.grStale)
            && (p.status == Established && !p.nsfWait ==> q.t.grRestart == p.t.grRestart && q.t.grStale == None)
            && (p.status == Established && p.nsfWait ==>
                  && q.t.grStale == Some(p.clock + p.cfg.stale)
                  && q.t.grRestart == (if p.t.grRestart.Some? then p.t.grRestart else Some(p.clock + env.grRestart)))
  {
  }

  /** Entering Clearing or Deleted queues the completion exactly when no route
      was left to clear, and once. */
  lemma CompletionPostedOnce(p: Peer, s: Status, env: Env)
    requires (s == Clearing || s == Deleted) && p.status != Deleted
    ensures var q := ChangedStatus(p, s, env);
            if p.clearQueued || env.routes then q.events == p.events && q.clearQueued
            else q.events == p.events + [ClearingCompleted] && !q.clearQueued
  {
  }

  /** Established is entered with the restart over: no wait, no restart timer,
      and the stale timer only where a family is still restarting. */
  lemma EstablishEndsRestart(p: Peer, env: Env)
    requires p.status != Deleted
    ensures var q := EstablishedNow(p, env);
            && !q.nsfWait && q.t.grRestart == None && (q.t.grStale == if env.nsf then p.t.grStale else None)
            && q.t.routeadv == (if p.t.routeadv.Some? then p.t.routeadv else Some(p.clock + 1))
  {
  }

  /** Events an established session survives. */
  predicate Survives(e: Event)
  {
    e == BgpStart || e == KeepaliveExpired || e == ReceiveKeepalive || e == ReceiveUpdate || e == ClearingCompleted
  }

  /** How any other event ends a session: one more was dropped, the peer clears
      its routes with every timer of the session off and nothing but the
      completion pending, and the next start waits longer after an error, not
      at all longer after a hold time of our own that ran out. */
  lemma SessionLost(p: Peer, e: Event, env: Env)
    requires p.status == Established && !Survives(e)
    ensures var (q, proceed) := Handled(p, e, env);
            && proceed && q.status == Clearing && q.ostatus == Established && q.dropped == p.dropped + 1
            && q.established == p.established && !q.hasFd
            && q.t.start == q.t.connect == q.t.hold == q.t.keepalive == q.t.routeadv == None
            && q.events == (if p.clearQueued || env.routes then [] else [ClearingCompleted])
            && q.vStart == (if e == HoldExpired then 1
                            else if e == ReceiveNotification || e == BgpStopWithError then BackOff(p.vStart)
                            else p.vStart)
  {
    hide BackOff, Table, Acted, StartDelay;
    LostAction(p, e, env);
  }

  lemma LostAction(p: Peer, e: Event, env: Env)
    requires p.status == Established && !Survives(e)
    ensures Table(Established, e).1 == Clearing
    ensures var (q, proceed) := Acted(Table(Established, e).0, p, env);
            && proceed && q.status == Established && q.events == [] && q.clearQueued == p.clearQueued
            && q.dropped == p.dropped + 1 && q.established == p.established && !q.hasFd
            && q.vStart == (if e == HoldExpired then 1
                            else if e == ReceiveNotification || e == BgpStopWithError then BackOff(p.vStart)
                            else p.vStart)
  {
    hide BackOff, StoppedTimers;
  }

  /** And how the clearing ends: idle, nothing pending, due to start again. */
  lemma ClearingEnds(p: Peer, env: Env)
    requires p.status == Clearing && !p.cfg.suppressed && p.cfg.active
    ensures var (q, proceed) := Handled(p, ClearingCompleted, env);
            && proceed && q.status == Idle && q.events == [] && q.dropped == p.dropped
            && q.t.start == Some(p.clock + StartDelay(p.vStart, env.random))
  {
    hide StartDelay;
  }

  // ---------------------------------------------------------------- backing off

  function Power(k: nat): nat { if k == 0 then 1 else 2 * Power(k - 1) }

  function Errors(k: nat): nat { if k == 0 then BGP_INIT_START_TIMER else BackOff(Errors(k - 1)) }

  lemma {:induction false} PowerGrows(k: nat)
    ensures Power(k) >= 1 && (k >= 6 ==> Power(k) >= 64)
  {
    if k > 0 { PowerGrows(k - 1); }
    if k == 6 {
      assert Power(1) == 2 && Power(2) == 4 && Power(3) == 8;
      assert Power(4) == 16 && Power(5) == 32;
    }
  }

  /** The start delay after k errors in a row: one and then a power of two more,
      up to a minute. */
  lemma {:induction false} BackOffLaw(k: nat)
    ensures Errors(k) == if k == 0 then 1 else if Power(k - 1) + 1 < 60 then Power(k - 1) + 1 else 60
  {
    if k > 1 {
      BackOffLaw(k - 1);
      PowerGrows(k - 2);
    }
  }
}
