/** The peer state machine of bgp_fsm.c: its table, timers, event queue and
    Clearing phase, and what holds in every run. */
module PeerFsm {
  import opened Lists

  datatype Status = Idle | Connect | Active | OpenSent | OpenConfirm | Established | Clearing | Deleted

  datatype Event =
    | BgpStart | BgpStop | TcpOpen | TcpClosed | TcpOpenFailed | TcpFatal
    | ConnectRetryExpired | HoldExpired | KeepaliveExpired
    | ReceiveOpen | ReceiveKeepalive | ReceiveUpdate | ReceiveNotification
    | ClearingCompleted | BgpStopWithError

  datatype Action =
    | Ignore | Start | Stop | StopWithError | ConnectSuccess | ConnectFail | Reconnect
    | FsmOpen | HoldtimeExpire | KeepaliveExpire | EventError | Establish
    | FsmKeepalive | FsmUpdate | ClearingDone

  const BGP_INIT_START_TIMER := 1

  /** A timer that is off, or the time it is due. */
  type Timer = Option<nat>

  datatype Timers = Timers(start: Timer, connect: Timer, hold: Timer, keepalive: Timer, routeadv: Timer,
                           grRestart: Timer, grStale: Timer)

  /** Configuration and flags set outside this file. */
  datatype Config = Config(
    suppressed: bool,           // BGP_PEER_START_SUPPRESSED
    active: bool,               // peer_active
    passive: bool,              // PEER_FLAG_PASSIVE
    holdtime: nat,              // what bgp_stop resets the hold time to
    keepalive: nat,             // and the keepalive time
    connect: nat, routeadv: nat, stale: nat)

  /** The part of struct peer the state machine works on; events are the
      pending thread events of this peer. */
  datatype Peer = Peer(
    status: Status,
    ostatus: Status,
    events: seq<Event>,
    clearQueued: bool,          // the clear-node work queue is scheduled
    established: nat,
    dropped: nat,
    hasFd: bool,
    vStart: nat,
    vHoldtime: nat,             // negotiated; zero switches hold and keepalive off
    vKeepalive: nat,
    nsfWait: bool,              // PEER_STATUS_NSF_WAIT
    clock: nat,
    t: Timers,
    cfg: Config)

  /** What callees outside this file answer during one event. */
  datatype Env = Env(
    routes: bool,               // bgp_clear_route_all queued some route
    connect: ConnectResult,     // bgp_connect
    fd: bool,                   // and whether it left a descriptor
    notifyFails: bool,          // bgp_notify_send could not write
    nsf: bool,                  // bgp_establish found a restarting family
    random: nat,                // what bgp_start_jitter draws
    grRestart: nat)             // the restart time the peer advertised
  datatype ConnectResult = ConnectError | ConnectDone | ConnectInProgress

  // ---------------------------------------------------------------- the table

  function Table(s: Status, e: Event): (Action, Status)
  {
    match s
    case Idle => (
      match e
      case BgpStart => (Start, Connect)
      case BgpStop => (Stop, Idle)
      case TcpOpen => (Stop, Idle)
      case TcpClosed => (Stop, Idle)
      case TcpFatal => (Stop, Idle)
      case _ => (Ignore, Idle))
    case Connect => (
      match e
      case BgpStart => (Ignore, Connect)
      case BgpStop => (Stop, Idle)
      case TcpOpen => (ConnectSuccess, OpenSent)
      case TcpClosed => (Stop, Idle)
      case TcpOpenFailed => (ConnectFail, Active)
      case TcpFatal => (ConnectFail, Idle)
      case ConnectRetryExpired => (Reconnect, Connect)
      case ReceiveNotification => (Stop, Idle)
      case BgpStopWithError => (StopWithError, Idle)
      case _ => (Ignore, Idle))
    case Active => (
      match e
      case BgpStart => (Ignore, Active)
      case BgpStop => (Stop, Idle)
      case TcpOpen => (ConnectSuccess, OpenSent)
      case TcpClosed => (Stop, Idle)
      case TcpOpenFailed => (Ignore, Active)
      case ConnectRetryExpired => (Start, Connect)
      case ReceiveNotification => (StopWithError, Idle)
      case BgpStopWithError => (StopWithError, Idle)
      case _ => (Ignore, Idle))
    case OpenSent => (
      match e
      case BgpStart => (Ignore, OpenSent)
      case BgpStop => (Stop, Idle)
      case TcpOpen => (Stop, Active)
      case TcpClosed => (Stop, Active)
      case TcpOpenFailed => (Stop, Active)
      case TcpFatal => (Stop, Active)
      case HoldExpired => (HoldtimeExpire, Idle)
      case ReceiveOpen => (FsmOpen, OpenConfirm)
      case ReceiveKeepalive => (EventError, Idle)
      case ReceiveUpdate => (EventError, Idle)
      case ReceiveNotification => (StopWithError, Idle)
      case BgpStopWithError => (StopWithError, Idle)
      case _ => (Ignore, Idle))
    case OpenConfirm => (
      match e
      case BgpStart => (Ignore, OpenConfirm)
      case BgpStop => (Stop, Idle)
      case TcpOpen => (Stop, Idle)
      case TcpClosed => (Stop, Idle)
      case TcpOpenFailed => (Stop, Idle)
      case TcpFatal => (Stop, Idle)
      case HoldExpired => (HoldtimeExpire, Idle)
      case KeepaliveExpired => (Ignore, OpenConfirm)
      case ReceiveKeepalive => (Establish, Established)
      case ReceiveNotification => (StopWithError, Idle)
      case BgpStopWithError => (StopWithError, Idle)
      case _ => (Ignore, Idle))
    case Established => (
      match e
      case BgpStart => (Ignore, Established)
      case HoldExpired => (HoldtimeExpire, Clearing)
      case KeepaliveExpired => (KeepaliveExpire, Established)
      case ReceiveKeepalive => (FsmKeepalive, Established)
      case ReceiveUpdate => (FsmUpdate, Established)
      case ReceiveNotification => (StopWithError, Clearing)
      case ClearingCompleted => (Ignore, Idle)
      case BgpStopWithError => (StopWithError, Clearing)
      case _ => (Stop, Clearing))
    case Clearing => (
      match e
      case BgpStart => (Ignore, Clearing)
      case ClearingCompleted => (ClearingDone, Idle)
      case BgpStopWithError => (StopWithError, Clearing)
      case _ => (Stop, Clearing))
    case Deleted => (Ignore, Deleted)
  }

  // -------------------------------------------------------------- the actions

  /** BGP_EVENT_ADD. */
  function Post(p: Peer, e: Event): Peer
  {
    if p.status != Deleted then p.(events := p.events + [e]) else p
  }

  /** BGP_TIMER_ON: a running timer is left alone. */
  function On(p: Peer, t: Timer, after: nat): Timer
  {
    if t == None && p.status != Deleted then Some(p.clock + after) else t
  }

  /** The timers after bgp_stop: a lost session starts those of a graceful
      restart if the peer is waited for. */
  function StoppedTimers(p: Peer, env: Env): Timers
  {
    var up := p.status == Established;
    Timers(None, None, None, None, None,
           if up && p.nsfWait then On(p, p.t.grRestart, env.grRestart) else p.t.grRestart,
           if !up then p.t.grStale else if p.nsfWait then On(p, None, p.cfg.stale) else None)
  }

  /** bgp_stop. */
  function Stopped(p: Peer, env: Env): Peer
  {
    p.(events := if p.status != Clearing then [] else p.events,
       dropped := if p.status == Established then p.dropped + 1 else p.dropped,
       t := StoppedTimers(p, env),
       hasFd := false,
       vHoldtime := p.cfg.holdtime,
       vKeepalive := p.cfg.keepalive)
  }

  /** back_off_exp2_bias with the cap bgp_stop_with_error gives it. */
  function BackOff(v: nat): nat
  {
    var w := 2 * v - if v > BGP_INIT_START_TIMER then BGP_INIT_START_TIMER else 0;
    if w < 60 then w else 60
  }

  /** bgp_stop_with_notify, for a peer that is not a temporary one. */
  function StoppedWithNotify(p: Peer, env: Env): Peer
  {
    Stopped(Post(p, if env.notifyFails then TcpFatal else BgpStopWithError).(vStart := BGP_INIT_START_TIMER), env)
  }

  /** bgp_start: the new peer, and whether to proceed. */
  function Started(p: Peer, env: Env): (Peer, bool)
  {
    if p.cfg.suppressed then (p, false)
    else if p.cfg.passive then (Post(p, TcpOpenFailed), true)
    else
      var q := p.(hasFd := env.fd);
      match env.connect
      case ConnectError => (Post(q, TcpOpenFailed), true)
      case ConnectDone => (Post(q, TcpOpen), true)
      case ConnectInProgress => (q, env.fd)
  }

  /** bgp_fsm_change_status: a move into Clearing or Deleted clears all routes
      and, when none was queued, posts the completion itself. */
  function ChangedStatus(p: Peer, s: Status, env: Env): Peer
  {
    if s == Clearing || s == Deleted then
      var queued := p.clearQueued || env.routes;
      var q := if queued then p else Post(p, ClearingCompleted);
      q.(clearQueued := queued, ostatus := p.status, status := s)
    else
      p.(ostatus := p.status, status := s)
  }

  /** The timers bgp_establish touches. */
  function EstablishedTimers(p: Peer, env: Env): Timers
  {
    p.t.(grStale := if env.nsf then p.t.grStale else None, grRestart := None, routeadv := On(p, p.t.routeadv, 1))
  }

  /** bgp_establish. */
  function EstablishedNow(p: Peer, env: Env): Peer
  {
    var q := ChangedStatus(p.(vStart := BGP_INIT_START_TIMER, established := p.established + 1), Established, env);
    q.(nsfWait := false, t := EstablishedTimers(q, env))
  }

  function Acted(a: Action, p: Peer, env: Env): (Peer, bool)
  {
    match a
    case Ignore => (p, true)
    case Start => Started(p, env)
    case Stop => (Stopped(p, env), true)
    case StopWithError => (Stopped(p.(vStart := BackOff(p.vStart)), env), true)
    case ConnectSuccess => (p, p.hasFd)
    case ConnectFail => (Stopped(p, env), true)
    case Reconnect => (Started(Stopped(p, env), env).0, true)
    case FsmOpen => (p.(t := p.t.(hold := None)), true)
    case HoldtimeExpire => (StoppedWithNotify(p, env), true)
    case KeepaliveExpire => (p, true)
    case EventError => (StoppedWithNotify(p, env), true)
    case Establish => (EstablishedNow(p, env), true)
    case FsmKeepalive => (p.(t := p.t.(hold := None)), true)
    case FsmUpdate => (p.(t := p.t.(hold := None)), true)
    case ClearingDone => (Stopped(p, env).(events := []), true)
  }

  // --------------------------------------------------------------- the timers

  /** The start timer's value with bgp_start_jitter: from half of v to one and a
      half times v. */
  function StartDelay(v: nat, random: nat): (d: nat)
    ensures v - v / 2 <= d <= v + v - v / 2
  {
    v + random % (v + 1) - v / 2
  }

  /** bgp_timer_set: the switch on the status. */
  function TimersFor(p: Peer, random: nat): Timers
  {
    var t := p.t;
    var off := t.(start := None, connect := None, hold := None, keepalive := None, routeadv := None);
    match p.status
      case Idle =>
        off.(start := if p.cfg.suppressed || !p.cfg.active then None else On(p, t.start, StartDelay(p.vStart, random)))
      case Connect => off.(connect := On(p, t.connect, p.cfg.connect))
      case Active => off.(connect := if p.cfg.passive || p.nsfWait then None else On(p, t.connect, p.cfg.connect))
      case OpenSent => off.(hold := if p.vHoldtime != 0 then On(p, t.hold, p.vHoldtime) else None)
      case OpenConfirm =>
        if p.vHoldtime == 0 then off
        else off.(hold := On(p, t.hold, p.vHoldtime), keepalive := On(p, t.keepalive, p.vKeepalive))
      case Established =>
        if p.vHoldtime == 0 then t.(start := None, connect := None, hold := None, keepalive := None)
        else t.(start := None, connect := None, hold := On(p, t.hold, p.vHoldtime),
                keepalive := On(p, t.keepalive, p.vKeepalive))
      case Clearing => off
      case Deleted => off.(grRestart := None, grStale := None)
  }

  function TimerSet(p: Peer, random: nat): Peer { p.(t := TimersFor(p, random)) }

  /** Which timers a state prescribes, independently of how they are set. */
  predicate WantsStart(p: Peer) { p.status == Idle && !p.cfg.suppressed && p.cfg.active }
  predicate WantsConnect(p: Peer)
  {
    p.status == Connect || (p.status == Active && !p.cfg.passive && !p.nsfWait)
  }
  predicate WantsHold(p: Peer)
  {
    (p.status == OpenSent || p.status == OpenConfirm || p.status == Established) && p.vHoldtime != 0
  }
  predicate WantsKeepalive(p: Peer)
  {
    (p.status == OpenConfirm || p.status == Established) && p.vHoldtime != 0
  }

  /** A timer set as prescribed: off, or running on as it was, or started now. */
  predicate SetTo(now: Timer, was: Timer, wanted: bool, due: nat)
  {
    now == if !wanted then None else if was.Some? then was else Some(due)
  }

  predicate AsPrescribed(q: Peer, t: Timers, random: nat)
  {
    && SetTo(q.t.start, t.start, WantsStart(q), q.clock + StartDelay(q.vStart, random))
    && SetTo(q.t.connect, t.connect, WantsConnect(q), q.clock + q.cfg.connect)
    && SetTo(q.t.hold, t.hold, WantsHold(q), q.clock + q.vHoldtime)
    && SetTo(q.t.keepalive, t.keepalive, WantsKeepalive(q), q.clock + q.vKeepalive)
    && q.t.routeadv == (if q.status == Established then t.routeadv else None)
    && (q.status == Deleted ==> q.t.grRestart == None && q.t.grStale == None)
  }

  /** The switch sets every timer as its state prescribes. */
  lemma TimerSetPrescribes(p: Peer, random: nat)
    ensures AsPrescribed(TimerSet(p, random), p.t, random) && TimerSet(p, random) == p.(t := TimerSet(p, random).t)
  {
  }

  /** bgp_event: the new peer, and whether the action let it proceed. */
  function Handled(p: Peer, e: Event, env: Env): (Peer, bool)
  {
    var (a, next) := Table(p.status, e);
    var (q, proceed) := Acted(a, p, env);
    if proceed
    then (TimerSet(if next != q.status then ChangedStatus(q, next, env) else q, env.random), true)
    else (q, false)
  }

  // ------------------------------------------------------------------- a run

  /** One step of a run: a pending event is handled, a timer fires, the route
      clearing work queue reports, or code outside this file acts. */
  datatype Step =
    | Dispatch(i: nat, env: Env)
    | FireStart(env: Env)
    | FireConnect(env: Env)
    | FireHold(env: Env)
    | FireKeepalive(env: Env)
    | FireRouteadv
    | FireGrRestart(random: nat)
    | FireGrStale
    | Tick(seconds: nat)
    | ClearQueueDone
    | ClearQueueScheduled
    | Posted(e: Event)
    | Configured(cfg: Config, nsfWait: bool, hasFd: bool, vHoldtime: nat, vKeepalive: nat)
    | Retimed(random: nat)
    | Delete(env: Env)

  predicate Due(p: Peer, t: Timer) { t.Some? && t.value <= p.clock }

  /** The queue reports only in Clearing or Deleted, once per scheduling; and
      nobody else posts Clearing_Completed. A step that is not enabled does
      nothing. */
  function Next(p: Peer, s: Step): Peer
  {
    match s
    case Dispatch(i, env) =>
      if i < |p.events|
      then Handled(p.(events := p.events[..i] + p.events[i + 1..]), p.events[i], env).0 else p
    case FireStart(env) => if Due(p, p.t.start) then Handled(p.(t := p.t.(start := None)), BgpStart, env).0 else p
    case FireConnect(env) =>
      if Due(p, p.t.connect) then Handled(p.(t := p.t.(connect := None)), ConnectRetryExpired, env).0 else p
    case FireHold(env) => if Due(p, p.t.hold) then Handled(p.(t := p.t.(hold := None)), HoldExpired, env).0 else p
    case FireKeepalive(env) =>
      if Due(p, p.t.keepalive) then Handled(p.(t := p.t.(keepalive := None)), KeepaliveExpired, env).0 else p
    case FireRouteadv =>
      if Due(p, p.t.routeadv) then p.(t := p.t.(routeadv := On(p, None, p.cfg.routeadv))) else p
    case FireGrRestart(random) =>
      if Due(p, p.t.grRestart)
          then TimerSet(p.(nsfWait := false, t := p.t.(grRestart := None, grStale := None)), random) else p
    case FireGrStale => if Due(p, p.t.grStale) then p.(t := p.t.(grStale := None)) else p
    case Tick(d) => p.(clock := p.clock + d)
    case ClearQueueDone =>
      if p.clearQueued && (p.status == Clearing || p.status == Deleted)
      then Post(p.(clearQueued := false), ClearingCompleted) else p
    case ClearQueueScheduled => p.(clearQueued := true)
    case Posted(e) => if e == ClearingCompleted then p else Post(p, e)
    case Configured(cfg, nsf, fd, hold, keepalive) =>
      p.(cfg := cfg, nsfWait := nsf, hasFd := fd, vHoldtime := hold, vKeepalive := keepalive)
    case Retimed(random) => TimerSet(p, random)
    case Delete(env) =>
      if p.status == Deleted then p
      else
        var q := if p.nsfWait then p.(nsfWait := false, t := p.t.(grRestart := None, grStale := None)) else p;
        TimerSet(ChangedStatus(Stopped(q, env), Deleted, env), env.random)
  }

  function Run(p: Peer, steps: seq<Step>): Peer
    decreases |steps|
  {
    if steps == [] then p else Run(Next(p, steps[0]), steps[1..])
  }

  /** A peer as peer_new leaves it. */
  predicate Initial(p: Peer)
  {
    && p.status == Idle && p.events == [] && p.established == 0 && p.dropped == 0
    && p.vStart == BGP_INIT_START_TIMER
    && p.t.start == p.t.connect == p.t.hold == p.t.keepalive == p.t.routeadv == None
  }

  // -------------------------------------------------- what holds in every run

  /** Clearing_Completed is pending only where it is meant to be, and a peer in
      Clearing has it pending or will get it from the work queue. */
  predicate ClearingTracked(p: Peer)
  {
    && (ClearingCompleted in p.events ==> p.status == Clearing || p.status == Deleted)
    && (p.status == Clearing ==> ClearingCompleted in p.events || p.clearQueued)
  }

  /** Sessions made and lost balance. */
  predicate Balanced(p: Peer)
  {
    p.established == p.dropped + if p.status == Established then 1 else 0
  }

  predicate TimersInPlace(p: Peer)
  {
    && (p.t.start.Some? ==> p.status == Idle)
    && (p.t.connect.Some? ==> p.status == Connect || p.status == Active)
    && (p.t.hold.Some? ==> p.status == OpenSent || p.status == OpenConfirm || p.status == Established)
    && (p.t.keepalive.Some? ==> p.status == OpenConfirm || p.status == Established)
    && (p.t.routeadv.Some? ==> p.status == Established)
  }

  predicate BackOffBounded(p: Peer) { 1 <= p.vStart <= 60 }

  predicate Inv(p: Peer)
  {
    ClearingTracked(p) && Balanced(p) && TimersInPlace(p) && BackOffBounded(p)
  }

  /** What the table guarantees about every entry. */
  lemma TableFacts(s: Status, e: Event)
    ensures var (a, next) := Table(s, e);
            && (a == Establish ==> s == OpenConfirm && next == Established)
            && (next == Established ==> s == Established || a == Establish)
            && (s == Established && next != Established && e != ClearingCompleted ==>
                  next == Clearing && (a == Stop || a == StopWithError || a == HoldtimeExpire))
            && (next == Clearing ==> s == Established || s == Clearing)
            && (next == Deleted <==> s == Deleted)
            && (s == Clearing && e != ClearingCompleted ==>
                  next == Clearing && (a == Ignore || a == Stop || a == StopWithError))
            && (s == Clearing && e == ClearingCompleted ==> a == ClearingDone && next == Idle)
            && (s == Established && next == Established ==>
                a == Ignore || a == KeepaliveExpire || a == FsmKeepalive || a == FsmUpdate)
            && (s == Deleted ==> a == Ignore)
  {
  }

  predicate Drops(a: Action)
  {
    a == Stop || a == StopWithError || a == ConnectFail || a == Reconnect || a == HoldtimeExpire || a == EventError
    || a == ClearingDone
  }

  lemma StoppedFacts(p: Peer, env: Env)
    ensures var q := Stopped(p, env);
            && q.status == p.status && q.clearQueued == p.clearQueued && q.vStart == p.vStart
            && q.events == (if p.status == Clearing then p.events else [])
            && q.established == p.established
            && q.dropped == p.dropped + (if p.status == Established then 1 else 0)
            && q.t.routeadv == q.t.hold == None && q.clock == p.clock
  {
  }

  lemma PostFacts(p: Peer, e: Event)
    requires e != ClearingCompleted
    ensures var q := Post(p, e);
            && q.(events := p.events) == p
            && (ClearingCompleted in q.events ==> ClearingCompleted in p.events)
  {
  }

  lemma StartedFacts(p: Peer, env: Env)
    ensures var (q, proceed) := Started(p, env);
            && q.status == p.status && q.clearQueued == p.clearQueued && q.vStart == p.vStart
            && q.established == p.established && q.dropped == p.dropped && q.t == p.t && q.clock == p.clock
            && (ClearingCompleted in q.events ==> ClearingCompleted in p.events)
  {
    hide Post;
    var q := p.(hasFd := env.fd);
    PostFacts(p, TcpOpenFailed);
    PostFacts(q, TcpOpenFailed);
    PostFacts(q, TcpOpen);
  }

  lemma NotifyFacts(p: Peer, env: Env)
    ensures var q := StoppedWithNotify(p, env);
            && q.status == p.status && q.clearQueued == p.clearQueued && q.vStart == BGP_INIT_START_TIMER
            && (ClearingCompleted in q.events ==> ClearingCompleted in p.events)
            && q.established == p.established
            && q.dropped == p.dropped + (if p.status == Established then 1 else 0)
            && q.t.routeadv == q.t.hold == None && q.clock == p.clock
  {
    hide Post, Stopped;
    var e := if env.notifyFails then TcpFatal else BgpStopWithError;
    PostFacts(p, e);
    StoppedFacts(Post(p, e).(vStart := BGP_INIT_START_TIMER), env);
  }

  lemma EstablishedFacts(p: Peer, env: Env)
    ensures var q := EstablishedNow(p, env);
            && q.status == Established && q.clearQueued == p.clearQueued && q.events == p.events
            && q.established == p.established + 1 && q.dropped == p.dropped && q.vStart == BGP_INIT_START_TIMER
            && q.clock == p.clock && q.t.hold == p.t.hold
  {
  }

  /** What every action does to status, queue and counters. */
  lemma ActedFacts(a: Action, p: Peer, env: Env)
    ensures var q := Acted(a, p, env).0;
            && q.status == (if a == Establish then Established else p.status)
            && q.clearQueued == p.clearQueued
            && (ClearingCompleted in q.events ==> ClearingCompleted in p.events)
            && (p.status == Clearing && (a == Ignore || a == Stop || a == StopWithError) ==> q.events == p.events)
            && (a == ClearingDone ==> q.events == [])
  {
    hide Post, Stopped, Started, StoppedWithNotify, EstablishedNow;
    match a {
      case Ignore | KeepaliveExpire | ConnectSuccess | FsmOpen | FsmKeepalive | FsmUpdate =>
      case Start => StartedFacts(p, env);
      case Stop | ConnectFail | ClearingDone => StoppedFacts(p, env);
      case StopWithError => StoppedFacts(p.(vStart := BackOff(p.vStart)), env);
      case Reconnect => StoppedFacts(p, env); StartedFacts(Stopped(p, env), env);
      case HoldtimeExpire | EventError => NotifyFacts(p, env);
      case Establish => EstablishedFacts(p, env);
    }
  }

  lemma ActedCounts(a: Action, p: Peer, env: Env)
    ensures var q := Acted(a, p, env).0;
            && q.established == p.established + (if a == Establish then 1 else 0)
            && q.dropped == p.dropped + (if Drops(a) && p.status == Established then 1 else 0)
            && (BackOffBounded(p) ==> BackOffBounded(q))
  {
    hide Post, Stopped, Started, StoppedWithNotify, EstablishedNow;
    match a {
      case Ignore | KeepaliveExpire | ConnectSuccess | FsmOpen | FsmKeepalive | FsmUpdate =>
      case Start => StartedFacts(p, env);
      case Stop | ConnectFail | ClearingDone => StoppedFacts(p, env);
      case StopWithError => StoppedFacts(p.(vStart := BackOff(p.vStart)), env);
      case Reconnect => StoppedFacts(p, env); StartedFacts(Stopped(p, env), env);
      case HoldtimeExpire | EventError => NotifyFacts(p, env);
      case Establish => EstablishedFacts(p, env);
    }
  }

  lemma ActedTimers(a: Action, p: Peer, env: Env)
    ensures var (q, proceed) := Acted(a, p, env);
            && (!proceed ==> (a == Start || a == ConnectSuccess) && q.t == p.t && q.status == p.status)
            && (q.t.routeadv.Some? ==> p.t.routeadv.Some? || a == Establish)
  {
    hide Post, Stopped, Started, StoppedWithNotify, EstablishedNow;
    match a {
      case Ignore | KeepaliveExpire | ConnectSuccess | FsmOpen | FsmKeepalive | FsmUpdate =>
      case Start => StartedFacts(p, env);
      case Stop | ConnectFail | ClearingDone => StoppedFacts(p, env);
      case StopWithError => StoppedFacts(p.(vStart := BackOff(p.vStart)), env);
      case Reconnect => StoppedFacts(p, env); StartedFacts(Stopped(p, env), env);
      case HoldtimeExpire | EventError => NotifyFacts(p, env);
      case Establish => EstablishedFacts(p, env);
    }
  }

  lemma ChangedFacts(p: Peer, s: Status, env: Env)
    ensures var q := ChangedStatus(p, s, env);
            && q.status == s && q.t == p.t && q.clock == p.clock && q.vHoldtime == p.vHoldtime
            && q.established == p.established && q.dropped == p.dropped && q.vStart == p.vStart
            && (s != Clearing && s != Deleted ==> q.events == p.events && q.clearQueued == p.clearQueued)
            && (s == Clearing && p.status != Deleted ==> ClearingCompleted in q.events || q.clearQueued)
  {
  }

  /** Removing a pending event other than Clearing_Completed, or anything in a
      state that does not need it. */
  lemma RemoveEvent(ev: seq<Event>, i: nat)
    requires i < |ev|
    ensures var rest := ev[..i] + ev[i + 1..];
            && (ClearingCompleted in rest ==> ClearingCompleted in ev)
            && (ev[i] != ClearingCompleted && ClearingCompleted in ev ==> ClearingCompleted in rest)
  {
    var rest := ev[..i] + ev[i + 1..];
    if ev[i] != ClearingCompleted && ClearingCompleted in ev {
      var k :| 0 <= k < |ev| && ev[k] == ClearingCompleted;
      assert ClearingCompleted == if k < i then rest[k] else rest[k - 1];
    }
  }

  /** Handling an event keeps the invariant. The event itself is already off
      the queue, so in Clearing it may be the completion the state waits for. */
  lemma HandledKeeps(p: Peer, e: Event, env: Env)
    requires Balanced(p) && TimersInPlace(p) && BackOffBounded(p)
    requires ClearingCompleted in p.events ==> p.status == Clearing || p.status == Deleted
    requires e == ClearingCompleted ==> p.status == Clearing || p.status == Deleted
    requires p.status == Clearing && e != ClearingCompleted ==> ClearingCompleted in p.events || p.clearQueued
    ensures Inv(Handled(p, e, env).0)
  {
    hide Table, Acted, ChangedStatus;
    var (a, next) := Table(p.status, e);
    TableFacts(p.status, e);
    ActedFacts(a, p, env);
    ActedCounts(a, p, env);
    ActedTimers(a, p, env);
    ChangedFacts(Acted(a, p, env).0, next, env);
  }

  lemma DispatchKeeps(p: Peer, i: nat, env: Env)
    requires Inv(p) && i < |p.events|
    ensures Inv(Handled(p.(events := p.events[..i] + p.events[i + 1..]), p.events[i], env).0)
  {
    hide Handled;
    RemoveEvent(p.events, i);
    assert p.events[i] in p.events;
    HandledKeeps(p.(events := p.events[..i] + p.events[i + 1..]), p.events[i], env);
  }

  lemma DeleteKeeps(p: Peer, env: Env)
    requires Inv(p) && p.status != Deleted
    ensures Inv(Next(p, Delete(env))) && Next(p, Delete(env)).status == Deleted
  {
    hide Stopped, ChangedStatus;
    var q := if p.nsfWait then p.(nsfWait := false, t := p.t.(grRestart := None, grStale := None)) else p;
    StoppedFacts(q, env);
    ChangedFacts(Stopped(q, env), Deleted, env);
  }

  /** A timer that fired is off when its event is handled. */
  predicate Fewer(t: Timers, u: Timers)
  {
    && (t.start.Some? ==> u.start.Some?) && (t.connect.Some? ==> u.connect.Some?) && (t.hold.Some? ==> u.hold.Some?)
    && (t.keepalive.Some? ==> u.keepalive.Some?) && (t.routeadv.Some? ==> u.routeadv.Some?)
  }

  lemma FireKeeps(p: Peer, t: Timers, e: Event, env: Env)
    requires Inv(p) && Fewer(t, p.t) && e != ClearingCompleted
    ensures Inv(Handled(p.(t := t), e, env).0)
  {
    hide Handled;
    HandledKeeps(p.(t := t), e, env);
  }

  predicate Quiet(s: Step)
  {
    || s.FireRouteadv? || s.FireGrRestart? || s.FireGrStale? || s.Tick?
    || s.ClearQueueScheduled? || s.Configured? || s.Retimed?
  }

  lemma QuietKeeps(p: Peer, s: Step)
    requires Inv(p) && Quiet(s)
    ensures Inv(Next(p, s))
  {
    hide TimerSet;
    match s {
      case FireGrRestart(random) =>
        TimerSetPrescribes(p.(nsfWait := false, t := p.t.(grRestart := None, grStale := None)), random);
      case Retimed(random) => TimerSetPrescribes(p, random);
      case _ =>
    }
  }

  lemma QueueKeeps(p: Peer, e: Event)
    requires Inv(p) && e != ClearingCompleted
    ensures Inv(Next(p, ClearQueueDone)) && Inv(Post(p, e))
  {
    PostFacts(p, e);
    PostKeeps(p, e);
    PostKeeps(p.(clearQueued := false), ClearingCompleted);
  }

  /** Every step keeps the invariant. */
  lemma NextKeeps(p: Peer, s: Step)
    requires Inv(p)
    ensures Inv(Next(p, s))
  {
    hide Handled, TimerSet, Post, Inv;
    match s {
      case Dispatch(i, env) => if i < |p.events| { DispatchKeeps(p, i, env); }
      case FireStart(env) => FireKeeps(p, p.t.(start := None), BgpStart, env);
      case FireConnect(env) => FireKeeps(p, p.t.(connect := None), ConnectRetryExpired, env);
      case FireHold(env) => FireKeeps(p, p.t.(hold := None), HoldExpired, env);
      case FireKeepalive(env) => FireKeeps(p, p.t.(keepalive := None), KeepaliveExpired, env);
      case ClearQueueDone => QueueKeeps(p, BgpStop);
      case Posted(e) => if e != ClearingCompleted { QueueKeeps(p, e); }
      case Delete(env) => if p.status != Deleted { DeleteKeeps(p, env); }
      case FireRouteadv | FireGrRestart(_) | FireGrStale | Tick(_)
         | ClearQueueScheduled | Configured(_, _, _, _, _) | Retimed(_) =>
        QuietKeeps(p, s);
    }
  }

  lemma PostKeeps(p: Peer, e: Event)
    ensures ClearingCompleted in p.events ==> ClearingCompleted in Post(p, e).events
  {
  }

  /** In every run: Clearing_Completed is pending only in Clearing or Deleted, a
      peer in Clearing has it pending or queued, sessions made and lost
      balance, and no timer runs outside its states. */
  lemma {:induction false} RunKeeps(p: Peer, steps: seq<Step>)
    requires Inv(p)
    ensures Inv(Run(p, steps))
    decreases |steps|
  {
    hide Next, Inv;
    if steps != [] {
      NextKeeps(p, steps[0]);
      RunKeeps(Next(p, steps[0]), steps[1..]);
    }
  }

  lemma {:induction false} EveryRun(p: Peer, steps: seq<Step>)
    requires Initial(p)
    ensures ClearingTracked(Run(p, steps)) && Balanced(Run(p, steps))
    ensures TimersInPlace(Run(p, steps)) && BackOffBounded(Run(p, steps))
  {
    hide Run;
    RunKeeps(p, steps);
  }

  /** The one table exit from Established that skips bgp_stop would break the
      balance; only the tracking of Clearing_Completed keeps it unreachable. */
  lemma CompletionWouldUnbalance(p: Peer, env: Env)
    requires p.status == Established && Balanced(p)
    ensures !Balanced(Handled(p, ClearingCompleted, env).0)
  {
  }

  // ------------------------------------------------ leaving Established, Clearing

  lemma HandledStatus(p: Peer, e: Event, env: Env)
    ensures var (q, proceed) := Handled(p, e, env);
            var (a, next) := Table(p.status, e);
            && (proceed ==> q.status == next)
            && (!proceed ==> q.status == p.status && (a == Start || a == ConnectSuccess))
  {
    hide Table, Acted, ChangedStatus;
    var (a, next) := Table(p.status, e);
    ActedFacts(a, p, env);
    ActedTimers(a, p, env);
    ChangedFacts(Acted(a, p, env).0, next, env);
  }

  lemma StepLeaves(p: Peer, s: Step)
    requires Inv(p)
    ensures p.status == Established ==>
              var n := Next(p, s).status; n == Established || n == Clearing || n == Deleted
    ensures p.status == Clearing ==>
              var n := Next(p, s).status; n == Clearing || n == Idle || n == Deleted
  {
    hide Handled, Table;
    match s {
      case Dispatch(i, env) =>
        if i < |p.events| {
          assert p.events[i] in p.events;
          HandledStatus(p.(events := p.events[..i] + p.events[i + 1..]), p.events[i], env);
          TableFacts(p.status, p.events[i]);
        }
      case FireStart(env) => HandledStatus(p.(t := p.t.(start := None)), BgpStart, env); TableFacts(p.status, BgpStart);
      case FireConnect(env) =>
        HandledStatus(p.(t := p.t.(connect := None)), ConnectRetryExpired, env);
        TableFacts(p.status, ConnectRetryExpired);
      case FireHold(env) =>
        HandledStatus(p.(t := p.t.(hold := None)), HoldExpired, env);
        TableFacts(p.status, HoldExpired);
      case FireKeepalive(env) =>
        HandledStatus(p.(t := p.t.(keepalive := None)), KeepaliveExpired, env);
        TableFacts(p.status, KeepaliveExpired);
      case Delete(env) => if p.status != Deleted { DeleteKeeps(p, env); }
      case _ =>
    }
  }

  /** In every run a session is left only by way of Clearing or by deleting the
      peer, and Clearing only for Idle or by deleting it. */
  lemma LeavesThroughClearing(p: Peer, steps: seq<Step>, s: Step)
    requires Initial(p)
    ensures var q := Run(p, steps);
            && (q.status == Established ==> var n := Next(q, s).status;
                n == Established || n == Clearing || n == Deleted)
            && (q.status == Clearing ==> var n := Next(q, s).status; n == Clearing || n == Idle || n == Deleted)
  {
    hide Run, Next;
    RunKeeps(p, steps);
    StepLeaves(Run(p, steps), s);
  }

  /** No peer is stuck in Clearing: from every such state of a run, at most the
      work queue's report and the handling of one pending event lead to Idle. */
  lemma NeverStuck(start: Peer, steps: seq<Step>, env: Env)
    requires Initial(start) && Run(start, steps).status == Clearing
    ensures var p := Run(start, steps);
            || (exists i :: 0 <= i < |p.events| && Next(p, Dispatch(i, env)).status == Idle)
            || (p.clearQueued && Next(Next(p, ClearQueueDone), Dispatch(|p.events|, env)).status == Idle)
  {
    hide Handled, Run;
    RunKeeps(start, steps);
    var p := Run(start, steps);
    if ClearingCompleted in p.events {
      var i :| 0 <= i < |p.events| && p.events[i] == ClearingCompleted;
      CompletionLeads(p, i, env);
    } else {
      var q := Next(p, ClearQueueDone);
      assert q.events[|p.events|] == ClearingCompleted;
      CompletionLeads(q, |p.events|, env);
    }
  }

  lemma CompletionLeads(p: Peer, i: nat, env: Env)
    requires p.status == Clearing && i < |p.events| && p.events[i] == ClearingCompleted
    ensures Next(p, Dispatch(i, env)).status == Idle
  {
    hide Handled;
    HandledStatus(p.(events := p.events[..i] + p.events[i + 1..]), ClearingCompleted, env);
  }

  // ------------------------------------------------------------------- timers

  /** After every event that proceeds, each timer is armed exactly as state, flags
      and hold time prescribe: one the action left running runs on, one it
      stopped or that is new is due after its full time. */
  lemma TimersExact(p: Peer, e: Event, env: Env)
    ensures var (q, proceed) := Handled(p, e, env);
            proceed ==> AsPrescribed(q, Acted(Table(p.status, e).0, p, env).0.t, env.random)
  {
    hide Table, Acted, ChangedStatus, TimerSet, AsPrescribed;
    var (a, next) := Table(p.status, e);
    var q := Acted(a, p, env).0;
    ChangedFacts(q, next, env);
    TimerSetPrescribes(if next != q.status then ChangedStatus(q, next, env) else q, env.random);
  }

  predicate Heard(e: Event) { e == ReceiveKeepalive || e == ReceiveUpdate }

  /** A KEEPALIVE or UPDATE restarts the hold timer; nothing else that leaves the
      session up does. */
  lemma HoldRestarts(p: Peer, e: Event, env: Env)
    requires p.status == Established && p.vHoldtime != 0
    ensures var q := Handled(p, e, env).0;
            && (Heard(e) ==> q.status == Established && q.t.hold == Some(p.clock + p.vHoldtime) && q.clock == p.clock
                             && q.vHoldtime == p.vHoldtime)
            && (!Heard(e) && q.status == Established && p.t.hold.Some? ==> q.t.hold == p.t.hold)
  {
    hide ChangedStatus, Started, StoppedWithNotify, Stopped;
    HandledStatus(p, e, env);
  }

  /** The session stays up, with the same hold time, all along a run. */
  predicate StaysUp(p: Peer, steps: seq<Step>, hold: nat)
    decreases |steps|
  {
    p.status == Established && p.vHoldtime == hold && (steps == [] || StaysUp(Next(p, steps[0]), steps[1..], hold))
  }

  predicate NotDueBefore(p: Peer, since: nat, hold: nat)
  {
    since <= p.clock && (p.t.hold.Some? ==> since + hold <= p.t.hold.value)
  }

  lemma HandledHold(p: Peer, e: Event, env: Env, since: nat)
    requires p.status == Established && p.vHoldtime != 0 && NotDueBefore(p, since, p.vHoldtime)
    ensures var q := Handled(p, e, env).0;
            q.status == Established && q.vHoldtime == p.vHoldtime ==> NotDueBefore(q, since, p.vHoldtime)
  {
    hide Table, Acted, ChangedStatus, TimerSet;
    var (a, next) := Table(p.status, e);
    TableFacts(p.status, e);
    HandledStatus(p, e, env);
    ActedHold(a, p, env);
    ChangedFacts(Acted(a, p, env).0, next, env);
    var q := Acted(a, p, env).0;
    TimerSetPrescribes(if next != q.status then ChangedStatus(q, next, env) else q, env.random);
  }

  lemma ActedHold(a: Action, p: Peer, env: Env)
    ensures var q := Acted(a, p, env).0; q.clock == p.clock && (q.t.hold == p.t.hold || q.t.hold == None)
  {
    hide Post, Stopped, Started, StoppedWithNotify, EstablishedNow;
    match a {
      case Ignore | KeepaliveExpire | ConnectSuccess | FsmOpen | FsmKeepalive | FsmUpdate =>
      case Start => StartedFacts(p, env);
      case Stop | ConnectFail | ClearingDone => StoppedFacts(p, env);
      case StopWithError => StoppedFacts(p.(vStart := BackOff(p.vStart)), env);
      case Reconnect => StoppedFacts(p, env); StartedFacts(Stopped(p, env), env);
      case HoldtimeExpire | EventError => NotifyFacts(p, env);
      case Establish => EstablishedFacts(p, env);
    }
  }

  lemma NextHold(p: Peer, s: Step, since: nat)
    requires p.status == Established && p.vHoldtime != 0 && NotDueBefore(p, since, p.vHoldtime)
    ensures var q := Next(p, s);
            q.status == Established && q.vHoldtime == p.vHoldtime ==> NotDueBefore(q, since, p.vHoldtime)
  {
    hide Handled, ChangedStatus, Stopped;
    match s {
      case Dispatch(i, env) =>
        if i < |p.events| { HandledHold(p.(events := p.events[..i] + p.events[i + 1..]), p.events[i], env, since); }
      case FireStart(env) => HandledHold(p.(t := p.t.(start := None)), BgpStart, env, since);
      case FireConnect(env) => HandledHold(p.(t := p.t.(connect := None)), ConnectRetryExpired, env, since);
      case FireHold(env) => HandledHold(p.(t := p.t.(hold := None)), HoldExpired, env, since);
      case FireKeepalive(env) => HandledHold(p.(t := p.t.(keepalive := None)), KeepaliveExpired, env, since);
      case Delete(env) => DeletedStatus(p, env);
      case _ =>
    }
  }

  lemma DeletedStatus(p: Peer, env: Env)
    requires p.status != Deleted
    ensures Next(p, Delete(env)).status == Deleted
  {
    hide Stopped, ChangedStatus;
    var q := if p.nsfWait then p.(nsfWait := false, t := p.t.(grRestart := None, grStale := None)) else p;
    ChangedFacts(Stopped(q, env), Deleted, env);
  }

  lemma {:induction false} HoldNotEarly(p: Peer, steps: seq<Step>, hold: nat, since: nat)
    requires hold != 0 && StaysUp(p, steps, hold) && NotDueBefore(p, since, hold)
    ensures NotDueBefore(Run(p, steps), since, hold)
    decreases |steps|
  {
    hide Next;
    if steps != [] {
      NextHold(p, steps[0], since);
      HoldNotEarly(Next(p, steps[0]), steps[1..], hold, since);
    }
  }

  /** However a run goes on while the session is up, the hold timer does not
      expire within the hold time after a KEEPALIVE or UPDATE. */
  lemma SessionOutlivesHoldTime(p: Peer, e: Event, env: Env, steps: seq<Step>)
    requires p.status == Established && p.vHoldtime != 0 && Heard(e)
    requires StaysUp(Handled(p, e, env).0, steps, p.vHoldtime)
    requires Run(Handled(p, e, env).0, steps).clock < p.clock + p.vHoldtime
    ensures var q := Run(Handled(p, e, env).0, steps); !Due(q, q.t.hold)
  {
    hide Handled, Run;
    HoldRestarts(p, e, env);
    HoldNotEarly(Handled(p, e, env).0, steps, p.vHoldtime, p.clock);
  }
}
