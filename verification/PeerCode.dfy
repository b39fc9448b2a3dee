/** struct peer as bgp_fsm.c changes it, field by field, against the steps of
    the state machine. */
module PeerCode {
  import opened Lists
  import opened PeerFsm

  class PeerObject {
    var status: Status
    var ostatus: Status
    var events: seq<Event>
    var clearQueued: bool
    var established: nat
    var dropped: nat
    var hasFd: bool
    var vStart: nat
    var vHoldtime: nat
    var vKeepalive: nat
    var nsfWait: bool
    var clock: nat
    var cfg: Config
    var t: Timers

    ghost function View(): Peer
      reads this
    {
      Peer(status, ostatus, events, clearQueued, established, dropped, hasFd, vStart, vHoldtime, vKeepalive, nsfWait,
           clock, t, cfg)
    }

    /** What BGP_TIMER_ON makes of a timer. */
    function Armed(timer: Timer, after: nat): Timer
      reads this`status, this`clock
    {
      if timer == None && status != Deleted then Some(clock + after) else timer
    }

    /** BGP_EVENT_ADD. */
    method EventAdd(e: Event)
      modifies this`events
      ensures events == if status == Deleted then old(events) else old(events) + [e]
    {
      if status != Deleted { events := events + [e]; }
    }

    /** bgp_stop: events are flushed except in Clearing, a drop is counted only
        out of Established, and every session timer is off. */
    method Stop(env: Env)
      modifies this`events, this`dropped, this`hasFd, this`vHoldtime, this`vKeepalive, this`t
      ensures events == if status == Clearing then old(events) else []
      ensures dropped == old(dropped) + if status == Established then 1 else 0
      ensures t.start == t.connect == t.hold == t.keepalive == t.routeadv == None && !hasFd
      ensures status != Established ==> t.grRestart == old(t.grRestart) && t.grStale == old(t.grStale)
      ensures View() == Stopped(old(View()), env)
    {
      hide StoppedTimers;
      if status != Clearing { events := []; }
      if status == Established { dropped := dropped + 1; }
      TimersKept(View(), env);
      StopTimers(env);
      hasFd := false;
      vKeepalive := cfg.keepalive;
      vHoldtime := cfg.holdtime;
    }

    method StopTimers(env: Env)
      modifies this`t
      ensures t == StoppedTimers(old(View()), env)
    {
      if status == Established {
        t := t.(grStale := None);
        if nsfWait { t := t.(grRestart := Armed(t.grRestart, env.grRestart), grStale := Armed(None, cfg.stale)); }
      }
      t := Timers(None, None, None, None, None, t.grRestart, t.grStale);
    }

    /** bgp_start. */
    method Start(env: Env) returns (ret: int)
      modifies this`events, this`hasFd
      ensures cfg.suppressed ==> ret < 0 && events == old(events)
      ensures old(events) <= events && |events| <= |old(events)| + 1
      ensures View() == Started(old(View()), env).0 && (ret >= 0 <==> Started(old(View()), env).1)
    {
      if cfg.suppressed { return -1; }
      if cfg.passive {
        EventAdd(TcpOpenFailed);
        return 0;
      }
      hasFd := env.fd;
      match env.connect {
        case ConnectError => EventAdd(TcpOpenFailed);
        case ConnectDone => EventAdd(TcpOpen);
        case ConnectInProgress => if !hasFd { return -1; }
      }
      return 0;
    }

    /** bgp_fsm_change_status: entering Clearing leaves a completion pending or
        the clear queue scheduled. */
    method ChangeStatus(s: Status, env: Env)
      modifies this`status, this`ostatus, this`events, this`clearQueued
      ensures status == s && ostatus == old(status)
      ensures s == Clearing && old(status) != Deleted ==> clearQueued || ClearingCompleted in events
      ensures s != Clearing && s != Deleted ==> events == old(events) && clearQueued == old(clearQueued)
      ensures View() == ChangedStatus(old(View()), s, env)
    {
      if s == Clearing || s == Deleted {
        clearQueued := clearQueued || env.routes;
        if !clearQueued { EventAdd(ClearingCompleted); }
      }
      ostatus := status;
      status := s;
    }

    /** bgp_stop_with_notify. */
    method StopWithNotify(env: Env)
      modifies this`events, this`dropped, this`hasFd, this`vHoldtime, this`vKeepalive, this`t, this`vStart
      ensures vStart == BGP_INIT_START_TIMER && dropped == old(dropped) + if status == Established then 1 else 0
      ensures View() == StoppedWithNotify(old(View()), env)
    {
      EventAdd(if env.notifyFails then TcpFatal else BgpStopWithError);
      vStart := BGP_INIT_START_TIMER;
      Stop(env);
    }

    /** bgp_establish: one session more, status and first advertisement set. */
    method EstablishSession(env: Env)
      modifies this`status, this`ostatus, this`events, this`clearQueued, this`vStart, this`established, this`nsfWait,
               this`t
      ensures status == Established && established == old(established) + 1 && t.routeadv.Some? && t.grRestart == None
      ensures events == old(events) && !nsfWait
      ensures View() == EstablishedNow(old(View()), env)
    {
      hide ChangedStatus;
      vStart := BGP_INIT_START_TIMER;
      established := established + 1;
      ChangeStatus(Established, env);
      hide EstablishedTimers;
      TimersStarted(View(), env);
      EstablishTimers(env);
      nsfWait := false;
    }

    method EstablishTimers(env: Env)
      modifies this`t
      ensures t == EstablishedTimers(old(View()), env)
    {
      if !env.nsf { t := t.(grStale := None); }
      t := t.(grRestart := None, routeadv := Armed(t.routeadv, 1));
    }

    /** bgp_timer_set. */
    method SetTimers(random: nat)
      modifies this`t
      ensures AsPrescribed(View(), old(t), random) && View() == TimerSet(old(View()), random)
    {
      hide TimersFor, AsPrescribed;
      TimerSetPrescribes(View(), random);
      SwitchTimers(random);
    }

    method SwitchTimers(random: nat)
      modifies this`t
      ensures t == TimersFor(old(View()), random)
    {
      hide StartDelay;
      var off := Timers(None, None, None, None, None, t.grRestart, t.grStale);
      match status {
        case Idle =>
          t := if cfg.suppressed || !cfg.active then off
               else off.(start := Armed(t.start, StartDelay(vStart, random)));
        case Connect => t := off.(connect := Armed(t.connect, cfg.connect));
        case Active => t := if cfg.passive || nsfWait then off else off.(connect := Armed(t.connect, cfg.connect));
        case OpenSent => t := if vHoldtime != 0 then off.(hold := Armed(t.hold, vHoldtime)) else off;
        case OpenConfirm =>
          SetSessionTimers();
          t := t.(routeadv := None);
        case Established => SetSessionTimers();
        case Clearing => t := off;
        case Deleted => t := off.(grRestart := None, grStale := None);
      }
    }

    /** The part OpenConfirm and Established share. */
    method SetSessionTimers()
      modifies this`t
      ensures t == old(t).(start := None, connect := None,
                           hold := if vHoldtime == 0 then None else Armed(old(t.hold), vHoldtime),
                           keepalive := if vHoldtime == 0 then None else Armed(old(t.keepalive), vKeepalive))
    {
      t := t.(start := None, connect := None);
      if vHoldtime == 0 {
        t := t.(hold := None, keepalive := None);
      } else {
        t := t.(hold := Armed(t.hold, vHoldtime), keepalive := Armed(t.keepalive, vKeepalive));
      }
    }

    /** The function of a table entry. */
    method Act(a: Action, env: Env) returns (ret: int)
      modifies this
      ensures View() == Acted(a, old(View()), env).0 && (ret >= 0 <==> Acted(a, old(View()), env).1)
    {
      hide Stopped, Started, StoppedWithNotify, EstablishedNow;
      ret := 0;
      match a {
        case Ignore | KeepaliveExpire =>
        case Start => ret := Start(env);
        case Stop | ConnectFail => Stop(env);
        case StopWithError =>
          vStart := BackOff(vStart);
          Stop(env);
        case ConnectSuccess => if !hasFd { ret := -1; }
        case Reconnect =>
          Stop(env);
          var ignored := Start(env);
        case FsmOpen | FsmKeepalive | FsmUpdate => t := t.(hold := None);
        case HoldtimeExpire | EventError => StopWithNotify(env);
        case Establish => EstablishSession(env);
        case ClearingDone =>
          Stop(env);
          events := [];
      }
    }

    /** bgp_event is one step of the machine, so an event dispatched in a state of
        a run leaves a state of a run: sessions made and lost stay balanced. */
    method BgpEvent(e: Event, env: Env) returns (ret: int)
      requires Balanced(View()) && TimersInPlace(View()) && BackOffBounded(View())
      requires ClearingCompleted in events ==> status == Clearing || status == Deleted
      requires e == ClearingCompleted ==> status == Clearing || status == Deleted
      requires status == Clearing && e != ClearingCompleted ==> ClearingCompleted in events || clearQueued
      modifies this
      ensures View() == Handled(old(View()), e, env).0 && (ret >= 0 <==> Handled(old(View()), e, env).1)
      ensures Inv(View())
    {
      hide Table, Acted, ChangedStatus, TimerSet, Inv;
      HandledKeeps(View(), e, env);
      var next := Table(status, e).1;
      ret := Act(Table(status, e).0, env);
      if ret >= 0 {
        if next != status { ChangeStatus(next, env); }
        SetTimers(env.random);
      }
    }
  }

  lemma TimersStarted(p: Peer, env: Env)
    requires p.status == Established
    ensures EstablishedTimers(p, env).routeadv.Some? && EstablishedTimers(p, env).grRestart == None
  {
  }

  /** What bgp_stop's timers do not depend on. */
  lemma TimersKept(p: Peer, env: Env)
    ensures forall q: Peer :: q == p.(events := q.events, dropped := q.dropped) ==>
            StoppedTimers(q, env) == StoppedTimers(p, env)
    ensures var t := StoppedTimers(p, env);
            && t.start == t.connect == t.hold == t.keepalive == t.routeadv == None
            && (p.status != Established ==> t.grRestart == p.t.grRestart && t.grStale == p.t.grStale)
  {
  }
}
