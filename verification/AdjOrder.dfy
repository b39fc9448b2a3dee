/** What waits for transmission after a history and in which order, told from
    the history alone, and that sending it all brings the neighbour up to date
    (bgp_advertise.c). */
module AdjOrder {
  import opened Lists
  import opened AdjOut
  import opened AdjHistory

  // ----------------------------------------------------------- what is waiting

  /** An announcement waits: the last set was neither undone, sent nor flushed.
      One without attributes cannot be sent. */
  predicate ToAnnounce(ops: seq<Op>, p: Peer, n: Node)
  {
    ops != [] &&
    var before := ops[..|ops| - 1];
    match ops[|ops| - 1]
    case SetOp(q, m, _) => (q == p && m == n) || ToAnnounce(before, p, n)
    case UnsetOp(q, m) => !(q == p && m == n) && ToAnnounce(before, p, n)
    case SentOp(q, m) => ToAnnounce(before, p, n) && (q == p && m == n ==> LastWord(before, p, n) == Some(None))
    case FlushOp(q, m) =>
      && ToAnnounce(before, p, n)
      && !(q == p && ToAnnounce(before, p, m) && LastWord(before, p, m) == LastWord(before, p, n) != Some(None))
  }

  /** A withdrawal waits: the route was unset after the neighbour was told of it,
      and the withdrawal was not sent since. */
  ghost predicate ToWithdraw(ops: seq<Op>, p: Peer, n: Node)
  {
    ops != [] &&
    var before := ops[..|ops| - 1];
    match ops[|ops| - 1]
    case SetOp(q, m, _) => !(q == p && m == n) && ToWithdraw(before, p, n)
    case UnsetOp(q, m) => if q == p && m == n then n in Told(Run(before), p) else ToWithdraw(before, p, n)
    case SentOp(q, m) => !(q == p && m == n) && ToWithdraw(before, p, n)
    case FlushOp(q, m) => ToWithdraw(before, p, n)
  }

  lemma SetAdv(o: PeerOut, n: Node, attr: Option<Attr>)
    ensures var r := Set(o, n, attr); n in r.adj && r.adj[n].adv == Some(Announce(attr))
  {
  }

  lemma UnsetAdv(o: PeerOut, n: Node, told: map<Node, Attr>)
    requires SentRemembered(o, told)
    ensures var r := Unset(o, n); if n in told then Withdrawing(r, n) else n !in r.adj
  {
  }

  lemma SentAdv(o: PeerOut, n: Node)
    ensures var r := Sent(o, n);
            !Withdrawing(r, n) && (Announcing(r, n) <==> n in o.adj && o.adj[n].adv == Some(Announce(None)))
  {
  }

  lemma OnFifos(o: PeerOut, n: Node)
    requires Ok(o)
    ensures (n in o.update <==> Announcing(o, n)) && (n in o.withdraw <==> Withdrawing(o, n))
  {
  }

  /** What waits at a node is the last word on it. */
  lemma WaitingWord(ops: seq<Op>, p: Peer, n: Node)
    ensures var o := Out(Run(ops), p);
            Announcing(o, n) ==> LastWord(ops, p, n) == Some(o.adj[n].adv.value.baa)
  {
    hide Run, LastWord, FlushHit, Ok;
    EveryHistory(ops, p, n);
  }

  lemma HitsByWord(o: PeerOut, m: Node, n: Node, wordM: Option<Option<Attr>>, wordN: Option<Option<Attr>>)
    requires Announcing(o, m) ==> wordM == Some(o.adj[m].adv.value.baa)
    requires Announcing(o, n) ==> wordN == Some(o.adj[n].adv.value.baa)
    ensures Hits(o, m, n) <==> Announcing(o, m) && Announcing(o, n) && wordM == wordN != Some(None)
  {
  }

  /** The FIFOs hold exactly what waits. */
  lemma {:induction false} FifosHoldWaiting(ops: seq<Op>, p: Peer, n: Node)
    ensures var o := Out(Run(ops), p);
            (n in o.update <==> ToAnnounce(ops, p, n)) && (n in o.withdraw <==> ToWithdraw(ops, p, n))
    decreases |ops|, 0
  {
    hide Ok, Set, Unset, Sent, FlushedAt, Hears, SentRemembered, Hits, LastWord, FlushHit, NodeOk;
    if ops != [] {
      var before := ops[..|ops| - 1];
      FifosHoldWaiting(before, p, n);
      EveryHistory(before, p, n);
      EveryHistory(ops, p, n);
      var o, told := Out(Run(before), p), Told(Run(before), p);
      OnFifos(o, n);
      OnFifos(Out(Run(ops), p), n);
      match ops[|ops| - 1] {
        case SetOp(q, m, attr) =>
          if q == p {
            SetStep(o, m, attr, told);
            SetAdv(o, m, attr);
          }
        case UnsetOp(q, m) =>
          if q == p {
            UnsetStep(o, m, told);
            UnsetAdv(o, m, told);
          }
        case SentOp(q, m) =>
          if q == p {
            SentStep(o, m, told);
            SentAdv(o, m);
            WaitingWord(before, p, n);
          }
        case FlushOp(q, m) => if q == p { WaitingAfterFlush(before, m, p, n); }
      }
    }
  }

  lemma {:induction false} WaitingAfterFlush(before: seq<Op>, m: Node, p: Peer, n: Node)
    ensures var o := Out(Run(before), p);
            var r := FlushedAt(o, m);
            && (Withdrawing(r, n) <==> Withdrawing(o, n))
            && (Announcing(r, n) <==>
                  Announcing(o, n) &&
                  !(ToAnnounce(before, p, m) && LastWord(before, p, m) == LastWord(before, p, n) != Some(None)))
    decreases |before|, 1
  {
    hide Ok, FlushedAt, Hits, LastWord, ToAnnounce, Run, SentRemembered, FlushHit;
    var o, told := Out(Run(before), p), Told(Run(before), p);
    EveryHistory(before, p, n);
    FlushStep(o, m, told);
    WaitingWord(before, p, m);
    WaitingWord(before, p, n);
    HitsByWord(o, m, n, LastWord(before, p, m), LastWord(before, p, n));
    OnFifos(o, m);
    FifosHoldWaiting(before, p, m);
  }

  // ------------------------------------------------------------ sending it all

  function Sends(p: Peer, ns: seq<Node>): seq<Op>
  {
    if ns == [] then [] else Sends(p, ns[..|ns| - 1]) + [SentOp(p, ns[|ns| - 1])]
  }

  lemma {:induction false} AfterSends(ops: seq<Op>, p: Peer, ns: seq<Node>, n: Node)
    ensures var all := ops + Sends(p, ns);
            && LastWord(all, p, n) == LastWord(ops, p, n) && (FlushHit(all, p, n) <==> FlushHit(ops, p, n))
            && (ToAnnounce(all, p, n) <==> ToAnnounce(ops, p, n) && (n in ns ==> LastWord(ops, p, n) == Some(None)))
            && (ToWithdraw(all, p, n) <==> ToWithdraw(ops, p, n) && n !in ns)
  {
    hide Run;
    if ns == [] {
      assert ops + Sends(p, ns) == ops;
    } else {
      var some, last := ns[..|ns| - 1], ns[|ns| - 1];
      AfterSends(ops, p, some, n);
      var all := ops + Sends(p, ns);
      assert all[..|all| - 1] == ops + Sends(p, some) && all[|all| - 1] == SentOp(p, last);
      assert ns == some + [last];
    }
  }

  /** After sending everything that waits, nothing waits that can be sent, and
      the neighbour holds the last word on every node but those a flush took
      and those last set without attributes. */
  lemma SendingCatchesUp(ops: seq<Op>, p: Peer, n: Node)
    ensures var o := Out(Run(ops), p);
            var all := ops + Sends(p, o.update + o.withdraw);
            var r := Out(Run(all), p);
            && r.withdraw == []
            && (n in r.update <==> n in o.update && LastWord(ops, p, n) == Some(None))
            && (Heard(Told(Run(all), p), n) == LastWord(ops, p, n) <==>
                  && LastWord(ops, p, n) != Some(None)
                  && (FlushHit(ops, p, n) ==> SentBefore(r, n) == LastWord(ops, p, n)))
  {
    hide Run, ToAnnounce, ToWithdraw, LastWord, FlushHit, Ok;
    var o := Out(Run(ops), p);
    var ns := o.update + o.withdraw;
    var all := ops + Sends(p, ns);
    var r := Out(Run(all), p);
    forall m ensures m !in r.withdraw && (m in r.update <==> m in o.update && LastWord(ops, p, m) == Some(None)) {
      FifosHoldWaiting(ops, p, m);
      FifosHoldWaiting(all, p, m);
      AfterSends(ops, p, ns, m);
    }
    SomeElement(r.withdraw);
    EveryHistory(all, p, n);
    AfterSends(ops, p, ns, n);
    OnFifos(r, n);
    WaitingWord(all, p, n);
  }

  // ------------------------------------------------------------------ the order

  /** When a node was last set, or last unset; -1 for never. */
  function LastSet(ops: seq<Op>, p: Peer, n: Node): int
  {
    if ops == [] then -1
    else if ops[|ops| - 1].SetOp? && ops[|ops| - 1].peer == p && ops[|ops| - 1].node == n then |ops| - 1
    else LastSet(ops[..|ops| - 1], p, n)
  }

  function LastUnset(ops: seq<Op>, p: Peer, n: Node): int
  {
    if ops == [] then -1
    else if ops[|ops| - 1].UnsetOp? && ops[|ops| - 1].peer == p && ops[|ops| - 1].node == n then |ops| - 1
    else LastUnset(ops[..|ops| - 1], p, n)
  }

  lemma {:induction false} TimesPast(ops: seq<Op>, p: Peer, n: Node)
    ensures LastSet(ops, p, n) < |ops| && LastUnset(ops, p, n) < |ops|
  {
    if ops != [] { TimesPast(ops[..|ops| - 1], p, n); }
  }

  predicate Rising(s: seq<Node>, time: Node -> int) { forall i, j :: 0 <= i < j < |s| ==> time(s[i]) < time(s[j]) }
  predicate Falling(s: seq<Node>, time: Node -> int) { forall i, j :: 0 <= i < j < |s| ==> time(s[i]) > time(s[j]) }

  lemma {:induction false} UnlinkedOrder(s: seq<Node>, n: Node, time: Node -> int)
    ensures forall m :: m in Unlinked(s, n) ==> m in s
    ensures Rising(s, time) ==> Rising(Unlinked(s, n), time)
    ensures Falling(s, time) ==> Falling(Unlinked(s, n), time)
  {
    hide Rising, Falling;
    if s != [] {
      TailOrder(s, time);
      if s[0] != n {
        UnlinkedOrder(s[1..], n, time);
        HeadOrder(s[0], Unlinked(s[1..], n), time);
      }
    }
  }

  lemma TailOrder(s: seq<Node>, time: Node -> int)
    requires s != []
    ensures Rising(s, time) ==> Rising(s[1..], time) && forall m :: m in s[1..] ==> time(s[0]) < time(m)
    ensures Falling(s, time) ==> Falling(s[1..], time) && forall m :: m in s[1..] ==> time(s[0]) > time(m)
  {
  }

  lemma HeadOrder(x: Node, s: seq<Node>, time: Node -> int)
    ensures Rising(s, time) && (forall m :: m in s ==> time(x) < time(m)) ==> Rising([x] + s, time)
    ensures Falling(s, time) && (forall m :: m in s ==> time(x) > time(m)) ==> Falling([x] + s, time)
  {
    assert forall j :: 0 <= j < |s| ==> s[j] in s;
  }

  /** A newcomer later than all others, last or first. */
  lemma Joined(s: seq<Node>, n: Node, time: Node -> int, later: Node -> int)
    requires n !in s && forall m :: m != n ==> later(m) == time(m) < later(n)
    ensures Rising(s, time) ==> Rising(s + [n], later) && Rising(s, later)
    ensures Falling(s, time) ==> Falling([n] + s, later) && Falling(s, later)
  {
    assert forall i :: 0 <= i < |s| ==> s[i] != n;
  }

  /** The FIFOs run from the oldest set and unset to the newest, the list on an
      advertise attribute from the newest to the oldest. */
  ghost predicate Ordered(o: PeerOut, setAt: Node -> int, unsetAt: Node -> int)
  {
    && Rising(o.update, setAt) && Rising(o.withdraw, unsetAt)
    && forall a :: a in o.hash ==> Falling(o.hash[a].list, setAt)
  }

  lemma CleanOrdered(o: PeerOut, n: Node, setAt: Node -> int, unsetAt: Node -> int)
    requires Ordered(o, setAt, unsetAt) && n in o.adj && o.adj[n].adv.Some?
    ensures Ordered(Clean(o, n), setAt, unsetAt)
  {
    hide Rising, Falling;
    UnlinkedOrder(o.update, n, setAt);
    UnlinkedOrder(o.withdraw, n, unsetAt);
    forall a | a in o.hash ensures Falling(Unlinked(o.hash[a].list, n), setAt) {
      UnlinkedOrder(o.hash[a].list, n, setAt);
    }
  }

  lemma SetOrdered(
    o: PeerOut, n: Node, attr: Option<Attr>, setAt: Node -> int, later: Node -> int, unsetAt: Node -> int)
    requires Ok(o) && Ordered(o, setAt, unsetAt) && forall m :: m != n ==> later(m) == setAt(m) < later(n)
    ensures Ordered(Set(o, n, attr), later, unsetAt)
  {
    hide Rising, Falling, Unlinked;
    if n in o.adj && o.adj[n].adv.Some? { CleanOrdered(o, n, setAt, unsetAt); }
    CleanedKeeps(o, n);
    var q := Cleaned(o, n);
    assert !Announcing(q, n);
    Joined(q.update, n, setAt, later);
    forall a | a in q.hash
      ensures Falling(q.hash[a].list, later) && Falling([n] + q.hash[a].list, later)
    {
      assert !OnList(q.hash, a, n);
      Joined(q.hash[a].list, n, setAt, later);
    }
    Alone(n, later);
  }

  lemma Alone(n: Node, time: Node -> int)
    ensures Falling([n], time)
  {
  }

  lemma UnsetOrdered(o: PeerOut, n: Node, setAt: Node -> int, unsetAt: Node -> int, later: Node -> int)
    requires Ok(o) && Ordered(o, setAt, unsetAt) && forall m :: m != n ==> later(m) == unsetAt(m) < later(n)
    ensures Ordered(Unset(o, n), setAt, later)
  {
    hide Rising, Falling, Unlinked;
    if n in o.adj && o.adj[n].adv.Some? { CleanOrdered(o, n, setAt, unsetAt); }
    CleanedKeeps(o, n);
    var q := Cleaned(o, n);
    assert !Withdrawing(q, n);
    Joined(q.withdraw, n, unsetAt, later);
  }

  lemma SentOrdered(o: PeerOut, n: Node, setAt: Node -> int, unsetAt: Node -> int)
    requires Ordered(o, setAt, unsetAt)
    ensures Ordered(Sent(o, n), setAt, unsetAt)
  {
    hide Rising, Falling, Unlinked;
    if n in o.adj && o.adj[n].adv.Some? { CleanOrdered(o, n, setAt, unsetAt); }
  }

  lemma {:induction false} FlushedOrdered(o: PeerOut, n: Node, setAt: Node -> int, unsetAt: Node -> int)
    requires Ordered(o, setAt, unsetAt) && Ok(o) && Announcing(o, n) && o.adj[n].adv.value.baa.Some?
    ensures Ordered(Flushed(o, n), setAt, unsetAt)
    decreases |o.update|
  {
    hide Clean, Rising, Falling, Ordered;
    var a := o.adj[n].adv.value.baa.value;
    CleanOk(o, n);
    CleanOrdered(o, n, setAt, unsetAt);
    var q := Clean(o, n);
    if a in q.hash {
      var m := q.hash[a].list[0];
      NextAnnounces(q, a, m);
      FlushedOrdered(q, m, setAt, unsetAt);
    }
  }

  ghost function SetTimes(ops: seq<Op>, p: Peer): Node -> int { (n: Node) => LastSet(ops, p, n) }
  ghost function UnsetTimes(ops: seq<Op>, p: Peer): Node -> int { (n: Node) => LastUnset(ops, p, n) }

  lemma SameTimes(o: PeerOut, setAt: Node -> int, unsetAt: Node -> int, setLater: Node -> int, unsetLater: Node -> int)
    requires Ordered(o, setAt, unsetAt) && forall m :: setLater(m) == setAt(m) && unsetLater(m) == unsetAt(m)
    ensures Ordered(o, setLater, unsetLater)
  {
  }

  /** After every history both FIFOs are in the order of the operations that put
      their entries there, and every advertise attribute lists them backwards. */
  lemma {:induction false} FifosInOrder(ops: seq<Op>, p: Peer)
    ensures Ordered(Out(Run(ops), p), SetTimes(ops, p), UnsetTimes(ops, p))
  {
    hide Ok, Set, Unset, Sent, Ordered, Flushed;
    if ops == [] {
      NothingOrdered(SetTimes(ops, p), UnsetTimes(ops, p));
    } else {
      var before, op := ops[..|ops| - 1], ops[|ops| - 1];
      var o := Out(Run(before), p);
      var s, u, s', u' := SetTimes(before, p), UnsetTimes(before, p), SetTimes(ops, p), UnsetTimes(ops, p);
      FifosInOrder(before, p);
      EveryHistory(before, p, 0);
      forall m ensures s(m) < |before| && u(m) < |before| { TimesPast(before, p, m); }
      if op.peer == p && op.SetOp? {
        SetOrdered(o, op.node, op.attr, s, s', u);
        SameTimes(Set(o, op.node, op.attr), s', u, s', u');
      } else if op.peer == p && op.UnsetOp? {
        UnsetOrdered(o, op.node, s, u, u');
        SameTimes(Unset(o, op.node), s, u', s', u');
      } else {
        SameTimes(o, s, u, s', u');
        if op.SentOp? { SentOrdered(o, op.node, s', u'); }
        if op.FlushOp? && Waiting(o, op.node).Some? { FlushedOrdered(o, op.node, s', u'); }
      }
    }
  }

  lemma NothingOrdered(setAt: Node -> int, unsetAt: Node -> int)
    ensures Ordered(Nothing, setAt, unsetAt)
  {
  }
}
