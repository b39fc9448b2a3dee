/** Histories of announcements, withdrawals, transmissions and flushes over all
    nodes and peers, and when the last word of one is what is held and heard. */
module AdjHistory {
  import opened Lists
  import opened AdjOut

  datatype Op =
    | SetOp(peer: Peer, node: Node, attr: Option<Attr>)
    | UnsetOp(peer: Peer, node: Node)
    | SentOp(peer: Peer, node: Node)
    | FlushOp(peer: Peer, node: Node)

  /** The bookkeeping for every peer, and what each neighbour was told. */
  datatype State = State(out: map<Peer, PeerOut>, told: map<Peer, map<Node, Attr>>)

  function Out(s: State, p: Peer): PeerOut { if p in s.out then s.out[p] else Nothing }
  function Told(s: State, p: Peer): map<Node, Attr> { if p in s.told then s.told[p] else map[] }

  /** The neighbour's table after the message that empties n's pending entry. */
  function Hears(o: PeerOut, n: Node, told: map<Node, Attr>): map<Node, Attr>
  {
    if n !in o.adj then told else
      match o.adj[n].adv
      case Some(Announce(Some(a))) => told[n := a]
      case Some(Withdraw) => told - {n}
      case _ => told
  }

  /** The attributes n waits to be announced with. */
  function Waiting(o: PeerOut, n: Node): Option<Attr>
  {
    if n in o.adj && o.adj[n].adv.Some? && o.adj[n].adv.value.Announce? then o.adj[n].adv.value.baa else None
  }

  /** A flush at n takes every entry that waits with n's attributes. */
  predicate Hits(o: PeerOut, n: Node, m: Node) { Waiting(o, n).Some? && Waiting(o, m) == Waiting(o, n) }

  ghost function FlushedAt(o: PeerOut, n: Node): PeerOut
  {
    if Ok(o) && Waiting(o, n).Some? then Flushed(o, n) else o
  }

  ghost function Apply(s: State, op: Op): State
  {
    match op
    case SetOp(p, n, attr) => s.(out := s.out[p := Set(Out(s, p), n, attr)])
    case UnsetOp(p, n) => s.(out := s.out[p := Unset(Out(s, p), n)])
    case SentOp(p, n) => State(s.out[p := Sent(Out(s, p), n)], s.told[p := Hears(Out(s, p), n, Told(s, p))])
    case FlushOp(p, n) => s.(out := s.out[p := FlushedAt(Out(s, p), n)])
  }

  ghost function Run(ops: seq<Op>): State
  {
    if ops == [] then State(map[], map[]) else Apply(Run(ops[..|ops| - 1]), ops[|ops| - 1])
  }

  /** The last word of a history on one node and peer: the attribute last set,
      None when it was unset last or never set. */
  function LastWord(ops: seq<Op>, p: Peer, n: Node): Option<Option<Attr>>
  {
    if ops == [] then None else
      match ops[|ops| - 1]
      case SetOp(q, m, attr) => if q == p && m == n then Some(attr) else LastWord(ops[..|ops| - 1], p, n)
      case UnsetOp(q, m) => if q == p && m == n then None else LastWord(ops[..|ops| - 1], p, n)
      case _ => LastWord(ops[..|ops| - 1], p, n)
  }

  /** Whether a flush took the entry of n since the last set or unset of it. */
  ghost predicate FlushHit(ops: seq<Op>, p: Peer, n: Node)
  {
    ops != [] &&
    match ops[|ops| - 1]
    case SetOp(q, m, _) => !(q == p && m == n) && FlushHit(ops[..|ops| - 1], p, n)
    case UnsetOp(q, m) => !(q == p && m == n) && FlushHit(ops[..|ops| - 1], p, n)
    case SentOp(_, _) => FlushHit(ops[..|ops| - 1], p, n)
    case FlushOp(q, m) =>
      || (q == p && Hits(Out(Run(ops[..|ops| - 1]), p), m, n))
      || FlushHit(ops[..|ops| - 1], p, n)
  }

  predicate SentRemembered(o: PeerOut, told: map<Node, Attr>)
  {
    && (forall n :: n in told ==> n in o.adj && o.adj[n].attr == Some(told[n]))
    && (forall n :: n in o.adj && o.adj[n].attr.Some? ==> n in told)
  }

  /** What a neighbour told of n holds. */
  function Heard(told: map<Node, Attr>, n: Node): Option<Option<Attr>>
  {
    if n in told then Some(Some(told[n])) else None
  }

  /** The attributes last put into a packet for n. */
  function SentBefore(o: PeerOut, n: Node): Option<Option<Attr>>
  {
    if n in o.adj && o.adj[n].attr.Some? then Some(o.adj[n].attr) else None
  }

  /** A flushed node: nothing is pending, so what was sent is what is held, and
      the last word was an announcement. */
  ghost predicate HitState(o: PeerOut, n: Node, word: Option<Option<Attr>>)
  {
    n in o.adj && o.adj[n].adv == None && word.Some? && word.value.Some?
  }

  /** What a history leaves at one node. */
  ghost predicate NodeOk(o: PeerOut, n: Node, word: Option<Option<Attr>>, hit: bool)
  {
    if hit then HitState(o, n, word) else Held(o, n) == word
  }

  // --------------------------------------------------------- each operation

  lemma SetStep(o: PeerOut, n: Node, attr: Option<Attr>, told: map<Node, Attr>)
    requires Ok(o) && SentRemembered(o, told)
    ensures var r := Set(o, n, attr);
            && Ok(r) && SentRemembered(r, told) && Held(r, n) == Some(attr)
            && (forall m :: m != n ==> (m in r.adj <==> m in o.adj) && (m in o.adj ==> r.adj[m] == o.adj[m]))
  {
    SetKeeps(o, n, attr);
    CleanedKeeps(o, n);
  }

  lemma UnsetStep(o: PeerOut, n: Node, told: map<Node, Attr>)
    requires Ok(o) && SentRemembered(o, told)
    ensures var r := Unset(o, n);
            && Ok(r) && SentRemembered(r, told) && Held(r, n) == None
            && (forall m :: m != n ==> (m in r.adj <==> m in o.adj) && (m in o.adj ==> r.adj[m] == o.adj[m]))
  {
    UnsetKeeps(o, n);
    CleanedKeeps(o, n);
  }

  lemma SentStep(o: PeerOut, n: Node, told: map<Node, Attr>)
    requires Ok(o) && SentRemembered(o, told)
    ensures var r := Sent(o, n);
            && Ok(r) && SentRemembered(r, Hears(o, n, told)) && Held(r, n) == Held(o, n)
            && (n in o.adj && o.adj[n].adv == None ==> r == o)
            && (forall m :: m != n ==> (m in r.adj <==> m in o.adj) && (m in o.adj ==> r.adj[m] == o.adj[m]))
  {
    SentKeeps(o, n);
    CleanedKeeps(o, n);
  }

  lemma FlushStep(o: PeerOut, n: Node, told: map<Node, Attr>)
    requires Ok(o) && SentRemembered(o, told)
    ensures var r := FlushedAt(o, n);
            && Ok(r) && SentRemembered(r, told) && r.adj.Keys == o.adj.Keys
            && (forall m :: m in o.adj ==> r.adj[m] == if Hits(o, n, m) then o.adj[m].(adv := None) else o.adj[m])
  {
    if Waiting(o, n).Some? {
      FlushedFacts(o, n);
      assert forall m :: AnnouncingWith(o, m, Waiting(o, n).value) <==> Waiting(o, m) == Waiting(o, n);
    }
  }

  /** Nodes an operation does not touch keep what they had. */
  lemma NodeKept(o: PeerOut, r: PeerOut, n: Node, word: Option<Option<Attr>>, hit: bool)
    requires (n in r.adj <==> n in o.adj) && (n in o.adj ==> r.adj[n] == o.adj[n]) && NodeOk(o, n, word, hit)
    ensures NodeOk(r, n, word, hit)
  {
  }

  lemma NodeFlushed(o: PeerOut, r: PeerOut, n: Node, word: Option<Option<Attr>>, hit: bool)
    requires NodeOk(o, n, word, hit) && Waiting(o, n).Some? && n in r.adj && r.adj[n] == o.adj[n].(adv := None)
    ensures NodeOk(r, n, word, true)
  {
  }

  // ------------------------------------------------------------ every history

  lemma Initially(n: Node)
    ensures Ok(Nothing) && SentRemembered(Nothing, map[]) && NodeOk(Nothing, n, None, false)
  {
  }

  /** After every history, over all nodes and peers, the bookkeeping is exact and
      what was sent is remembered; a node no flush took holds the last word, and
      one that was taken has nothing pending. */
  lemma {:induction false} EveryHistory(ops: seq<Op>, p: Peer, n: Node)
    ensures var s := Run(ops);
            && Ok(Out(s, p)) && SentRemembered(Out(s, p), Told(s, p))
            && NodeOk(Out(s, p), n, LastWord(ops, p, n), FlushHit(ops, p, n))
  {
    hide Ok, Set, Unset, Sent, FlushedAt, SentRemembered, Held, Hears, NodeOk, Hits;
    if ops == [] {
      Initially(n);
    } else {
      var before := ops[..|ops| - 1];
      EveryHistory(before, p, n);
      var o, told := Out(Run(before), p), Told(Run(before), p);
      var word, hit := LastWord(before, p, n), FlushHit(before, p, n);
      match ops[|ops| - 1] {
        case SetOp(q, m, attr) =>
          if q == p {
            SetStep(o, m, attr, told);
            if m == n { NodeSet(Set(o, m, attr), n, Some(attr)); } else { NodeKept(o, Set(o, m, attr), n, word, hit); }
          }
        case UnsetOp(q, m) =>
          if q == p {
            UnsetStep(o, m, told);
            if m == n { NodeSet(Unset(o, m), n, None); } else { NodeKept(o, Unset(o, m), n, word, hit); }
          }
        case SentOp(q, m) => if q == p { NodeSent(o, m, told, n, word, hit); }
        case FlushOp(q, m) =>
          if q == p {
            FlushStep(o, m, told);
            if Hits(o, m, n) { HitWaits(o, m, n); NodeFlushed(o, FlushedAt(o, m), n, word, hit); }
            else { NodeKept(o, FlushedAt(o, m), n, word, hit); }
          }
      }
    }
  }

  lemma HitWaits(o: PeerOut, m: Node, n: Node)
    requires Hits(o, m, n)
    ensures Waiting(o, n).Some? && n in o.adj
  {
  }

  lemma NodeSet(o: PeerOut, n: Node, word: Option<Option<Attr>>)
    requires Held(o, n) == word
    ensures NodeOk(o, n, word, false)
  {
  }

  lemma NodeSent(o: PeerOut, m: Node, told: map<Node, Attr>, n: Node, word: Option<Option<Attr>>, hit: bool)
    requires Ok(o) && SentRemembered(o, told) && NodeOk(o, n, word, hit)
    ensures Ok(Sent(o, m)) && SentRemembered(Sent(o, m), Hears(o, m, told)) && NodeOk(Sent(o, m), n, word, hit)
  {
    hide Ok, Sent, Hears, SentRemembered;
    SentStep(o, m, told);
  }

  /** bgp_adj_out_lookup answers whether the last operation was a set, unless a
      flush took the entry and the neighbour had been told nothing. */
  lemma LookupIsLastWord(ops: seq<Op>, p: Peer, n: Node)
    ensures (Lookup(Out(Run(ops), p), n) <==> LastWord(ops, p, n).Some?)
            <==> (FlushHit(ops, p, n) ==> n in Told(Run(ops), p))
  {
    hide Run, LastWord, FlushHit, Ok;
    EveryHistory(ops, p, n);
  }

  /** What is held for a node is the last word on it, attributes included, if and
      only if no flush took it since, or what was sent before is that word. */
  lemma HeldIsLastWord(ops: seq<Op>, p: Peer, n: Node)
    ensures Held(Out(Run(ops), p), n) == LastWord(ops, p, n) <==>
            !FlushHit(ops, p, n) || SentBefore(Out(Run(ops), p), n) == LastWord(ops, p, n)
  {
    hide Run, LastWord, FlushHit, Ok;
    EveryHistory(ops, p, n);
  }

  /** Once both FIFOs have drained, the neighbour holds the last word on a node
      under the same condition. */
  lemma DrainedNeighbourUpToDate(ops: seq<Op>, p: Peer, n: Node)
    requires var o := Out(Run(ops), p); o.update == [] && o.withdraw == []
    ensures Heard(Told(Run(ops), p), n) == LastWord(ops, p, n) <==>
            !FlushHit(ops, p, n) || SentBefore(Out(Run(ops), p), n) == LastWord(ops, p, n)
  {
    hide Run, LastWord, FlushHit;
    EveryHistory(ops, p, n);
    NothingPending(Out(Run(ops), p), n);
  }

  lemma NothingPending(o: PeerOut, n: Node)
    requires Ok(o) && o.update == [] && o.withdraw == []
    ensures n in o.adj ==> o.adj[n].adv == None
  {
    assert n !in o.update && n !in o.withdraw;
    assert !Announcing(o, n) && !Withdrawing(o, n);
  }

  /** One history in which it does not: the announcement is flushed, the FIFOs
      are empty, and the neighbour knows nothing of the route. */
  lemma FlushLosesRoute(p: Peer, n: Node, a: Attr)
    ensures var ops := [SetOp(p, n, Some(a)), FlushOp(p, n)];
            var o := Out(Run(ops), p);
            && o.update == [] && o.withdraw == [] && !Lookup(o, n)
            && LastWord(ops, p, n) == Some(Some(a)) && Heard(Told(Run(ops), p), n) == None
  {
    var one := [SetOp(p, n, Some(a))];
    var ops := [SetOp(p, n, Some(a)), FlushOp(p, n)];
    assert ops[..1] == one && one[..0] == [];
    var s := Run(one);
    assert s == Apply(Run([]), one[0]);
    EveryHistory(one, p, n);
    var o := Out(s, p);
    assert o == Set(Nothing, n, Some(a));
    assert o.adj == map[n := Adj(None, Some(Announce(Some(a))))];
    assert Run(ops) == Apply(s, ops[1]);
    FlushStep(o, n, map[]);
    EveryHistory(ops, p, n);
    var r := FlushedAt(o, n);
    assert r == Out(Run(ops), p);
    NoneLeft(r, n);
  }

  lemma NoneLeft(r: PeerOut, n: Node)
    requires Ok(r) && r.adj.Keys == {n} && r.adj[n].adv == None
    ensures r.update == [] && r.withdraw == []
  {
    assert forall m :: !Announcing(r, m) && !Withdrawing(r, m);
    SomeElement(r.update);
    SomeElement(r.withdraw);
  }

  lemma SomeElement(s: seq<Node>)
    ensures s == [] || exists m :: m in s
  {
    if s != [] { assert s[0] in s; }
  }

  lemma UsedAttributePending(o: PeerOut, a: Attr)
    requires Ok(o) && a in o.hash
    ensures o.updateCount > 0
  {
    var n := o.hash[a].list[0];
    assert OnList(o.hash, a, n);
    assert AnnouncingWith(o, n, a) && Announcing(o, n) && n in o.update;
  }

  /** An empty update FIFO leaves no advertise attribute behind. */
  lemma DrainedReleasesAttributes(ops: seq<Op>, p: Peer)
    requires Out(Run(ops), p).updateCount == 0
    ensures Out(Run(ops), p).hash == map[]
  {
    EveryHistory(ops, p, 0);
    var o := Out(Run(ops), p);
    forall a: Attr ensures a !in o.hash {
      if a in o.hash { UsedAttributePending(o, a); }
    }
  }
}
