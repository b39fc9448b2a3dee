/** Adj-RIB-Out bookkeeping of bgp_advertise.c for one address family: per-node
    adjacency lists, per-attribute advertise lists and two FIFOs per peer,
    acting as a map of last operations. */
module AdjOut {
  import opened Lists

  type Node = nat
  type Peer = nat
  type Attr = nat

  /** A pending advertisement: an announcement with its advertise attribute
      (none for a NULL attribute, whose baa is private), or a withdrawal. */
  datatype Adv = Announce(baa: Option<Attr>) | Withdraw

  /** bgp_adj_out: what was last sent, and what is pending. */
  datatype Adj = Adj(attr: Option<Attr>, adv: Option<Adv>)

  /** bgp_advertise_attr: its reference count and the advertisements on it. */
  datatype Baa = Baa(refcnt: nat, list: seq<Node>)

  /** Everything held for one peer; an advertisement is named by its node. */
  datatype PeerOut = PeerOut(
    adj: map<Node, Adj>,
    update: seq<Node>, updateCount: int,
    withdraw: seq<Node>, withdrawCount: int,
    hash: map<Attr, Baa>)

  const Nothing := PeerOut(map[], [], 0, [], 0, map[])

  // ------------------------------------------------------------ list deletion

  predicate NoDup(s: seq<Node>) { forall i, j :: 0 <= i < j < |s| ==> s[i] != s[j] }

  /** Unlink one element. */
  function Unlinked(s: seq<Node>, n: Node): seq<Node>
  {
    if s == [] then [] else if s[0] == n then s[1..] else [s[0]] + Unlinked(s[1..], n)
  }

  lemma {:induction false} UnlinkedElems(s: seq<Node>, n: Node)
    requires NoDup(s)
    ensures NoDup(Unlinked(s, n))
    ensures forall m :: m in Unlinked(s, n) <==> m in s && m != n
    ensures |Unlinked(s, n)| == |s| - if n in s then 1 else 0
  {
    if s != [] {
      assert s == [s[0]] + s[1..];
      assert forall m :: m in s[1..] ==> m != s[0];
      if s[0] != n {
        UnlinkedElems(s[1..], n);
        NoDupCons(s[0], Unlinked(s[1..], n));
      }
    }
  }

  lemma NoDupCons(x: Node, s: seq<Node>)
    requires NoDup(s) && x !in s
    ensures NoDup([x] + s) && NoDup(s + [x])
  {
  }

  // --------------------------------------------------------- the operations

  function Announced(a: Adj): bool
  {
    match a.adv
    case Some(Announce(_)) => true
    case Some(Withdraw) => false
    case None => a.attr.Some?
  }

  /** bgp_adj_out_lookup. */
  predicate Lookup(o: PeerOut, n: Node) { n in o.adj && Announced(o.adj[n]) }

  /** The attribute table after one advertisement less on a. */
  function Unreferenced(hash: map<Attr, Baa>, a: Attr, n: Node): map<Attr, Baa>
    requires a in hash
  {
    var refcnt := if hash[a].refcnt > 0 then hash[a].refcnt - 1 else 0;
    if refcnt == 0 then hash - {a} else hash[a := Baa(refcnt, Unlinked(hash[a].list, n))]
  }

  /** bgp_advertise_clean. */
  function Clean(o: PeerOut, n: Node): PeerOut
    requires n in o.adj && o.adj[n].adv.Some?
  {
    var q := o.(adj := o.adj[n := o.adj[n].(adv := None)]);
    match o.adj[n].adv.value
    case Withdraw => q.(withdraw := Unlinked(o.withdraw, n), withdrawCount := o.withdrawCount - 1)
    case Announce(b) =>
      var hash := if b.Some? && b.value in o.hash then Unreferenced(o.hash, b.value, n) else o.hash;
      q.(update := Unlinked(o.update, n), updateCount := o.updateCount - 1, hash := hash)
  }

  function Cleaned(o: PeerOut, n: Node): PeerOut
  {
    if n in o.adj && o.adj[n].adv.Some? then Clean(o, n) else o
  }

  /** The attribute table after bgp_advertise_intern and bgp_advertise_add. */
  function Referenced(hash: map<Attr, Baa>, a: Attr, n: Node): map<Attr, Baa>
  {
    if a in hash then hash[a := Baa(hash[a].refcnt + 1, [n] + hash[a].list)] else hash[a := Baa(1, [n])]
  }

  /** bgp_adj_out_set. */
  function Set(o: PeerOut, n: Node, attr: Option<Attr>): PeerOut
  {
    var q := Cleaned(o, n);
    var sent := if n in q.adj then q.adj[n].attr else None;
    q.(adj := q.adj[n := Adj(sent, Some(Announce(attr)))],
       hash := if attr.Some? then Referenced(q.hash, attr.value, n) else q.hash,
       update := q.update + [n], updateCount := q.updateCount + 1)
  }

  /** bgp_adj_out_unset. */
  function Unset(o: PeerOut, n: Node): PeerOut
  {
    if n !in o.adj then o else
      var q := Cleaned(o, n);
      if q.adj[n].attr.Some?
      then q.(adj := q.adj[n := q.adj[n].(adv := Some(Withdraw))],
              withdraw := q.withdraw + [n], withdrawCount := q.withdrawCount + 1)
      else q.(adj := q.adj - {n})
  }

  /** The pending advertisement for n goes into a packet: an announcement is
      remembered as sent, a withdrawal ends in bgp_adj_out_remove. An
      announcement without attribute cannot be encoded and stays. */
  function Sent(o: PeerOut, n: Node): PeerOut
  {
    if n !in o.adj then o else
      match o.adj[n].adv
      case Some(Announce(Some(a))) =>
        var q := Clean(o, n);
        q.(adj := q.adj[n := Adj(Some(a), None)])
      case Some(Withdraw) => var q := Clean(o, n); q.(adj := q.adj - {n})
      case _ => o
  }

  // -------------------------------------------------------------- the coupling

  predicate Announcing(o: PeerOut, n: Node) { n in o.adj && o.adj[n].adv.Some? && o.adj[n].adv.value.Announce? }
  predicate Withdrawing(o: PeerOut, n: Node) { n in o.adj && o.adj[n].adv == Some(Withdraw) }
  predicate AnnouncingWith(o: PeerOut, n: Node, a: Attr) { n in o.adj && o.adj[n].adv == Some(Announce(Some(a))) }

  /** Each pending entry is on exactly one FIFO, and the counts are exact. */
  ghost predicate FifosExact(o: PeerOut)
  {
    && NoDup(o.update) && o.updateCount == |o.update| && (forall n :: n in o.update <==> Announcing(o, n))
    && NoDup(o.withdraw) && o.withdrawCount == |o.withdraw| && (forall n :: n in o.withdraw <==> Withdrawing(o, n))
  }

  predicate OnList(hash: map<Attr, Baa>, a: Attr, n: Node) { a in hash && n in hash[a].list }

  /** Each advertise attribute is referenced once per advertisement on it. */
  ghost predicate AttrsExact(o: PeerOut)
  {
    && (forall a :: a in o.hash ==>
        o.hash[a].refcnt == |o.hash[a].list| && o.hash[a].list != [] && NoDup(o.hash[a].list))
    && (forall a, n :: OnList(o.hash, a, n) <==> AnnouncingWith(o, n, a))
  }

  ghost predicate Ok(o: PeerOut) { FifosExact(o) && AttrsExact(o) }

  lemma CleanFifos(o: PeerOut, n: Node)
    requires FifosExact(o) && n in o.adj && o.adj[n].adv.Some?
    ensures FifosExact(Clean(o, n))
  {
    UnlinkedElems(o.update, n);
    UnlinkedElems(o.withdraw, n);
    var q := Clean(o, n);
    assert forall m :: m != n ==> (m in q.adj <==> m in o.adj) && (m in o.adj ==> q.adj[m] == o.adj[m]);
  }

  lemma UnreferencedExact(hash: map<Attr, Baa>, a: Attr, n: Node)
    requires a in hash && hash[a].refcnt == |hash[a].list| && NoDup(hash[a].list) && n in hash[a].list
    ensures forall b, m :: OnList(Unreferenced(hash, a, n), b, m) <==> OnList(hash, b, m) && !(b == a && m == n)
    ensures var h := Unreferenced(hash, a, n);
            a in h ==> h[a].refcnt == |h[a].list| && h[a].list != [] && NoDup(h[a].list)
  {
    UnlinkedElems(hash[a].list, n);
    var l := hash[a].list;
    if |l| == 1 { assert l == [n]; }
  }

  lemma CleanAttrs(o: PeerOut, n: Node)
    requires AttrsExact(o) && n in o.adj && o.adj[n].adv.Some?
    ensures AttrsExact(Clean(o, n))
  {
    var q := Clean(o, n);
    assert forall m, a :: AnnouncingWith(q, m, a) <==> AnnouncingWith(o, m, a) && m != n;
    if Announcing(o, n) && o.adj[n].adv.value.baa.Some? {
      var a := o.adj[n].adv.value.baa.value;
      assert AnnouncingWith(o, n, a) && OnList(o.hash, a, n);
      UnreferencedExact(o.hash, a, n);
    }
  }

  /** What n is to look like at the neighbour: the attribute of an announcement
      pending or sent, None when withdrawn. */
  function Held(o: PeerOut, n: Node): Option<Option<Attr>>
  {
    if n !in o.adj then None else
      match o.adj[n].adv
      case Some(Announce(b)) => Some(b)
      case Some(Withdraw) => None
      case None => if o.adj[n].attr.Some? then Some(o.adj[n].attr) else None
  }

  lemma CleanedKeeps(o: PeerOut, n: Node)
    requires Ok(o)
    ensures var q := Cleaned(o, n); FifosExact(q) && AttrsExact(q)
    ensures var q := Cleaned(o, n);
            (n in q.adj <==> n in o.adj) && (n in q.adj ==> q.adj[n].adv == None && q.adj[n].attr == o.adj[n].attr)
    ensures var q := Cleaned(o, n);
            forall m :: m != n ==> (m in q.adj <==> m in o.adj) && (m in q.adj ==> q.adj[m] == o.adj[m])
  {
    if n in o.adj && o.adj[n].adv.Some? {
      CleanFifos(o, n);
      CleanAttrs(o, n);
    }
  }

  lemma SetKeeps(o: PeerOut, n: Node, attr: Option<Attr>)
    requires Ok(o)
    ensures Ok(Set(o, n, attr))
    ensures Held(Set(o, n, attr), n) == Some(attr)
    ensures forall m :: m != n ==> Held(Set(o, n, attr), m) == Held(o, m)
  {
    CleanedKeeps(o, n);
    var q := Cleaned(o, n);
    var r := Set(o, n, attr);
    SetFifos(q, n, r);
    SetAttrs(q, n, attr, r);
  }

  lemma SetFifos(q: PeerOut, n: Node, r: PeerOut)
    requires FifosExact(q) && (n in q.adj ==> q.adj[n].adv == None)
    requires n in r.adj && r.adj[n].adv.Some? && r.adj[n].adv.value.Announce?
    requires forall m :: m != n ==> (m in r.adj <==> m in q.adj) && (m in q.adj ==> r.adj[m] == q.adj[m])
    requires r.update == q.update + [n] && r.updateCount == q.updateCount + 1
    requires r.withdraw == q.withdraw && r.withdrawCount == q.withdrawCount
    ensures FifosExact(r)
  {
    assert !Announcing(q, n) && !Withdrawing(q, n);
    NoDupCons(n, q.update);
  }

  lemma SetAttrs(q: PeerOut, n: Node, attr: Option<Attr>, r: PeerOut)
    requires AttrsExact(q) && (n in q.adj ==> q.adj[n].adv == None)
    requires n in r.adj && r.adj[n].adv == Some(Announce(attr))
    requires forall m :: m != n ==> (m in r.adj <==> m in q.adj) && (m in q.adj ==> r.adj[m] == q.adj[m])
    requires r.hash == if attr.Some? then Referenced(q.hash, attr.value, n) else q.hash
    ensures AttrsExact(r)
  {
    assert forall a :: !AnnouncingWith(q, n, a) && !OnList(q.hash, a, n);
    assert forall a, m :: m != n ==> (AnnouncingWith(r, m, a) <==> AnnouncingWith(q, m, a));
    if attr.Some? && attr.value in q.hash {
      assert !OnList(q.hash, attr.value, n);
      NoDupCons(n, q.hash[attr.value].list);
    }
    forall a: Attr, m: Node ensures OnList(r.hash, a, m) <==> OnList(q.hash, a, m) || (m == n && attr == Some(a)) {
    }
  }

  lemma UnsetKeeps(o: PeerOut, n: Node)
    requires Ok(o)
    ensures Ok(Unset(o, n))
    ensures Held(Unset(o, n), n) == None
    ensures forall m :: m != n ==> Held(Unset(o, n), m) == Held(o, m)
  {
    CleanedKeeps(o, n);
    var q := Cleaned(o, n);
    var r := Unset(o, n);
    if n in o.adj {
      if q.adj[n].attr.Some? {
        assert !Announcing(q, n) && !Withdrawing(q, n);
        NoDupCons(n, q.withdraw);
      }
      QuietChange(q, n, r);
      FifosAfter(q, n, r);
    }
  }

  /** A change at a node that neither was nor becomes an announcement. */
  lemma QuietChange(q: PeerOut, n: Node, r: PeerOut)
    requires AttrsExact(q) && r.hash == q.hash
    requires !Announcing(q, n) && !Announcing(r, n)
    requires forall m :: m != n ==> (m in r.adj <==> m in q.adj) && (m in q.adj ==> r.adj[m] == q.adj[m])
    ensures AttrsExact(r)
  {
    assert forall a :: !AnnouncingWith(q, n, a) && !AnnouncingWith(r, n, a);
    assert forall a, m :: m != n ==> (AnnouncingWith(r, m, a) <==> AnnouncingWith(q, m, a));
  }

  lemma FifosAfter(q: PeerOut, n: Node, r: PeerOut)
    requires FifosExact(q) && !Announcing(q, n) && !Announcing(r, n) && !Withdrawing(q, n)
    requires forall m :: m != n ==> (m in r.adj <==> m in q.adj) && (m in q.adj ==> r.adj[m] == q.adj[m])
    requires r.update == q.update && r.updateCount == q.updateCount
    requires r.withdraw == (if Withdrawing(r, n) then q.withdraw + [n] else q.withdraw)
    requires r.withdrawCount == |r.withdraw|
    ensures FifosExact(r)
  {
    NoDupCons(n, q.withdraw);
    assert forall m :: m != n ==>
           (Announcing(r, m) <==> Announcing(q, m)) && (Withdrawing(r, m) <==> Withdrawing(q, m));
  }

  lemma SentKeeps(o: PeerOut, n: Node)
    requires Ok(o)
    ensures Ok(Sent(o, n))
    ensures forall m :: Held(Sent(o, n), m) == Held(o, m)
  {
    if n in o.adj && o.adj[n].adv.Some? && Sent(o, n) != o {
      CleanedKeeps(o, n);
      var q := Clean(o, n);
      var r := Sent(o, n);
      QuietChange(q, n, r);
      FifosAfter(q, n, r);
    }
  }

  // ------------------------------------------------------------------- flushing

  /** The entry flushed after those already flushed, if any is left. */
  ghost function NextFlushed(o: PeerOut, a: Attr): Option<Node>
    requires AttrsExact(o)
  {
    if a in o.hash then Some(o.hash[a].list[0]) else None
  }

  /** The attributes of n's announcement leave no room for a prefix: every entry
      waiting with the same attributes is cleaned, and no message goes out. */
  ghost function Flushed(o: PeerOut, n: Node): PeerOut
    requires Ok(o) && Announcing(o, n) && o.adj[n].adv.value.baa.Some?
    decreases |o.update|
  {
    var a := o.adj[n].adv.value.baa.value;
    CleanOk(o, n);
    var q := Clean(o, n);
    match NextFlushed(q, a)
    case None => q
    case Some(m) => NextAnnounces(q, a, m); Flushed(q, m)
  }

  lemma CleanOk(o: PeerOut, n: Node)
    requires Ok(o) && Announcing(o, n)
    ensures Ok(Clean(o, n)) && |Clean(o, n).update| == |o.update| - 1
  {
    CleanFifos(o, n);
    CleanAttrs(o, n);
    UnlinkedElems(o.update, n);
  }

  lemma NextAnnounces(o: PeerOut, a: Attr, m: Node)
    requires Ok(o) && a in o.hash && m == o.hash[a].list[0]
    ensures AnnouncingWith(o, m, a)
  {
    assert OnList(o.hash, a, m);
  }

  /** Exactly the entries with those attributes are gone, and nothing of what
      was sent is forgotten. */
  lemma {:induction false} FlushedFacts(o: PeerOut, n: Node)
    requires Ok(o) && Announcing(o, n) && o.adj[n].adv.value.baa.Some?
    ensures var a, r := o.adj[n].adv.value.baa.value, Flushed(o, n);
            && Ok(r) && a !in r.hash && r.adj.Keys == o.adj.Keys
            && (forall m :: m in o.adj ==>
                r.adj[m] == if AnnouncingWith(o, m, a) then o.adj[m].(adv := None) else o.adj[m])
    decreases |o.update|
  {
    hide Ok, Clean, AnnouncingWith;
    var a := o.adj[n].adv.value.baa.value;
    CleanOk(o, n);
    var q := Clean(o, n);
    CleanedOne(o, n, a);
    OkParts(q);
    if a in q.hash {
      var m := q.hash[a].list[0];
      NextAnnounces(q, a, m);
      AnnouncedWith(q, m, a);
      FlushedFacts(q, m);
    } else {
      forall m | m in o.adj && m != n ensures !AnnouncingWith(o, m, a) { NotAnnounced(q, m, a); }
    }
  }

  lemma CleanedOne(o: PeerOut, n: Node, a: Attr)
    requires Announcing(o, n) && o.adj[n].adv.value.baa == Some(a)
    ensures var q := Clean(o, n);
            && q.adj == o.adj[n := o.adj[n].(adv := None)] && AnnouncingWith(o, n, a) && !AnnouncingWith(q, n, a)
            && (forall m :: m != n ==> (AnnouncingWith(q, m, a) <==> AnnouncingWith(o, m, a)))
  {
  }

  lemma OkParts(o: PeerOut)
    requires Ok(o)
    ensures AttrsExact(o) && forall a :: a in o.hash ==> o.hash[a].list != []
  {
  }

  lemma AnnouncedWith(o: PeerOut, m: Node, a: Attr)
    requires AnnouncingWith(o, m, a)
    ensures Announcing(o, m) && o.adj[m].adv.value.baa == Some(a)
  {
  }

  lemma NotAnnounced(q: PeerOut, m: Node, a: Attr)
    requires Ok(q) && a !in q.hash
    ensures !AnnouncingWith(q, m, a)
  {
    assert !OnList(q.hash, a, m);
  }
}
