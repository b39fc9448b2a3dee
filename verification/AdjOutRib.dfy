/** The lists behind the Adj-RIB-Out: each node links its adjacencies, each peer
    owns two FIFOs and an attribute table, and all are updated in place. */
module AdjOutRib {
  import opened Lists
  import opened AdjOut

  datatype Entry = Entry(peer: Peer, adj: Adj)

  /** peer->sync and peer->hash. */
  datatype Sync = Sync(
    update: seq<Node>, updateCount: int,
    withdraw: seq<Node>, withdrawCount: int,
    hash: map<Attr, Baa>)

  // ------------------------------------------------------- a node's adjacencies

  predicate Once(l: seq<Entry>) { forall i, j :: 0 <= i < j < |l| ==> l[i].peer != l[j].peer }

  predicate FoundAt(l: seq<Entry>, p: Peer, i: nat)
  {
    i <= |l| && (forall j :: 0 <= j < i ==> l[j].peer != p) && (i < |l| ==> l[i].peer == p)
  }

  function AdjAt(l: seq<Entry>, p: Peer): Option<Adj>
  {
    if l == [] then None else if l[0].peer == p then Some(l[0].adj) else AdjAt(l[1..], p)
  }

  lemma {:induction false} AdjAtFound(l: seq<Entry>, p: Peer, i: nat)
    requires FoundAt(l, p, i)
    ensures AdjAt(l, p) == if i < |l| then Some(l[i].adj) else None
  {
    if i > 0 { AdjAtFound(l[1..], p, i - 1); }
  }

  lemma {:induction false} AdjAtAppend(l: seq<Entry>, m: seq<Entry>, p: Peer)
    ensures AdjAt(l + m, p) == if AdjAt(l, p).Some? then AdjAt(l, p) else AdjAt(m, p)
  {
    if l == [] {
      assert l + m == m;
    } else {
      assert (l + m)[1..] == l[1..] + m;
      AdjAtAppend(l[1..], m, p);
    }
  }

  lemma {:induction false} AdjAtAbsent(l: seq<Entry>, p: Peer)
    requires forall e :: e in l ==> e.peer != p
    ensures AdjAt(l, p) == None
  {
    if l != [] { AdjAtAbsent(l[1..], p); }
  }

  /** Replace the adjacency at i by entries, all of the same peer. */
  lemma Spliced(l: seq<Entry>, i: nat, entries: seq<Entry>)
    requires Once(l) && i < |l| && |entries| <= 1 && forall e :: e in entries ==> e.peer == l[i].peer
    ensures Once(l[..i] + entries + l[i + 1..])
    ensures AdjAt(l[..i] + entries + l[i + 1..], l[i].peer) == if entries == [] then None else Some(entries[0].adj)
    ensures forall q :: q != l[i].peer ==> AdjAt(l[..i] + entries + l[i + 1..], q) == AdjAt(l, q)
  {
    hide AdjAt;
    var p := l[i].peer;
    var r := l[..i] + entries + l[i + 1..];
    if entries == [] { AdjAtAbsent(r, p); } else { AdjAtFound(r, p, i); }
    forall q: Peer | q != p ensures AdjAt(r, q) == AdjAt(l, q) {
      assert l == l[..i] + [l[i]] + l[i + 1..];
      AdjAtAppend(l[..i] + [l[i]], l[i + 1..], q);
      AdjAtAppend(l[..i], [l[i]], q);
      AdjAtAppend(l[..i] + entries, l[i + 1..], q);
      AdjAtAppend(l[..i], entries, q);
      AdjAtAbsent([l[i]], q);
      AdjAtAbsent(entries, q);
    }
  }

  // --------------------------------------------------------------- a peer's view

  function List(nodes: map<Node, seq<Entry>>, n: Node): seq<Entry> { if n in nodes then nodes[n] else [] }

  ghost function AdjMap(nodes: map<Node, seq<Entry>>, p: Peer): map<Node, Adj>
  {
    map n | n in nodes && AdjAt(nodes[n], p).Some? :: AdjAt(nodes[n], p).value
  }

  lemma RelistedFor(nodes: map<Node, seq<Entry>>, n: Node, l: seq<Entry>, p: Peer)
    ensures AdjMap(nodes[n := l], p) ==
            match AdjAt(l, p) case Some(a) => AdjMap(nodes, p)[n := a] case None => AdjMap(nodes, p) - {n}
  {
    hide AdjAt;
  }

  lemma RelistedOther(nodes: map<Node, seq<Entry>>, n: Node, l: seq<Entry>, q: Peer)
    requires AdjAt(l, q) == AdjAt(List(nodes, n), q)
    ensures AdjMap(nodes[n := l], q) == AdjMap(nodes, q)
  {
    RelistedFor(nodes, n, l, q);
    if n !in nodes { assert AdjAt([], q) == None; }
  }

  /** Relinking one node's list changes one peer's view at that node. */
  lemma Relisted(nodes: map<Node, seq<Entry>>, n: Node, l: seq<Entry>, p: Peer)
    requires forall q :: q != p ==> AdjAt(l, q) == AdjAt(List(nodes, n), q)
    ensures AdjMap(nodes[n := l], p) ==
            match AdjAt(l, p) case Some(a) => AdjMap(nodes, p)[n := a] case None => AdjMap(nodes, p) - {n}
    ensures forall q :: q != p ==> AdjMap(nodes[n := l], q) == AdjMap(nodes, q)
  {
    hide AdjAt, AdjMap;
    RelistedFor(nodes, n, l, p);
    forall q: Peer | q != p ensures AdjMap(nodes[n := l], q) == AdjMap(nodes, q) {
      RelistedOther(nodes, n, l, q);
    }
  }

  class Rib {
    var nodes: map<Node, seq<Entry>>
    var peers: map<Peer, Sync>

    ghost predicate Valid()
      reads this
    {
      forall n :: n in nodes ==> Once(nodes[n])
    }

    ghost function View(p: Peer): PeerOut
      reads this
      requires p in peers
    {
      var s := peers[p];
      PeerOut(AdjMap(nodes, p), s.update, s.updateCount, s.withdraw, s.withdrawCount, s.hash)
    }

    /** The adjacency of p at n, or the end of the list. */
    method Find(n: Node, p: Peer) returns (i: nat)
      requires Valid() && p in peers
      ensures FoundAt(List(nodes, n), p, i)
      ensures var l, o := List(nodes, n), View(p); (i < |l| <==> n in o.adj) && (i < |l| ==> l[i].adj == o.adj[n])
    {
      var l := List(nodes, n);
      i := 0;
      while i < |l| && l[i].peer != p
        invariant i <= |l| && forall j :: 0 <= j < i ==> l[j].peer != p
      {
        i := i + 1;
      }
      AdjAtFound(l, p, i);
    }

    method Lookup(n: Node, p: Peer) returns (r: bool)
      requires Valid() && p in peers
      ensures r == AdjOut.Lookup(View(p), n)
    {
      var i := Find(n, p);
      var l := List(nodes, n);
      if i == |l| { return false; }
      var a := l[i].adj;
      return if a.adv.Some? then a.adv.value.Announce? else a.attr.Some?;
    }

    /** Relink the list of n with other entries for the adjacency at i. */
    method Splice(n: Node, i: nat, entries: seq<Entry>, ghost p: Peer)
      requires Valid() && n in nodes && i < |nodes[n]| && nodes[n][i].peer == p
      requires |entries| <= 1 && forall e :: e in entries ==> e.peer == p
      modifies this`nodes
      ensures Valid() && nodes == old(nodes)[n := old(nodes[n])[..i] + entries + old(nodes[n])[i + 1..]]
      ensures AdjMap(nodes, p) == if entries == [] then AdjMap(old(nodes), p) - {n}
              else AdjMap(old(nodes), p)[n := entries[0].adj]
      ensures forall q :: q != p ==> AdjMap(nodes, q) == AdjMap(old(nodes), q)
    {
      hide AdjAt, AdjMap;
      var l := nodes[n];
      Spliced(l, i, entries);
      Relisted(nodes, n, l[..i] + entries + l[i + 1..], p);
      nodes := nodes[n := l[..i] + entries + l[i + 1..]];
    }

    /** bgp_advertise_clean. */
    method Clean(n: Node, i: nat, p: Peer)
      requires Valid() && p in peers && n in nodes && FoundAt(nodes[n], p, i) && i < |nodes[n]|
      requires nodes[n][i].adj.adv.Some?
      modifies this
      ensures Valid() && peers.Keys == old(peers.Keys)
      ensures n in nodes && nodes[n] == old(nodes[n])[i := Entry(p, old(nodes[n])[i].adj.(adv := None))]
      ensures n in old(View(p)).adj && old(View(p)).adj[n] == old(nodes[n])[i].adj
      ensures View(p) == AdjOut.Clean(old(View(p)), n)
      ensures forall q :: q in peers && q != p ==> View(q) == old(View(q))
    {
      AdjAtFound(nodes[n], p, i);
      var a := nodes[n][i].adj;
      var s := peers[p];
      match a.adv.value {
        case Withdraw =>
          s := s.(withdraw := Unlinked(s.withdraw, n), withdrawCount := s.withdrawCount - 1);
        case Announce(b) =>
          if b.Some? && b.value in s.hash { s := s.(hash := Unreferenced(s.hash, b.value, n)); }
          s := s.(update := Unlinked(s.update, n), updateCount := s.updateCount - 1);
      }
      peers := peers[p := s];
      Splice(n, i, [Entry(p, a.(adv := None))], p);
    }

    /** The adjacency of p at n, made if missing, with nothing pending. */
    method Adjacency(n: Node, p: Peer) returns (i: nat, sent: Option<Attr>)
      requires Valid() && p in peers
      modifies this
      ensures Valid() && peers.Keys == old(peers.Keys)
      ensures n in nodes && i < |nodes[n]| && nodes[n][i].peer == p
      ensures var q := Cleaned(old(View(p)), n);
              && sent == (if n in q.adj then q.adj[n].attr else None)
              && View(p) == q.(adj := q.adj[n := Adj(sent, None)])
      ensures forall q :: q in peers && q != p ==> View(q) == old(View(q))
    {
      i := Find(n, p);
      if i == |List(nodes, n)| {
        Link(n, p);
        i, sent := 0, None;
      } else {
        sent := nodes[n][i].adj.attr;
        if nodes[n][i].adj.adv.Some? { Clean(n, i, p); }
      }
    }

    /** bgp_adj_out_set. */
    method Set(n: Node, p: Peer, attr: Option<Attr>)
      requires Valid() && p in peers
      modifies this
      ensures Valid() && peers.Keys == old(peers.Keys)
      ensures View(p) == AdjOut.Set(old(View(p)), n, attr)
      ensures forall q :: q in peers && q != p ==> View(q) == old(View(q))
    {
      hide FoundAt, AdjMap, AdjAt, Once, Cleaned, Referenced;
      var i, sent := Adjacency(n, p);
      ghost var q := Cleaned(old(View(p)), n);
      Splice(n, i, [Entry(p, Adj(sent, Some(Announce(attr))))], p);
      assert View(p).adj == q.adj[n := Adj(sent, Some(Announce(attr)))];
      var s := peers[p];
      var hash := if attr.Some? then Referenced(s.hash, attr.value, n) else s.hash;
      peers := peers[p := Sync(s.update + [n], s.updateCount + 1, s.withdraw, s.withdrawCount, hash)];
    }

    /** A fresh adjacency at the head of the list. */
    method Link(n: Node, p: Peer)
      requires Valid() && p in peers && FoundAt(List(nodes, n), p, |List(nodes, n)|)
      modifies this`nodes
      ensures Valid() && n in nodes && nodes[n] == [Entry(p, Adj(None, None))] + List(old(nodes), n)
      ensures AdjMap(nodes, p) == AdjMap(old(nodes), p)[n := Adj(None, None)]
      ensures forall q :: q != p ==> AdjMap(nodes, q) == AdjMap(old(nodes), q)
    {
      var l := List(nodes, n);
      var r := [Entry(p, Adj(None, None))] + l;
      assert r[1..] == l;
      Relisted(nodes, n, r, p);
      nodes := nodes[n := r];
    }

    /** bgp_adj_out_unset. */
    method Unset(n: Node, p: Peer)
      requires Valid() && p in peers
      modifies this
      ensures Valid() && peers.Keys == old(peers.Keys)
      ensures View(p) == AdjOut.Unset(old(View(p)), n)
      ensures forall q :: q in peers && q != p ==> View(q) == old(View(q))
    {
      var i := Find(n, p);
      if i == |List(nodes, n)| { return; }
      var sent := nodes[n][i].adj.attr;
      if nodes[n][i].adj.adv.Some? { Clean(n, i, p); }
      if sent.Some? {
        Splice(n, i, [Entry(p, Adj(sent, Some(Withdraw)))], p);
        var s := peers[p];
        peers := peers[p := s.(withdraw := s.withdraw + [n], withdrawCount := s.withdrawCount + 1)];
      } else {
        Splice(n, i, [], p);
      }
    }

    /** The pending entry of n is put into a packet. */
    method Send(n: Node, p: Peer)
      requires Valid() && p in peers
      modifies this
      ensures Valid() && peers.Keys == old(peers.Keys)
      ensures View(p) == AdjOut.Sent(old(View(p)), n)
      ensures forall q :: q in peers && q != p ==> View(q) == old(View(q))
    {
      var i := Find(n, p);
      if i == |List(nodes, n)| || nodes[n][i].adj.adv == None { return; }
      match nodes[n][i].adj.adv.value {
        case Withdraw =>
          Clean(n, i, p);
          Splice(n, i, [], p);
        case Announce(b) =>
          if b.Some? {
            Clean(n, i, p);
            Splice(n, i, [Entry(p, Adj(b, None))], p);
          }
      }
    }

    /** The flush of bgp_update_packet when attributes leave no room: entry after
        entry of one advertise attribute is cleaned. */
    method Flush(n: Node, p: Peer)
      requires Valid() && p in peers && Ok(View(p))
      requires Announcing(View(p), n) && View(p).adj[n].adv.value.baa.Some?
      modifies this
      ensures Valid() && peers.Keys == old(peers.Keys)
      ensures View(p) == AdjOut.Flushed(old(View(p)), n)
      ensures forall q :: q in peers && q != p ==> View(q) == old(View(q))
    {
      hide Ok, AdjMap, AdjAt, AdjOut.Clean, AdjOut.Flushed, AnnouncingWith;
      ghost var goal := AdjOut.Flushed(View(p), n);
      var cur, done := n, false;
      while !done
        invariant Valid() && peers.Keys == old(peers.Keys) && p in peers
        invariant forall q :: q in peers && q != p ==> View(q) == old(View(q))
        invariant Ok(View(p)) && (done ==> View(p) == goal)
        invariant !done ==> Announcing(View(p), cur) && View(p).adj[cur].adv.value.baa.Some?
                            && AdjOut.Flushed(View(p), cur) == goal
        decreases !done, |View(p).update|
      {
        var i := Find(cur, p);
        var a := nodes[cur][i].adj.adv.value.baa.value;
        FlushedStep(View(p), cur);
        CleanOk(View(p), cur);
        Clean(cur, i, p);
        if a in peers[p].hash {
          OkParts(View(p));
          cur := peers[p].hash[a].list[0];
          NextAnnounces(View(p), a, cur);
          AnnouncedWith(View(p), cur, a);
        } else {
          done := true;
        }
      }
    }
  }

  lemma FlushedStep(o: PeerOut, n: Node)
    requires Ok(o) && Announcing(o, n) && o.adj[n].adv.value.baa.Some?
    ensures var a := o.adj[n].adv.value.baa.value;
            var q := AdjOut.Clean(o, n);
            && Ok(q) && (a in q.hash ==> q.hash[a].list != [] && AnnouncingWith(q, q.hash[a].list[0], a))
            && Flushed(o, n) == if a in q.hash then Flushed(q, q.hash[a].list[0]) else q
  {
    var a := o.adj[n].adv.value.baa.value;
    CleanOk(o, n);
    var q := AdjOut.Clean(o, n);
    if a in q.hash { NextAnnounces(q, a, q.hash[a].list[0]); }
  }
}
