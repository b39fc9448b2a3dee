/** Multipath chains of bgp_mpath.c: doubly linked lists of routes, relinked in
    place, against a fresh greedy selection. */
module Multipath {

  /** A route (bgp_info) with its lazily allocated multipath element. The next
      hop and peer are compared as keys. */
  class Info {
    const nexthop: int
    const peer: int
    const ibgp: bool
    var mpath: bool      // element allocated
    var next: Info?      // mp_next
    var prev: Info?      // mp_prev
    var count: nat       // mp_count
    var multi: bool      // BGP_INFO_MULTIPATH
    var changed: bool    // BGP_INFO_MULTIPATH_CHG

    constructor (nexthop: int, peer: int, ibgp: bool)
      ensures Free() && !changed && count == 0
      ensures this.nexthop == nexthop && this.peer == peer && this.ibgp == ibgp
    {
      this.nexthop, this.peer, this.ibgp := nexthop, peer, ibgp;
      mpath, next, prev, count, multi, changed := false, null, null, 0, false, false;
    }

    /** On no chain. */
    ghost predicate Free()
      reads this
    {
      next == null && prev == null && !multi && (!mpath ==> count == 0)
    }
  }

  predicate Distinct(c: seq<Info>) { forall i, j :: 0 <= i < j < |c| ==> c[i] != c[j] }

  /** The links of c spell exactly c. */
  ghost predicate Chain(c: seq<Info>)
    reads c
  {
    && Distinct(c)
    && (forall i {:trigger c[i].prev} :: 0 <= i < |c| ==> c[i].prev == if i == 0 then null else c[i - 1])
    && (forall i {:trigger c[i].next} :: 0 <= i < |c| ==> c[i].next == if i == |c| - 1 then null else c[i + 1])
    && (forall i {:trigger c[i].mpath} :: 0 <= i < |c| && |c| > 1 ==> c[i].mpath)
    && (forall i {:trigger c[i].count} :: 0 <= i < |c| && !c[i].mpath ==> c[i].count == 0)
  }

  function Just(o: Info?): set<Info> { if o == null then {} else {o} }

  /** bgp_info_mpath_dequeue. */
  method Dequeue(x: Info)
    modifies x`next, x`prev, x`multi, Just(x.prev)`next, Just(x.next)`prev
    ensures old(x.mpath) && old(x.prev) != null && old(x.prev) != x ==> old(x.prev).next == old(x.next)
    ensures old(x.mpath) && old(x.next) != null && old(x.next) != x ==> old(x.next).prev == old(x.prev)
    ensures old(x.mpath) ==> x.next == null && x.prev == null && !x.multi
    ensures !old(x.mpath) ==> unchanged(x, old(Just(x.prev)), old(Just(x.next)))
  {
    if !x.mpath { return; }
    if x.prev != null { x.prev.next := x.next; }
    if x.next != null { x.next.prev := x.prev; }
    x.next, x.prev := null, null;
    x.multi := false;
  }

  /** bgp_info_mpath_enqueue. */
  method Enqueue(prev: Info, x: Info)
    requires prev != x && prev.next != x
    modifies prev`mpath, prev`next, x`mpath, x`next, x`prev, x`multi, Just(prev.next)`prev
    ensures x.next == old(prev.next) && x.prev == prev && prev.next == x && x.multi && x.mpath && prev.mpath
    ensures old(prev.next) != null ==> old(prev.next).prev == x
    ensures old(prev.next) != prev ==> prev.prev == old(prev.prev)
  {
    prev.mpath := true;
    x.mpath := true;
    x.next := prev.next;
    x.prev := prev;
    if prev.next != null { prev.next.prev := x; }
    prev.next := x;
    x.multi := true;
  }

  function Without(c: seq<Info>, k: nat): (r: seq<Info>)
    requires k < |c|
    ensures |r| == |c| - 1
    ensures forall i :: 0 <= i < |r| ==> r[i] == if i < k then c[i] else c[i + 1]
  {
    c[..k] + c[k + 1..]
  }

  /** bgp_info_mpath_count_set. */
  method CountSet(x: Info, count: nat)
    requires !x.mpath ==> x.count == 0
    modifies x`mpath, x`count
    ensures x.count == count && (old(x.mpath) ==> x.mpath) && (!x.mpath ==> count == 0)
  {
    if count == 0 && !x.mpath { return; }
    x.mpath := true;
    x.count := count;
  }

  // --------------------------------------------------- the fresh selection

  /** The multipaths a walk of the sorted candidates picks from scratch: never
      the best path, never the next hop just taken, at most max in all. */
  function Greedy(mp: seq<Info>, best: Info, last: Info, count: nat, max: nat): seq<Info>
  {
    if mp == [] then []
    else if count < max && mp[0] != best && last.nexthop != mp[0].nexthop
    then [mp[0]] + Greedy(mp[1..], best, mp[0], count + 1, max)
    else Greedy(mp[1..], best, last, count, max)
  }

  predicate Before(x: Info, y: Info)
  {
    x.nexthop < y.nexthop || (x.nexthop == y.nexthop && x.peer < y.peer)
  }

  predicate Sorted(mp: seq<Info>) { forall i, j :: 0 <= i < j < |mp| ==> Before(mp[i], mp[j]) }

  // ------------------------------------------------------------- the world

  /** All routes of a prefix: `rest` is what is left of the old chain, `built`
      the new chain with its head, everything else is on no chain. */
  ghost predicate World(all: set<Info>, rest: seq<Info>, built: seq<Info>)
    reads all, rest, built
  {
    && (forall y :: y in rest ==> y in all && y !in built && y.multi)
    && (forall y :: y in built ==> y in all)
    && (forall i {:trigger built[i]} :: 0 < i < |built| ==> built[i].multi)
    && (built != [] ==> !built[0].multi)
    && (forall y :: y in all && y.multi ==> y.mpath)
    && Chain(rest) && Chain(built)
    && (forall y :: y in all && y !in rest && y !in built ==> y.Free())
  }

  /** Dequeue seen on the chain x is the k-th of. */
  method DequeueFrom(x: Info, ghost c: seq<Info>, ghost k: nat)
    requires Chain(c) && k < |c| && c[k] == x && (x.multi ==> x.mpath)
    modifies c
    ensures Chain(Without(c, k)) && x.Free()
    ensures forall y :: y in c && y != x ==> y.multi == old(y.multi)
    ensures forall y :: y in c ==> y.count == old(y.count) && y.changed == old(y.changed) && y.mpath == old(y.mpath)
  {
    Dequeue(x);
  }

  ghost function IndexOf(x: Info, c: seq<Info>): (k: nat)
    requires x in c
    ensures k < |c| && c[k] == x
  {
    var k :| 0 <= k < |c| && c[k] == x; k
  }

  lemma WithoutElems(c: seq<Info>, k: nat)
    requires Distinct(c) && k < |c|
    ensures forall y :: y in Without(c, k) <==> y in c && y != c[k]
  {
    var r := Without(c, k);
    forall y | y in c && y != c[k] ensures y in r {
      var i :| 0 <= i < |c| && c[i] == y;
      assert y == if i < k then r[i] else r[i - 1];
    }
  }

  /** Take the k-th off what is left of the old chain. */
  method UnlinkMember(x: Info, ghost all: set<Info>, ghost rest: seq<Info>, ghost built: seq<Info>, ghost k: nat)
    requires World(all, rest, built) && k < |rest| && x == rest[k]
    modifies all
    ensures World(all, Without(rest, k), built) && x.Free()
    ensures forall y :: y in all ==> y.count == old(y.count) && y.changed == old(y.changed)
  {
    WithoutElems(rest, k);
    DequeueFrom(x, rest, k);
  }

  /** Dequeue a route that is on no chain: nothing happens. */
  method UnlinkFree(x: Info, ghost all: set<Info>, ghost rest: seq<Info>, ghost built: seq<Info>)
    requires World(all, rest, built) && x in all && x.Free()
    modifies all
    ensures World(all, rest, built) && x.Free()
    ensures forall y :: y in all ==> y.count == old(y.count) && y.changed == old(y.changed)
  {
    Dequeue(x);
    assert unchanged(all);
  }

  /** Dequeue x wherever it is on the old chain, if it is on it. Both branches
      are the one call; the flag tells the proof which case it is. */
  method Unlink(x: Info, ghost all: set<Info>, ghost rest: seq<Info>, ghost built: seq<Info>)
      returns (ghost rest': seq<Info>)
    requires World(all, rest, built) && x in all && x !in built
    modifies all
    ensures World(all, rest', built) && x.Free()
    ensures rest' == if x in rest then Without(rest, IndexOf(x, rest)) else rest
    ensures forall y :: y in all ==> y.count == old(y.count) && y.changed == old(y.changed)
  {
    rest' := if x in rest then Without(rest, IndexOf(x, rest)) else rest;
    if x.multi {
      UnlinkMember(x, all, rest, built, IndexOf(x, rest));
    } else {
      UnlinkFree(x, all, rest, built);
    }
  }

  /** Put a free route at the end of the new chain. */
  method Link(prev: Info, x: Info, ghost all: set<Info>, ghost rest: seq<Info>, ghost built: seq<Info>)
    requires World(all, rest, built) && x in all && x !in rest && x !in built
    requires built != [] && prev == built[|built| - 1]
    modifies all
    ensures World(all, rest, built + [x])
    ensures forall y :: y in all ==> y.count == old(y.count) && y.changed == old(y.changed)
  {
    Enqueue(prev, x);
  }

  // ------------------------------------------------------- progress of the walk

  function First(c: seq<Info>): Info? { if c == [] then null else c[0] }

  /** Where the walk stands: the first i candidates are done, `picked` of them
      are taken, `rest` of the old members rest0 are still to be met. */
  ghost predicate Progress(mp: seq<Info>, i: nat, best: Info, max: nat, picked: seq<Info>,
                           rest0: seq<Info>, rest: seq<Info>, changed: bool)
  {
    && i <= |mp|
    && Distinct(rest) && best !in rest && best !in picked
    && (forall y :: y in picked ==> y in mp[..i])
    && picked + Greedy(mp[i..], best, Last(best, picked), 1 + |picked|, max) == Greedy(mp, best, best, 1, max)
    && (!changed ==> rest0 == picked + rest)
    && (changed ==> Parted(mp[i..], picked, rest0))
  }

  function Last(best: Info, picked: seq<Info>): Info { if picked == [] then best else picked[|picked| - 1] }

  /** Whatever is still to come, the new chain cannot be the old one. */
  ghost predicate Parted(todo: seq<Info>, picked: seq<Info>, rest0: seq<Info>)
  {
    !(picked <= rest0) || exists x :: x in rest0 && x !in todo && x !in picked
  }

  lemma PartedStays(todo: seq<Info>, picked: seq<Info>, rest0: seq<Info>)
    requires todo != [] && Parted(todo, picked, rest0)
    ensures Parted(todo[1..], picked, rest0) && Parted(todo[1..], picked + [todo[0]], rest0)
  {
    if picked <= rest0 {
      var x :| x in rest0 && x !in todo && x !in picked;
      assert x !in todo[1..] && x !in picked + [todo[0]];
    } else {
      assert !(picked + [todo[0]] <= rest0);
    }
  }

  lemma SortedDistinct(mp: seq<Info>, i: nat)
    requires Sorted(mp) && i < |mp|
    ensures mp[i] !in mp[..i] && mp[i] !in mp[i + 1..]
  {
    assert forall j :: 0 <= j < |mp| && j != i ==> mp[j] != mp[i];
  }

  predicate Wanted(m: Info, best: Info, picked: seq<Info>, max: nat)
  {
    1 + |picked| < max && m != best && Last(best, picked).nexthop != m.nexthop
  }

  lemma {:induction false} GreedyStep(mp: seq<Info>, i: nat, best: Info, max: nat, picked: seq<Info>)
    requires i < |mp|
    ensures var now := picked + Greedy(mp[i..], best, Last(best, picked), 1 + |picked|, max);
            if Wanted(mp[i], best, picked, max)
            then now == (picked + [mp[i]]) + Greedy(mp[i + 1..], best, mp[i], 2 + |picked|, max)
            else now == picked + Greedy(mp[i + 1..], best, Last(best, picked), 1 + |picked|, max)
  {
    assert mp[i..][1..] == mp[i + 1..];
  }

  /** The candidate is taken; in the first case it is also the next old member. */
  lemma {:induction false} Take(mp: seq<Info>, i: nat, best: Info, max: nat, picked: seq<Info>,
             rest0: seq<Info>, rest: seq<Info>, rest': seq<Info>, changed: bool)
    requires Progress(mp, i, best, max, picked, rest0, rest, changed)
    requires i < |mp| && Sorted(mp) && Wanted(mp[i], best, picked, max)
    requires Distinct(rest') && forall y :: y in rest' ==> y in rest
    ensures rest != [] && rest[0] == mp[i] && rest' == rest[1..]
            ==> Progress(mp, i + 1, best, max, picked + [mp[i]], rest0, rest', changed)
    ensures First(rest) != mp[i] ==> Progress(mp, i + 1, best, max, picked + [mp[i]], rest0, rest', true)
  {
    hide Greedy;
    GreedyStep(mp, i, best, max, picked);
    assert mp[..i + 1] == mp[..i] + [mp[i]];
    assert mp[i..][1..] == mp[i + 1..];
    if changed {
      PartedStays(mp[i..], picked, rest0);
    } else if First(rest) == mp[i] {
      assert picked + rest == picked + [mp[i]] + rest[1..];
    } else {
      assert rest != [] ==> (picked + rest)[|picked|] == rest[0];
      assert (picked + [mp[i]])[|picked|] == mp[i];
    }
  }

  /** The candidate is passed over; the old members are left as they are. */
  lemma {:induction false} Skip(mp: seq<Info>, i: nat, best: Info, max: nat, picked: seq<Info>,
             rest0: seq<Info>, rest: seq<Info>, changed: bool)
    requires Progress(mp, i, best, max, picked, rest0, rest, changed)
    requires i < |mp| && !Wanted(mp[i], best, picked, max)
    ensures Progress(mp, i + 1, best, max, picked, rest0, rest, changed)
  {
    hide Greedy;
    GreedyStep(mp, i, best, max, picked);
    assert mp[..i + 1] == mp[..i] + [mp[i]];
    assert mp[i..][1..] == mp[i + 1..];
    if changed { PartedStays(mp[i..], picked, rest0); }
  }

  /** The next old member is dropped and will not come up again. */
  lemma {:induction false} Drop(mp: seq<Info>, i: nat, best: Info, max: nat, picked: seq<Info>,
             rest0: seq<Info>, rest: seq<Info>, changed: bool)
    requires Progress(mp, i, best, max, picked, rest0, rest, changed)
    requires rest != [] && rest[0] !in mp[i..] && rest[0] !in picked
    ensures Progress(mp, i, best, max, picked, rest0, rest[1..], true)
  {
    hide Greedy;
    if !changed {
      assert rest0[|picked|] == rest[0];
      assert rest[0] in rest0;
    }
  }

  // ------------------------------------------------------------------ the walk

  function Head(best: Info?): seq<Info> { if best == null then [] else [best] }

  /** Unlinking x leaves the front alone unless x is the front. */
  lemma UnlinkedRest(x: Info, rest: seq<Info>, rest': seq<Info>)
    requires Distinct(rest) && rest' == if x in rest then Without(rest, IndexOf(x, rest)) else rest
    ensures Distinct(rest') && x !in rest' && |rest'| <= |rest|
    ensures forall y :: y in rest' ==> y in rest
    ensures First(rest) == x ==> rest' == rest[1..]
    ensures First(rest) != x ==> First(rest') == First(rest)
  {
    if x in rest { WithoutElems(rest, IndexOf(x, rest)); }
  }

  lemma WorldFirst(all: set<Info>, rest: seq<Info>, built: seq<Info>)
    requires World(all, rest, built) && rest != []
    ensures rest[0].next == First(rest[1..]) && rest[0] in all && rest[0] !in built && rest[0] in rest
  {
  }

  lemma BeforeAll(x: Info, mp: seq<Info>, i: nat)
    requires Sorted(mp) && i <= |mp| && (i < |mp| ==> Before(x, mp[i]))
    ensures x !in mp[i..]
  {
    forall j | i <= j < |mp| ensures mp[j] != x { }
  }

  /** What every turn of the walk keeps. */
  ghost predicate Walking(all: set<Info>, mp: seq<Info>, i: nat, best: Info, max: nat, picked: seq<Info>,
                          rest0: seq<Info>, rest: seq<Info>, changed: bool)
    reads all, rest, picked, best
  {
    && i <= |mp| && Sorted(mp) && (forall y :: y in mp ==> y in all)
    && World(all, rest, [best] + picked)
    && Progress(mp, i, best, max, picked, rest0, rest, changed)
  }

  /** A candidate is linked to the end of the new chain. */
  method LinkPicked(prev: Info, m: Info, best: Info, ghost all: set<Info>, ghost rest: seq<Info>,
                    ghost picked: seq<Info>)
    requires World(all, rest, [best] + picked) && m in all && m !in rest && m != best && m !in picked
    requires prev == Last(best, picked)
    modifies all
    ensures World(all, rest, [best] + (picked + [m]))
    ensures forall y :: y in all ==> y.count == old(y.count) && y.changed == old(y.changed)
  {
    hide World, Chain;
    Link(prev, m, all, rest, [best] + picked);
    assert [best] + (picked + [m]) == [best] + picked + [m];
  }

  /** The next old multipath is the next candidate: keep it if it is wanted. */
  method StillCandidate(cur: Info, prev: Info, count: nat, mp: seq<Info>, i: nat, best: Info, max: nat,
      changed: bool, ghost all: set<Info>, ghost picked: seq<Info>, ghost rest0: seq<Info>, ghost rest: seq<Info>)
      returns (prev': Info, count': nat, changed': bool, ghost picked': seq<Info>)
    requires Walking(all, mp, i, best, max, picked, rest0, rest, changed)
    requires i < |mp| && mp[i] == cur && First(rest) == cur && prev == Last(best, picked) && count == 1 + |picked|
    modifies all
    ensures Walking(all, mp, i + 1, best, max, picked', rest0, rest[1..], changed')
    ensures prev' == Last(best, picked') && count' == 1 + |picked'|
    ensures forall y :: y in all ==> y.count == old(y.count) && y.changed == old(y.changed)
  {
    hide World, Greedy, Sorted, Progress, Chain, Distinct;
    NotYetPicked(mp, i, best, max, picked, rest0, rest, changed);
    ProgressDistinct(mp, i, best, max, picked, rest0, rest, changed);
    WorldFirst(all, rest, [best] + picked);
    ghost var rest1 := Unlink(cur, all, rest, [best] + picked);
    UnlinkedRest(cur, rest, rest1);
    if count < max && prev.nexthop != cur.nexthop {
      Take(mp, i, best, max, picked, rest0, rest, rest1, changed);
      LinkPicked(prev, cur, best, all, rest1, picked);
      prev', count', changed', picked' := cur, count + 1, changed, picked + [cur];
    } else {
      Skip(mp, i, best, max, picked, rest0, rest, changed);
      DropDone(mp, i, best, max, picked, rest0, rest, changed);
      prev', count', changed', picked' := prev, count, true, picked;
    }
  }

  /** An old multipath that is no candidate any more is dropped. */
  method NoLongerCandidate(cur: Info, mp: seq<Info>, i: nat, best: Info, max: nat,
      ghost changed: bool, ghost all: set<Info>, ghost picked: seq<Info>, ghost rest0: seq<Info>, ghost rest: seq<Info>)
    requires Walking(all, mp, i, best, max, picked, rest0, rest, changed)
    requires First(rest) == cur && (i < |mp| ==> Before(cur, mp[i]))
    modifies all
    ensures Walking(all, mp, i, best, max, picked, rest0, rest[1..], true)
    ensures forall y :: y in all ==> y.count == old(y.count) && y.changed == old(y.changed)
  {
    hide World, Greedy, Sorted, Progress, Chain, Distinct, Before;
    ProgressDistinct(mp, i, best, max, picked, rest0, rest, changed);
    WorldFirst(all, rest, [best] + picked);
    BeforeAll(cur, mp, i);
    Drop(mp, i, best, max, picked, rest0, rest, changed);
    ghost var rest1 := Unlink(cur, all, rest, [best] + picked);
    UnlinkedRest(cur, rest, rest1);
  }

  /** A candidate that is not the next old multipath, though it may be a later
      one. (The source also moves a saved pointer it does not read again.) */
  method OtherCandidate(cur: Info?, prev: Info, count: nat, mp: seq<Info>, i: nat, best: Info, max: nat,
      changed: bool, ghost all: set<Info>, ghost picked: seq<Info>, ghost rest0: seq<Info>, ghost rest: seq<Info>)
      returns (prev': Info, count': nat, changed': bool, ghost picked': seq<Info>, ghost rest': seq<Info>)
    requires Walking(all, mp, i, best, max, picked, rest0, rest, changed)
    requires i < |mp| && mp[i] != cur && First(rest) == cur && prev == Last(best, picked) && count == 1 + |picked|
    modifies all
    ensures Walking(all, mp, i + 1, best, max, picked', rest0, rest', changed')
    ensures prev' == Last(best, picked') && count' == 1 + |picked'|
    ensures First(rest') == cur && |rest'| <= |rest|
    ensures forall y :: y in all ==> y.count == old(y.count) && y.changed == old(y.changed)
  {
    hide World, Greedy, Sorted, Progress, Chain, Distinct;
    var m := mp[i];
    if count < max && m != best && prev.nexthop != m.nexthop {
      NotYetPicked(mp, i, best, max, picked, rest0, rest, changed);
      ProgressDistinct(mp, i, best, max, picked, rest0, rest, changed);
      rest' := Unlink(m, all, rest, [best] + picked);
      UnlinkedRest(m, rest, rest');
      Take(mp, i, best, max, picked, rest0, rest, rest', changed);
      LinkPicked(prev, m, best, all, rest', picked);
      prev', count', changed', picked' := m, count + 1, true, picked + [m];
    } else {
      Skip(mp, i, best, max, picked, rest0, rest, changed);
      prev', count', changed', picked', rest' := prev, count, changed, picked, rest;
    }
  }

  /** The ordered walk of bgp_info_mpath_update over the candidates and what is
      left of the old chain. */
  method Walk(best: Info, first: Info?, mp: seq<Info>, max: nat, ghost all: set<Info>, ghost rest0: seq<Info>)
      returns (count: nat, changed: bool, ghost picked: seq<Info>)
    requires World(all, rest0, [best]) && first == First(rest0)
    requires Sorted(mp) && (forall y :: y in mp ==> y in all)
    modifies all
    ensures picked == Greedy(mp, best, best, 1, max) && World(all, [], [best] + picked)
    ensures count == 1 + |picked|
    ensures changed <==> picked != rest0
    ensures forall y :: y in all ==> y.count == old(y.count) && y.changed == old(y.changed)
  {
    hide World, Greedy, Sorted, Before, Progress, Chain, Distinct, Last;
    var cur, prev, i := first, best, 0;
    ghost var rest := rest0;
    count, changed, picked := 1, false, [];
    LastOfNone(best);
    ProgressStart(mp, best, max, rest0, all);
    assert [best] + picked == [best];
    while i < |mp| || cur != null
      invariant Walking(all, mp, i, best, max, picked, rest0, rest, changed)
      invariant cur == First(rest) && prev == Last(best, picked) && count == 1 + |picked|
      invariant forall y :: y in all ==> y.count == old(y.count) && y.changed == old(y.changed)
      decreases |mp| - i + |rest|
    {
      if cur == null && count >= max { break; }
      if cur != null { WorldFirst(all, rest, [best] + picked); }
      var next := if cur != null then cur.next else null;
      if i < |mp| && mp[i] == cur {
        prev, count, changed, picked :=
          StillCandidate(mp[i], prev, count, mp, i, best, max, changed, all, picked, rest0, rest);
        rest, cur, i := rest[1..], next, i + 1;
      } else if cur != null && (i == |mp| || Before(cur, mp[i])) {
        NoLongerCandidate(cur, mp, i, best, max, changed, all, picked, rest0, rest);
        rest, changed, cur := rest[1..], true, next;
      } else {
        prev, count, changed, picked, rest :=
          OtherCandidate(cur, prev, count, mp, i, best, max, changed, all, picked, rest0, rest);
        i := i + 1;
      }
    }
    ProgressEnd(mp, i, best, max, picked, rest0, rest, changed);
  }

  lemma LastOfNone(best: Info)
    ensures Last(best, []) == best
  {
  }

  lemma {:induction false} ProgressStart(mp: seq<Info>, best: Info, max: nat, rest0: seq<Info>, all: set<Info>)
    requires World(all, rest0, [best])
    ensures Progress(mp, 0, best, max, [], rest0, rest0, false)
  {
    hide Greedy;
    assert mp[0..] == mp;
    assert [] + Greedy(mp, best, best, 1, max) == Greedy(mp, best, best, 1, max);
    assert [] + rest0 == rest0;
    assert best in [best];
  }

  lemma ProgressDistinct(mp: seq<Info>, i: nat, best: Info, max: nat, picked: seq<Info>,
                         rest0: seq<Info>, rest: seq<Info>, changed: bool)
    requires Progress(mp, i, best, max, picked, rest0, rest, changed)
    ensures Distinct(rest)
  {
  }

  lemma NotYetPicked(mp: seq<Info>, i: nat, best: Info, max: nat, picked: seq<Info>,
                     rest0: seq<Info>, rest: seq<Info>, changed: bool)
    requires Progress(mp, i, best, max, picked, rest0, rest, changed) && Sorted(mp) && i < |mp|
    ensures mp[i] !in picked
  {
    SortedDistinct(mp, i);
  }

  lemma {:induction false} DropDone(mp: seq<Info>, i: nat, best: Info, max: nat, picked: seq<Info>,
                 rest0: seq<Info>, rest: seq<Info>, changed: bool)
    requires Progress(mp, i + 1, best, max, picked, rest0, rest, changed)
    requires i < |mp| && Sorted(mp) && rest != [] && rest[0] == mp[i] && mp[i] !in picked
    ensures Progress(mp, i + 1, best, max, picked, rest0, rest[1..], true)
  {
    SortedDistinct(mp, i);
    Drop(mp, i + 1, best, max, picked, rest0, rest, changed);
  }

  lemma {:induction false} GreedyFull(mp: seq<Info>, best: Info, last: Info, count: nat, max: nat)
    requires mp == [] || count >= max
    ensures Greedy(mp, best, last, count, max) == []
  {
    if mp != [] { GreedyFull(mp[1..], best, last, count, max); }
  }

  lemma {:induction false} ProgressEnd(mp: seq<Info>, i: nat, best: Info, max: nat, picked: seq<Info>,
                    rest0: seq<Info>, rest: seq<Info>, changed: bool)
    requires Progress(mp, i, best, max, picked, rest0, rest, changed) && rest == []
    requires i == |mp| || 1 + |picked| >= max
    ensures picked == Greedy(mp, best, best, 1, max)
    ensures changed <==> picked != rest0
  {
    GreedyFull(mp[i..], best, Last(best, picked), 1 + |picked|, max);
    assert picked + [] == picked;
  }

  // ---------------------------------------------------------------- the update

  /** The old chain with its head, as the routes of a prefix hold it. */
  function Old(oldBest: Info?, chain: seq<Info>): seq<Info>
  {
    if oldBest == null then [] else [oldBest] + chain
  }

  /** The old members still to be met once the new best path is off the chain. */
  ghost function Remaining(newBest: Info?, chain: seq<Info>): seq<Info>
  {
    if newBest != null && newBest in chain then Without(chain, IndexOf(newBest, chain)) else chain
  }

  /** Take a route other than the head off the old chain before the walk. */
  method DropNewBest(newBest: Info, oldBest: Info?, ghost all: set<Info>, ghost chain: seq<Info>)
    requires World(all, [], Old(oldBest, chain)) && newBest in all && newBest != oldBest
    requires oldBest == null ==> chain == []
    modifies all
    ensures World(all, [], Old(oldBest, Remaining(newBest, chain)))
    ensures forall y :: y in all ==> y.count == old(y.count) && y.changed == old(y.changed)
  {
    hide World, Chain;
    Flagged(all, oldBest, chain, newBest);
    if newBest.multi {
      ghost var k := IndexOf(newBest, chain);
      WithoutOld(oldBest, chain, k);
      UnlinkBuilt(newBest, all, Old(oldBest, chain), k + 1);
    } else {
      UnlinkFree(newBest, all, [], Old(oldBest, chain));
    }
  }

  lemma WithoutOld(oldBest: Info?, chain: seq<Info>, k: nat)
    requires oldBest != null && k < |chain|
    ensures Without(Old(oldBest, chain), k + 1) == Old(oldBest, Without(chain, k))
    ensures Old(oldBest, chain)[k + 1] == chain[k]
  {
  }

  /** Off the head, a route is flagged exactly when it is on the chain. */
  lemma Flagged(all: set<Info>, oldBest: Info?, chain: seq<Info>, x: Info)
    requires World(all, [], Old(oldBest, chain)) && x in all && x != oldBest
    requires oldBest == null ==> chain == []
    ensures x.multi <==> x in chain
    ensures !x.multi ==> x.Free()
  {
    var c := Old(oldBest, chain);
    if x in chain {
      var i :| 0 <= i < |chain| && chain[i] == x;
      assert c[i + 1] == x;
    } else {
      assert x !in c;
    }
  }

  method UnlinkBuilt(x: Info, ghost all: set<Info>, ghost c: seq<Info>, ghost k: nat)
    requires World(all, [], c) && 0 < k < |c| && x == c[k]
    modifies all
    ensures World(all, [], Without(c, k))
    ensures forall y :: y in all ==> y.count == old(y.count) && y.changed == old(y.changed)
  {
    WithoutElems(c, k);
    DequeueFrom(x, c, k);
  }

  method UnlinkHead(x: Info, ghost all: set<Info>, ghost c: seq<Info>)
    requires World(all, [], c) && c != [] && x == c[0]
    modifies all
    ensures World(all, c[1..], [])
    ensures forall y :: y in all ==> y.count == old(y.count) && y.changed == old(y.changed)
  {
    WithoutElems(c, 0);
    assert Without(c, 0) == c[1..];
    DequeueFrom(x, c, 0);
  }

  /** Unlink the old best path from the chain it heads. */
  method DropOldBest(oldBest: Info, ghost all: set<Info>, ghost chain: seq<Info>)
    requires World(all, [], [oldBest] + chain)
    modifies all
    ensures World(all, chain, [])
    ensures forall y :: y in all ==> y.count == old(y.count) && y.changed == old(y.changed)
  {
    hide World, Chain;
    ghost var c := [oldBest] + chain;
    assert c[0] == oldBest && c[1..] == chain;
    UnlinkHead(oldBest, all, c);
  }

  lemma AddHead(all: set<Info>, rest: seq<Info>, best: Info)
    requires World(all, rest, []) && best in all && best !in rest
    ensures World(all, rest, [best])
  {
  }

  lemma RemainingWithout(newBest: Info?, chain: seq<Info>)
    requires Distinct(chain)
    ensures newBest != null ==> newBest !in Remaining(newBest, chain)
    ensures newBest != null && newBest in chain ==> |Remaining(newBest, chain)| == |chain| - 1
    ensures newBest == null || newBest !in chain ==> Remaining(newBest, chain) == chain
  {
    if newBest != null && newBest in chain { WithoutElems(chain, IndexOf(newBest, chain)); }
  }

  lemma OldChainDistinct(all: set<Info>, oldBest: Info, chain: seq<Info>)
    requires World(all, [], [oldBest] + chain)
    ensures Distinct(chain) && oldBest !in chain
    ensures oldBest in all && oldBest.next == First(chain)
    ensures !oldBest.mpath ==> oldBest.count == 0
  {
    var c := [oldBest] + chain;
    assert c[0] == oldBest && forall i :: 0 <= i < |chain| ==> chain[i] == c[i + 1];
  }

  lemma {:induction false} GreedyFrom(mp: seq<Info>, best: Info, last: Info, count: nat, max: nat)
    ensures forall y :: y in Greedy(mp, best, last, count, max) ==> y in mp && y != best
    ensures Greedy(mp, best, last, count, max) == [] || count + |Greedy(mp, best, last, count, max)| <= max
  {
    if mp != [] {
      if count < max && mp[0] != best && last.nexthop != mp[0].nexthop {
        GreedyFrom(mp[1..], best, mp[0], count + 1, max);
      } else {
        GreedyFrom(mp[1..], best, last, count, max);
      }
    }
  }

  /** Changing a count leaves every chain as it is. */
  method SetCount(x: Info, count: nat, ghost all: set<Info>, ghost rest: seq<Info>, ghost built: seq<Info>)
    requires World(all, rest, built) && x in all
    modifies x`mpath, x`count
    ensures World(all, rest, built) && x.count == count
  {
    assert !x.mpath ==> x.count == 0 by {
      if x in rest { var i :| 0 <= i < |rest| && rest[i] == x; }
      if x in built { var i :| 0 <= i < |built| && built[i] == x; }
    }
    CountSet(x, count);
  }

  /** The walk when there is no new best path, hence no candidate: every old
      multipath is dropped. */
  method Purge(first: Info?, ghost all: set<Info>, ghost rest0: seq<Info>)
    requires World(all, rest0, []) && first == First(rest0)
    modifies all
    ensures World(all, [], [])
    ensures forall y :: y in all ==> y.count == old(y.count) && y.changed == old(y.changed)
  {
    hide World, Chain;
    var cur := first;
    ghost var rest := rest0;
    while cur != null
      invariant World(all, rest, []) && cur == First(rest)
      invariant forall y :: y in all ==> y.count == old(y.count) && y.changed == old(y.changed)
      decreases |rest|
    {
      WorldFirst(all, rest, []);
      WorldDistinct(all, rest, []);
      var next := cur.next;
      ghost var rest1 := Unlink(cur, all, rest, []);
      UnlinkedRest(cur, rest, rest1);
      rest, cur := rest1, next;
    }
  }

  lemma WorldDistinct(all: set<Info>, rest: seq<Info>, built: seq<Info>)
    requires World(all, rest, built)
    ensures Distinct(rest) && Distinct(built)
  {
  }

  /** Everything before the walk: the new best path and then the old one come
      off the old chain; the walk starts at what was first on it. */
  method Prepare(newBest: Info?, oldBest: Info?, ghost all: set<Info>, ghost chain: seq<Info>)
      returns (cur: Info?, oldCount: nat)
    requires World(all, [], Old(oldBest, chain)) && (oldBest == null ==> chain == [])
    requires newBest != null ==> newBest in all
    modifies all
    ensures World(all, Remaining(newBest, chain), Head(newBest)) && cur == First(Remaining(newBest, chain))
    ensures oldCount == if oldBest == null then 0 else old(oldBest.count)
    ensures oldBest != null ==> oldBest.count == 0
    ensures forall y :: y in all ==> y.changed == old(y.changed)
    ensures forall y :: y in all && y != oldBest ==> y.count == old(y.count)
  {
    hide World, Chain;
    cur, oldCount := null, 0;
    if oldBest != null { OldChainDistinct(all, oldBest, chain); }
    RemainingWithout(newBest, chain);
    ghost var rest := Remaining(newBest, chain);
    if newBest != null && newBest != oldBest {
      DropNewBest(newBest, oldBest, all, chain);
    }
    if oldBest != null {
      assert rest == chain || newBest != oldBest;
      OldChainDistinct(all, oldBest, rest);
      cur := oldBest.next;
      oldCount := oldBest.count;
      SetCount(oldBest, 0, all, [], [oldBest] + rest);
      DropOldBest(oldBest, all, rest);
    }
    if newBest != null { AddHead(all, rest, newBest); }
  }

  /** bgp_info_mpath_count. */
  function CountOf(x: Info?): nat
    reads Just(x)
  {
    if x == null then 0 else x.count
  }

  /** What raises the change flag: a selection other than the members still on
      the old chain, or another number of them than was counted. */
  ghost predicate Differs(picked: seq<Info>, newBest: Info, chain: seq<Info>, oldCount: nat)
  {
    picked != Remaining(newBest, chain) || |picked| != oldCount
  }

  /** bgp_info_mpath_update: whatever the old chain was, afterwards the chain
      of the new best path is exactly the fresh selection, its count is exact,
      every other route of the prefix is on no chain and unflagged, and the
      change flag is raised exactly when the selection differs from what is
      left of the old chain or in number from the old count. */
  method Update(newBest: Info?, oldBest: Info?, mp: seq<Info>, maxIbgp: nat, maxEbgp: nat,
                ghost all: set<Info>, ghost chain: seq<Info>)
    requires World(all, [], Old(oldBest, chain)) && (oldBest == null ==> chain == [])
    requires if newBest == null then mp == [] else newBest in all
    requires Sorted(mp) && (forall y :: y in mp ==> y in all)
    modifies all
    ensures newBest == null ==> World(all, [], [])
    ensures newBest != null ==>
              var picked := Greedy(mp, newBest, newBest, 1, if newBest.ibgp then maxIbgp else maxEbgp);
              && World(all, [], [newBest] + picked)
              && newBest.count == |picked|
              && newBest.changed == (old(newBest.changed) || Differs(picked, newBest, chain, old(CountOf(oldBest))))
              && (old(CountOf(oldBest)) >= |chain| && picked != chain ==> newBest.changed)
    ensures oldBest != null && oldBest != newBest ==> oldBest.count == 0
    ensures forall y :: y in all && y != newBest ==> y.changed == old(y.changed)
  {
    hide World, Chain, Greedy, Sorted;
    if oldBest != null { OldChainDistinct(all, oldBest, chain); }
    RemainingWithout(newBest, chain);
    ghost var rest := Remaining(newBest, chain);
    var cur, oldCount := Prepare(newBest, oldBest, all, chain);
    if newBest == null {
      Purge(cur, all, rest);
    } else {
      var max := if newBest.ibgp then maxIbgp else maxEbgp;
      var count, changed;
      ghost var picked;
      count, changed, picked := Walk(newBest, cur, mp, max, all, rest);
      GreedyFrom(mp, newBest, newBest, 1, max);
      SetCount(newBest, count - 1, all, [], [newBest] + picked);
      if changed || newBest.count != oldCount {
        RaiseChanged(newBest, all, [newBest] + picked);
      }
    }
  }

  // ------------------------------------------------- withdrawn multipaths

  /** bgp_info_reap on a multipath: it comes off the chain, and the best path's
      count stays what it was. */
  method Reap(x: Info, best: Info, ghost all: set<Info>, ghost chain: seq<Info>)
    requires World(all, [], [best] + chain) && x in chain
    modifies all
    ensures World(all, [], [best] + Remaining(x, chain))
    ensures forall y :: y in all ==> y.count == old(y.count) && y.changed == old(y.changed)
  {
    hide World, Chain;
    OldChainDistinct(all, best, chain);
    MemberOf(all, best, chain, x);
    DropNewBest(x, best, all, chain);
  }

  lemma MemberOf(all: set<Info>, best: Info, chain: seq<Info>, x: Info)
    requires World(all, [], [best] + chain) && x in chain
    ensures x in all
  {
    assert x in [best] + chain;
  }

  /** A chain after its members in gone were reaped. */
  function Survivors(chain: seq<Info>, gone: set<Info>): (r: seq<Info>)
    ensures |r| <= |chain|
  {
    if chain == [] then []
    else (if chain[0] in gone then [] else [chain[0]]) + Survivors(chain[1..], gone)
  }

  lemma {:induction false} SurvivorsAll(chain: seq<Info>, gone: set<Info>)
    ensures |Survivors(chain, gone)| == |chain| ==> Survivors(chain, gone) == chain
    ensures Survivors(chain, gone) == chain <==> forall y :: y in chain ==> y !in gone
    ensures forall y :: y in Survivors(chain, gone) <==> y in chain && y !in gone
  {
    if chain != [] {
      SurvivorsAll(chain[1..], gone);
      assert chain == [chain[0]] + chain[1..];
    }
  }

  lemma {:induction false} SurvivorsDistinct(chain: seq<Info>, gone: set<Info>)
    requires Distinct(chain)
    ensures Distinct(Survivors(chain, gone))
  {
    if chain != [] {
      var rest := Survivors(chain[1..], gone);
      assert forall i :: 0 <= i < |chain| - 1 ==> chain[1..][i] == chain[i + 1];
      SurvivorsDistinct(chain[1..], gone);
      SurvivorsAll(chain[1..], gone);
      assert chain[0] !in rest;
    }
  }

  /** One more member reaped from what was left. */
  lemma {:induction false} ReapedSurvivors(chain: seq<Info>, gone: set<Info>, x: Info)
    requires Distinct(chain) && x in Survivors(chain, gone)
    ensures Remaining(x, Survivors(chain, gone)) == Survivors(chain, gone + {x})
  {
    var left := Survivors(chain, gone);
    SurvivorsDistinct(chain, gone);
    SurvivorsTwice(chain, gone, {x});
    WithoutIsSurvivors(left, IndexOf(x, left));
  }

  lemma {:induction false} SurvivorsTwice(chain: seq<Info>, gone: set<Info>, more: set<Info>)
    ensures Survivors(Survivors(chain, gone), more) == Survivors(chain, gone + more)
  {
    if chain != [] {
      SurvivorsTwice(chain[1..], gone, more);
      var rest := Survivors(chain[1..], gone);
      if chain[0] in gone {
        assert Survivors(chain, gone) == rest;
      } else {
        assert ([chain[0]] + rest)[1..] == rest;
      }
    }
  }

  lemma {:induction false} WithoutIsSurvivors(c: seq<Info>, k: nat)
    requires Distinct(c) && k < |c|
    ensures Without(c, k) == Survivors(c, {c[k]})
  {
    assert forall i :: 0 <= i < |c| - 1 ==> c[1..][i] == c[i + 1];
    if k == 0 {
      SurvivorsAll(c[1..], {c[0]});
      assert Without(c, 0) == c[1..];
    } else {
      WithoutIsSurvivors(c[1..], k - 1);
      assert Without(c, k) == [c[0]] + Without(c[1..], k - 1);
    }
  }

  /** Whichever multipaths were withdrawn since the count was taken, the flag is
      raised exactly when the selection is not the chain of that time. */
  lemma ChangeNoticed(was: seq<Info>, gone: set<Info>, newBest: Info, picked: seq<Info>)
    requires Distinct(was) && newBest !in picked && (forall y :: y in picked ==> y !in gone)
    ensures Differs(picked, newBest, Survivors(was, gone), |was|) <==> picked != was
  {
    var left := Survivors(was, gone);
    SurvivorsAll(was, gone);
    SurvivorsDistinct(was, gone);
    RemainingWithout(newBest, left);
  }

  method RaiseChanged(x: Info, ghost all: set<Info>, ghost built: seq<Info>)
    requires World(all, [], built)
    modifies x`changed
    ensures World(all, [], built) && x.changed
  {
    x.changed := true;
  }

  /** bgp_mp_dmed_deselect: every route after the given one comes off its
      chain, so the final assertion always holds. */
  method Deselect(best: Info, ghost all: set<Info>, ghost chain: seq<Info>)
    requires World(all, [], [best] + chain)
    modifies all
    ensures World(all, [], [best]) && best.next == null && best.count == 0 && !best.changed
  {
    hide World, Chain;
    OldChainDistinct(all, best, chain);
    ghost var left := chain;
    var cur := best.next;
    while cur != null
      invariant World(all, [], [best] + left) && cur == First(left)
      decreases |left|
    {
      MemberLinks(all, best, left);
      var next := cur.next;
      WithoutOld(best, left, 0);
      UnlinkBuilt(cur, all, [best] + left, 1);
      assert Without(left, 0) == left[1..];
      left, cur := left[1..], next;
    }
    assert [best] + left == [best];
    assert [best] == [best] + [];
    OldChainDistinct(all, best, []);
    SetCount(best, 0, all, [], [best]);
    ClearChanged(best, all, [best]);
    OldChainDistinct(all, best, []);
    assert best.next == null;
  }

  lemma MemberLinks(all: set<Info>, best: Info, left: seq<Info>)
    requires World(all, [], [best] + left) && left != []
    ensures left[0].next == First(left[1..])
  {
    var c := [best] + left;
    assert c[1] == left[0] && c[1].next == if |c| == 2 then null else c[2];
  }

  method ClearChanged(x: Info, ghost all: set<Info>, ghost built: seq<Info>)
    requires World(all, [], built)
    modifies x`changed
    ensures World(all, [], built) && !x.changed
  {
    x.changed := false;
  }
}
