/** The multipath selection of bgp_mpath.c by what it is rather than how it is
    made: no candidate is left out without need, and that determines it. */
module MultipathSelection {
  import opened Multipath
  import opened MultipathChoice

  /** A candidate that is neither the best path nor behind its next hop. */
  predicate Eligible(mp: seq<Info>, best: Info, m: Info) { m in mp && m != best && m.nexthop != best.nexthop }

  predicate Serves(c: seq<Info>, h: int) { exists y :: y in c && y.nexthop == h }

  /** Each is the first candidate, other than the best path, with its next hop. */
  predicate FirstOfNexthop(mp: seq<Info>, best: Info, y: Info)
  {
    y in mp && y != best && forall m :: m in mp && m != best && m.nexthop == y.nexthop ==> m == y || Before(y, m)
  }

  /** What a selection of multipaths is: candidates in order of next hop, each
      the first with its own; within the limit; leaving out a next hop only when
      the limit is reached by lower ones; and repeating the best path's next hop
      exactly when a lower one was taken before it and the limit leaves room. */
  ghost predicate Selection(c: seq<Info>, mp: seq<Info>, best: Info, max: nat)
  {
    && NexthopsAscend(c)
    && (forall y :: y in c ==> FirstOfNexthop(mp, best, y))
    && (c == [] || 1 + |c| <= max)
    && (forall m :: m in mp && Eligible(mp, best, m) && 1 + |c| < max ==> Serves(c, m.nexthop))
    && (forall m, y :: m in mp && Eligible(mp, best, m) && y in c && m.nexthop < y.nexthop ==> Serves(c, m.nexthop))
    && (PicksTwin(c, best) <==> HasTwin(mp, best) && 1 <= |Below(mp, best, best)| < max - 1)
  }

  // ------------------------------------------------------ the walk is a selection

  /** A candidate the walk passes over for good: the limit was reached by picks
      with lower next hops. */
  predicate OverLimit(c: seq<Info>, count: nat, max: nat, h: int)
  {
    count + |c| >= max && forall y :: y in c ==> y.nexthop < h
  }

  lemma ServesMore(m: Info, rest: seq<Info>, h: int)
    ensures Serves([m] + rest, h) <==> m.nexthop == h || Serves(rest, h)
  {
    assert forall y :: y in [m] + rest <==> y == m || y in rest;
  }

  /** Every candidate from here on is served, or was served by the pick before,
      or is over the limit. */
  lemma {:induction false} GreedyComplete(mp: seq<Info>, best: Info, last: Info, count: nat, max: nat, m: Info)
    requires Sorted(mp) && (last == best || forall x :: x in mp ==> last.nexthop <= x.nexthop)
    requires Eligible(mp, best, m)
    ensures var c := Greedy(mp, best, last, count, max);
            Serves(c, m.nexthop) || m.nexthop == last.nexthop || OverLimit(c, count, max, m.nexthop)
  {
    var head, tail := mp[0], mp[1..];
    SortedTail(mp);
    assert mp == [head] + tail;
    if count >= max {
      GreedyFull(mp, best, last, count, max);
    } else if head != best && last.nexthop != head.nexthop {
      var rest := Greedy(tail, best, head, count + 1, max);
      ServesMore(head, rest, m.nexthop);
      if m != head && m.nexthop != head.nexthop {
        GreedyComplete(tail, best, head, count + 1, max, m);
      }
    } else if m != head {
      GreedyComplete(tail, best, last, count, max, m);
    }
  }

  /** At or above the best path's next hop with nothing taken, its twins stay out. */
  lemma NoTwinYet(mp: seq<Info>, best: Info, count: nat, max: nat)
    requires Sorted(mp) && forall x :: x in mp ==> best.nexthop <= x.nexthop
    ensures !PicksTwin(Greedy(mp, best, best, count, max), best)
  {
    hide Greedy, Sorted;
    TwinPicked(mp, best, best, count, max);
    NoneBelow(mp, best, best);
  }

  lemma {:induction false} GreedyFirst(mp: seq<Info>, best: Info, last: Info, count: nat, max: nat, y: Info)
    requires Sorted(mp) && (last == best || forall x :: x in mp ==> last.nexthop <= x.nexthop)
    requires y in Greedy(mp, best, last, count, max)
    ensures FirstOfNexthop(mp, best, y)
  {
    var head, tail := mp[0], mp[1..];
    SortedTail(mp);
    assert mp == [head] + tail;
    if count < max && head != best && last.nexthop != head.nexthop {
      PickedAscend(tail, best, head, count + 1, max);
      if y == head {
        HeadBefore(mp);
      } else {
        GreedyFirst(tail, best, head, count + 1, max, y);
      }
    } else {
      GreedyFirst(tail, best, last, count, max, y);
      if count >= max {
        GreedyFull(tail, best, last, count, max);
      } else if head != best {
        PickedAscend(tail, best, last, count, max);
        if last == best { NoTwinYet(tail, best, count, max); }
      }
    }
  }

  lemma HeadBefore(mp: seq<Info>)
    requires Sorted(mp) && mp != []
    ensures forall m :: m in mp ==> m == mp[0] || Before(mp[0], m)
  {
    forall m | m in mp ensures m == mp[0] || Before(mp[0], m) {
      var i :| 0 <= i < |mp| && mp[i] == m;
    }
  }

  /** The fresh walk makes a selection. */
  lemma GreedySelects(mp: seq<Info>, best: Info, max: nat)
    requires Sorted(mp)
    ensures Selection(Greedy(mp, best, best, 1, max), mp, best, max)
  {
    hide Greedy, Sorted, Below, HasTwin, PicksTwin, FirstOfNexthop;
    var c := Greedy(mp, best, best, 1, max);
    PickedAscend(mp, best, best, 1, max);
    GreedyFrom(mp, best, best, 1, max);
    BestNexthopRepeated(mp, best, max);
    forall y | y in c ensures FirstOfNexthop(mp, best, y) { GreedyFirst(mp, best, best, 1, max, y); }
    forall m | Eligible(mp, best, m) ensures Serves(c, m.nexthop) || OverLimit(c, 1, max, m.nexthop) {
      GreedyComplete(mp, best, best, 1, max, m);
    }
  }

  // ----------------------------------------------------- a selection is the walk

  lemma SameFirst(mp: seq<Info>, best: Info, y: Info, z: Info)
    requires FirstOfNexthop(mp, best, y) && FirstOfNexthop(mp, best, z) && y.nexthop == z.nexthop
    ensures y == z
  {
  }

  /** A selected path is in every selection. */
  lemma SelectedIn(c: seq<Info>, d: seq<Info>, mp: seq<Info>, best: Info, max: nat, y: Info)
    requires Selection(c, mp, best, max) && Selection(d, mp, best, max) && y in c
    ensures y in d
  {
    if y.nexthop == best.nexthop { TwinServed(c, d, mp, best, max, y); }
    if Serves(d, y.nexthop) {
      var z :| z in d && z.nexthop == y.nexthop;
      SameFirst(mp, best, y, z);
    } else {
      assert Eligible(mp, best, y);
      forall z | z in d ensures z in c && z != y { LowerIn(c, d, mp, best, max, y, z); }
      FewerThan(c, d, y);
    }
  }

  lemma TwinServed(c: seq<Info>, d: seq<Info>, mp: seq<Info>, best: Info, max: nat, y: Info)
    requires Selection(c, mp, best, max) && Selection(d, mp, best, max) && y in c && y.nexthop == best.nexthop
    ensures Serves(d, best.nexthop)
  {
    assert PicksTwin(c, best);
    var z :| z in d && z.nexthop == best.nexthop;
  }

  /** When d does not serve y, all it has is below y and in c. */
  lemma LowerIn(c: seq<Info>, d: seq<Info>, mp: seq<Info>, best: Info, max: nat, y: Info, z: Info)
    requires Selection(c, mp, best, max) && Selection(d, mp, best, max)
    requires y in c && Eligible(mp, best, y) && !Serves(d, y.nexthop) && z in d
    ensures z in c && z != y
  {
    assert !(y.nexthop < z.nexthop);
    assert FirstOfNexthop(mp, best, z);
    if z.nexthop == best.nexthop {
      assert PicksTwin(d, best);
      var x :| x in c && x.nexthop == best.nexthop;
      SameFirst(mp, best, x, z);
    } else {
      assert Eligible(mp, best, z);
      var x :| x in c && x.nexthop == z.nexthop;
      SameFirst(mp, best, x, z);
    }
  }

  lemma {:induction false} AscendDistinct(c: seq<Info>)
    requires NexthopsAscend(c)
    ensures |set y | y in c| == |c|
  {
    if c != [] {
      var init, last := c[..|c| - 1], c[|c| - 1];
      AscendDistinct(init);
      assert (set y | y in c) == (set y | y in init) + {last};
      assert last !in init;
    }
  }

  /** A chain whose paths are all in c, without y, is shorter. */
  lemma FewerThan(c: seq<Info>, d: seq<Info>, y: Info)
    requires NexthopsAscend(c) && NexthopsAscend(d) && y in c && forall z :: z in d ==> z in c && z != y
    ensures |d| < |c|
  {
    AscendDistinct(c);
    AscendDistinct(d);
    var s, t := set x | x in c, set x | x in d;
    Smaller(s, t, y);
  }

  lemma Smaller(s: set<Info>, t: set<Info>, y: Info)
    requires t <= s - {y} && y in s
    ensures |t| < |s|
  {
    SubsetSize(t, s - {y});
  }

  lemma SubsetSize(t: set<Info>, s: set<Info>)
    requires t <= s
    ensures |t| <= |s|
  {
    assert s == t + (s - t);
  }

  lemma {:induction false} SameMembers(c: seq<Info>, d: seq<Info>)
    requires NexthopsAscend(c) && NexthopsAscend(d) && forall y :: y in c <==> y in d
    ensures c == d
  {
    if c != [] && d != [] {
      assert c[0] in d && d[0] in c;
      assert c[0] == d[0] by { LeastFirst(c, d[0]); LeastFirst(d, c[0]); }
      assert c == [c[0]] + c[1..] && d == [d[0]] + d[1..];
      forall y ensures y in c[1..] <==> y in d[1..] { TailOf(c, y); TailOf(d, y); }
      SameMembers(c[1..], d[1..]);
    } else {
      SomeMember(c);
      SomeMember(d);
    }
  }

  lemma SomeMember(c: seq<Info>)
    ensures c == [] || c[0] in c
  {
  }

  lemma LeastFirst(c: seq<Info>, y: Info)
    requires NexthopsAscend(c) && y in c
    ensures y == c[0] || c[0].nexthop < y.nexthop
  {
    var i :| 0 <= i < |c| && c[i] == y;
  }

  lemma TailOf(c: seq<Info>, y: Info)
    requires NexthopsAscend(c) && c != []
    ensures y in c[1..] <==> y in c && y != c[0]
  {
    assert c == [c[0]] + c[1..];
    forall i | 1 <= i < |c| ensures c[i] != c[0] { assert c[0].nexthop < c[i].nexthop; }
  }

  /** There is one selection, and the walk makes it: the conditions determine the
      chain bgp_info_mpath_update leaves. */
  lemma SelectionIsGreedy(c: seq<Info>, mp: seq<Info>, best: Info, max: nat)
    requires Sorted(mp)
    ensures Selection(c, mp, best, max) <==> c == Greedy(mp, best, best, 1, max)
  {
    hide Selection, Greedy, Sorted;
    var d := Greedy(mp, best, best, 1, max);
    GreedySelects(mp, best, max);
    if Selection(c, mp, best, max) {
      forall y ensures y in c <==> y in d {
        if y in c { SelectedIn(c, d, mp, best, max, y); }
        if y in d { SelectedIn(d, c, mp, best, max, y); }
      }
      SelectionAscends(c, mp, best, max);
      SelectionAscends(d, mp, best, max);
      SameMembers(c, d);
    }
  }

  lemma SelectionAscends(c: seq<Info>, mp: seq<Info>, best: Info, max: nat)
    requires Selection(c, mp, best, max)
    ensures NexthopsAscend(c)
  {
  }
}
