/** What the multipath selection of bgp_mpath.c guarantees about next hops, and
    what it does not. */
module MultipathChoice {
  import opened Multipath

  lemma SortedTail(mp: seq<Info>)
    requires Sorted(mp) && mp != []
    ensures Sorted(mp[1..]) && forall m :: m in mp ==> mp[0].nexthop <= m.nexthop
  {
    forall m | m in mp ensures mp[0].nexthop <= m.nexthop {
      var i :| 0 <= i < |mp| && mp[i] == m;
      if i > 0 { assert Before(mp[0], mp[i]); }
    }
  }

  predicate NexthopsAscend(c: seq<Info>) { forall i, j :: 0 <= i < j < |c| ==> c[i].nexthop < c[j].nexthop }

  /** Selected multipaths have pairwise different, ascending next hops. */
  lemma {:induction false} PickedAscend(mp: seq<Info>, best: Info, last: Info, count: nat, max: nat)
    requires Sorted(mp) && (last == best || forall m :: m in mp ==> last.nexthop <= m.nexthop)
    ensures NexthopsAscend(Greedy(mp, best, last, count, max))
    ensures last != best ==> forall y :: y in Greedy(mp, best, last, count, max) ==> last.nexthop < y.nexthop
  {
    if mp != [] {
      var m := mp[0];
      SortedTail(mp);
      if count < max && m != best && last.nexthop != m.nexthop {
        var rest := Greedy(mp[1..], best, m, count + 1, max);
        PickedAscend(mp[1..], best, m, count + 1, max);
        AscendCons(m, rest);
      } else {
        PickedAscend(mp[1..], best, last, count, max);
      }
    }
  }

  lemma AscendCons(m: Info, rest: seq<Info>)
    requires NexthopsAscend(rest) && forall y :: y in rest ==> m.nexthop < y.nexthop
    ensures NexthopsAscend([m] + rest)
  {
    var c := [m] + rest;
    forall i, j | 0 <= i < j < |c| ensures c[i].nexthop < c[j].nexthop {
      assert c[j] == rest[j - 1] && rest[j - 1] in rest;
      if i > 0 { assert c[i] == rest[i - 1]; }
    }
  }

  /** A candidate with the best path's own next hop. */
  predicate HasTwin(mp: seq<Info>, best: Info) { exists m :: m in mp && m != best && m.nexthop == best.nexthop }

  predicate PicksTwin(c: seq<Info>, best: Info) { exists y :: y in c && y.nexthop == best.nexthop }

  /** The next hops below the best path's that are still to be taken. */
  function Below(mp: seq<Info>, best: Info, last: Info): set<int>
  {
    set m | m in mp && m.nexthop < best.nexthop && m.nexthop != last.nexthop :: m.nexthop
  }

  predicate TwinDue(mp: seq<Info>, best: Info, last: Info, count: nat, max: nat)
  {
    && HasTwin(mp, best) && count + |Below(mp, best, last)| < max
    && (last.nexthop != best.nexthop || Below(mp, best, last) != {})
  }

  lemma TwinTail(mp: seq<Info>, best: Info)
    requires mp != [] && (mp[0] == best || mp[0].nexthop != best.nexthop)
    ensures HasTwin(mp, best) <==> HasTwin(mp[1..], best)
  {
    assert mp == [mp[0]] + mp[1..];
  }

  /** A next hop already taken changes nothing. */
  lemma LowAgain(mp: seq<Info>, best: Info, last: Info, count: nat, max: nat)
    requires mp != [] && mp[0].nexthop == last.nexthop < best.nexthop
    ensures TwinDue(mp, best, last, count, max) <==> TwinDue(mp[1..], best, last, count, max)
  {
    TwinTail(mp, best);
    assert mp == [mp[0]] + mp[1..];
    assert Below(mp, best, last) == Below(mp[1..], best, last);
  }

  lemma BelowTaken(mp: seq<Info>, best: Info, last: Info)
    requires mp != [] && mp[0].nexthop < best.nexthop && mp[0].nexthop != last.nexthop
    requires last == best || forall m :: m in mp ==> last.nexthop <= m.nexthop
    requires forall m :: m in mp ==> mp[0].nexthop <= m.nexthop
    ensures Below(mp, best, last) == Below(mp[1..], best, mp[0]) + {mp[0].nexthop}
  {
    assert mp == [mp[0]] + mp[1..];
    assert mp[0] in mp;
    forall h | h in Below(mp[1..], best, mp[0]) ensures h in Below(mp, best, last) {
      var m :| m in mp[1..] && m.nexthop == h && h < best.nexthop && h != mp[0].nexthop;
      assert m in mp;
    }
  }

  /** A new lower next hop is taken: one more counted, one less to come. */
  lemma LowTaken(mp: seq<Info>, best: Info, last: Info, count: nat, max: nat)
    requires mp != [] && mp[0].nexthop < best.nexthop && mp[0].nexthop != last.nexthop
    requires last == best || forall m :: m in mp ==> last.nexthop <= m.nexthop
    requires forall m :: m in mp ==> mp[0].nexthop <= m.nexthop
    ensures TwinDue(mp, best, last, count, max) <==> TwinDue(mp[1..], best, mp[0], count + 1, max)
  {
    hide HasTwin;
    TwinTail(mp, best);
    BelowTaken(mp, best, last);
    assert mp[0].nexthop !in Below(mp[1..], best, mp[0]);
  }

  lemma NoneBelow(mp: seq<Info>, best: Info, last: Info)
    requires forall m :: m in mp ==> best.nexthop <= m.nexthop
    ensures Below(mp, best, last) == {}
  {
  }

  lemma PicksTail(m: Info, rest: seq<Info>, best: Info)
    requires m.nexthop != best.nexthop
    ensures PicksTwin([m] + rest, best) <==> PicksTwin(rest, best)
  {
    assert forall y :: y in [m] + rest <==> y == m || y in rest;
  }

  lemma {:induction false} TwinPicked(mp: seq<Info>, best: Info, last: Info, count: nat, max: nat)
    requires Sorted(mp) && (last == best || forall m :: m in mp ==> last.nexthop <= m.nexthop)
    ensures PicksTwin(Greedy(mp, best, last, count, max), best) <==> TwinDue(mp, best, last, count, max)
  {
    hide Below, Sorted, PicksTwin, HasTwin;
    if mp == [] {
      NoTwins(best);
    } else if count >= max {
      GreedyFull(mp, best, last, count, max);
      NoTwins(best);
    } else {
      var m := mp[0];
      SortedTail(mp);
      if m.nexthop < best.nexthop && m.nexthop == last.nexthop {
        TwinPicked(mp[1..], best, last, count, max);
        LowAgain(mp, best, last, count, max);
      } else if m.nexthop < best.nexthop {
        TwinPicked(mp[1..], best, m, count + 1, max);
        LowTaken(mp, best, last, count, max);
        PicksTail(m, Greedy(mp[1..], best, m, count + 1, max), best);
      } else {
        NoneBelow(mp, best, last);
        NoneBelow(mp[1..], best, last);
        HighOrTwin(mp, best, last, count, max);
        if m == best || (m.nexthop == best.nexthop && last.nexthop == best.nexthop) {
          TwinPicked(mp[1..], best, last, count, max);
          if m == best { TwinTail(mp, best); }
        }
      }
    }
  }

  lemma NoTwins(best: Info)
    ensures !PicksTwin([], best) && !HasTwin([], best)
  {
  }

  /** At or above the best path's next hop. */
  lemma HighOrTwin(mp: seq<Info>, best: Info, last: Info, count: nat, max: nat)
    requires mp != [] && best.nexthop <= mp[0].nexthop && count < max
    requires forall m :: m in mp ==> mp[0].nexthop <= m.nexthop
    ensures mp[0].nexthop > best.nexthop ==> !HasTwin(mp, best) && !PicksTwin(Greedy(mp, best, last, count, max), best)
    ensures mp[0].nexthop == best.nexthop && mp[0] != best ==> HasTwin(mp, best)
    ensures mp[0].nexthop == best.nexthop && mp[0] != best && last.nexthop != best.nexthop ==>
              PicksTwin(Greedy(mp, best, last, count, max), best)
  {
    GreedyFrom(mp, best, last, count, max);
    var picked := Greedy(mp, best, last, count, max);
    assert mp[0] in mp;
    if mp[0].nexthop == best.nexthop && mp[0] != best && last.nexthop != best.nexthop {
      assert picked[0] == mp[0] && mp[0] in picked;
    }
  }

  /** The selection repeats the best path's next hop exactly when a candidate
      has it, at least one next hop below it was taken first, and the limit
      leaves room after those. */
  lemma BestNexthopRepeated(mp: seq<Info>, best: Info, max: nat)
    requires Sorted(mp)
    ensures PicksTwin(Greedy(mp, best, best, 1, max), best) <==>
            HasTwin(mp, best) && 1 <= |Below(mp, best, best)| < max - 1
  {
    TwinPicked(mp, best, best, 1, max);
  }

  /** One such input: a lower next hop comes first, then the twin is taken. */
  lemma BestNexthopRepeatedOnce(low: Info, twin: Info, best: Info)
    requires low.nexthop < best.nexthop == twin.nexthop && twin != best
    ensures Sorted([low, twin]) && Greedy([low, twin], best, best, 1, 3) == [low, twin]
  {
    assert [low, twin][1..] == [twin] && [twin][1..] == [];
    assert Greedy([twin], best, low, 2, 3) == [twin] + Greedy([], best, twin, 3, 3);
  }
}
