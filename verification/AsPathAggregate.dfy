/** aspath_aggregate: the common front of two paths, followed by one set of
    everything else (section 9.2.2.2 of RFC 4271). */
module AsPathAggregate {
  import opened Lists
  import opened AsPath
  import opened AsPathChain
  import opened AsPathCodec

  // ------------------------------------------------------------- specification

  /** All numbers of a path in order. */
  function Flat(p: Path): seq<Asn> { if p == [] then [] else p[0].asns + Flat(p[1..]) }

  function Members(p: Path): set<nat> { Elems(Flat(p)) }

  /** How far two segments agree. */
  function MatchLength(a: seq<Asn>, b: seq<Asn>): (m: nat)
    ensures m <= |a| && m <= |b| && a[..m] == b[..m]
    ensures m < |a| && m < |b| ==> a[m] != b[m]
  {
    if a == [] || b == [] || a[0] != b[0] then 0 else
      var m := MatchLength(a[1..], b[1..]);
      assert a[..m + 1] == [a[0]] + a[1..][..m] && b[..m + 1] == [b[0]] + b[1..][..m];
      m + 1
  }

  /** A path without the first m numbers of its first segment. */
  function Drop(p: Path, m: nat): Path
    requires p != [] ==> m <= |p[0].asns|
  {
    if p == [] || m == 0 then p else [Segment(p[0].kind, p[0].asns[m..])] + p[1..]
  }

  datatype Fork = Fork(common: Path, rest1: Path, rest2: Path)

  function Taken(seg: Segment, m: nat): Path
    requires m <= |seg.asns|
  {
    if m == 0 then [] else [Segment(seg.kind, seg.asns[..m])]
  }

  /** Where two paths part: the loop over the common leading segments. */
  function Parting(p: Path, q: Path): Fork
  {
    if p == [] || q == [] || p[0].kind != q[0].kind then Fork([], p, q) else
      var m := MatchLength(p[0].asns, q[0].asns);
      if m == |p[0].asns| == |q[0].asns|
      then var f := Parting(p[1..], q[1..]); f.(common := Taken(p[0], m) + f.common)
      else Fork(Taken(p[0], m), Drop(p, m), Drop(q, m))
  }

  /** aspath_aggregate_as_set_add for a run of numbers. */
  function AddAll(asset: seq<Asn>, s: seq<Asn>): seq<Asn>
    decreases |s|
  {
    if s == [] then asset else AddAll(if s[0] in asset then asset else asset + [s[0]], s[1..])
  }

  function SetOf(asset: seq<Asn>): Path { if asset == [] then [] else [Segment(AsSet, asset)] }

  function Aggregate(p: Path, q: Path): Path
  {
    var f := Parting(p, q);
    Normalise(f.common + SetOf(AddAll(AddAll([], Flat(f.rest1)), Flat(f.rest2))))
  }

  // ---------------------------------------------------------------- properties

  lemma {:induction false} FlatConcat(p: Path, q: Path)
    ensures Flat(p + q) == Flat(p) + Flat(q)
  {
    if p == [] {
      assert p + q == q;
    } else {
      assert (p + q)[1..] == p[1..] + q;
      FlatConcat(p[1..], q);
    }
  }

  lemma ElemsConcat(a: seq<Asn>, b: seq<Asn>)
    ensures Elems(a + b) == Elems(a) + Elems(b)
  {
  }

  lemma {:induction false} AddAllElems(asset: seq<Asn>, s: seq<Asn>)
    ensures Elems(AddAll(asset, s)) == Elems(asset) + Elems(s)
    decreases |s|
  {
    if s != [] {
      var next := if s[0] in asset then asset else asset + [s[0]];
      AddAllElems(next, s[1..]);
      assert s == [s[0]] + s[1..];
      ElemsConcat(asset, [s[0]]);
      ElemsConcat([s[0]], s[1..]);
    }
  }

  lemma {:induction false} AddAllConcat(asset: seq<Asn>, s: seq<Asn>, t: seq<Asn>)
    ensures AddAll(asset, s + t) == AddAll(AddAll(asset, s), t)
    decreases |s|
  {
    if s == [] {
      assert s + t == t;
    } else {
      assert (s + t)[1..] == s[1..] + t;
      AddAllConcat(if s[0] in asset then asset else asset + [s[0]], s[1..], t);
    }
  }

  lemma {:induction false} NormaliseMembers(p: Path)
    ensures Members(Normalise(p)) == Members(p)
  {
    hide CanonSet;
    if p != [] {
      NormaliseMembers(p[1..]);
      var seg, rest := p[0], Normalise(p[1..]);
      CanonSetCorrect(seg.asns);
      ElemsConcat(seg.asns, Flat(p[1..]));
      if rest != [] && Packable(seg, rest[0]) {
        var r := Normalise(p);
        assert r[1..] == rest[1..];
        ElemsConcat(seg.asns, Flat(rest));
        assert Flat(r) == seg.asns + rest[0].asns + Flat(rest[1..]) == seg.asns + Flat(rest);
      } else {
        assert Normalise(p)[1..] == rest;
        ElemsConcat(Tidy(seg).asns, Flat(rest));
      }
    }
  }

  lemma FlatHead(p: Path)
    requires p != []
    ensures Flat(p) == p[0].asns + Flat(p[1..])
  {
  }

  lemma FlatCons(seg: Segment, rest: Path)
    ensures Flat([seg] + rest) == seg.asns + Flat(rest) && Flat([seg]) == seg.asns
  {
    assert ([seg] + rest)[1..] == rest;
    assert Flat([seg]) == seg.asns + Flat([]);
  }

  lemma Assoc(a: seq<Asn>, b: seq<Asn>, c: seq<Asn>)
    ensures a + (b + c) == a + b + c
  {
  }

  lemma DropFlat(p: Path, m: nat)
    requires p != [] && m <= |p[0].asns|
    ensures Flat(Taken(p[0], m)) + Flat(Drop(p, m)) == Flat(p)
  {
    hide Flat;
    FlatHead(p);
    if m == 0 {
      assert Flat([]) == [] by { FlatNone(); }
    } else {
      var s := p[0].asns;
      FlatCons(Segment(p[0].kind, s[m..]), p[1..]);
      FlatCons(Segment(p[0].kind, s[..m]), []);
      Assoc(s[..m], s[m..], Flat(p[1..]));
      assert s[..m] + s[m..] == s;
    }
  }

  lemma FlatNone()
    ensures Flat([]) == []
  {
  }

  lemma DropHops(p: Path, m: nat)
    requires p != [] && m <= |p[0].asns|
    ensures Hops(Taken(p[0], m)) + Hops(p[1..]) <= Hops(p)
  {
    if m > 0 { assert Hops(Taken(p[0], m)[1..]) == 0; }
  }

  /** Both paths start with the common front, number for number. */
  lemma {:induction false} PartingFlat(p: Path, q: Path)
    ensures var f := Parting(p, q);
            Flat(f.common) + Flat(f.rest1) == Flat(p) && Flat(f.common) + Flat(f.rest2) == Flat(q)
  {
    hide Drop, Taken, Flat;
    FlatNone();
    if p != [] && q != [] && p[0].kind == q[0].kind {
      var m := MatchLength(p[0].asns, q[0].asns);
      DropFlat(p, m);
      DropFlat(q, m);
      TakenSame(p[0], q[0], m);
      if m == |p[0].asns| == |q[0].asns| {
        var f := Parting(p[1..], q[1..]);
        PartingFlat(p[1..], q[1..]);
        FlatConcat(Taken(p[0], m), f.common);
        TakenAll(p[0]);
        TakenAll(q[0]);
        FlatHead(p);
        FlatHead(q);
        Assoc(p[0].asns, Flat(f.common), Flat(f.rest1));
        Assoc(q[0].asns, Flat(f.common), Flat(f.rest2));
      }
    }
  }

  lemma TakenSame(a: Segment, b: Segment, m: nat)
    requires a.kind == b.kind && m <= |a.asns| && m <= |b.asns| && a.asns[..m] == b.asns[..m]
    ensures Taken(a, m) == Taken(b, m)
  {
  }

  lemma TakenAll(a: Segment)
    ensures Flat(Taken(a, |a.asns|)) == a.asns
  {
    if a.asns != [] {
      assert a.asns[..|a.asns|] == a.asns;
      assert Flat(Taken(a, |a.asns|)) == a.asns + Flat([]);
    }
  }

  lemma {:induction false} PartingHops(p: Path, q: Path)
    ensures Hops(Parting(p, q).common) <= Hops(p) && Hops(Parting(p, q).common) <= Hops(q)
  {
    hide Drop, Taken;
    if p != [] && q != [] && p[0].kind == q[0].kind {
      var m := MatchLength(p[0].asns, q[0].asns);
      DropHops(p, m);
      DropHops(q, m);
      TakenSame(p[0], q[0], m);
      if m == |p[0].asns| == |q[0].asns| {
        PartingHops(p[1..], q[1..]);
        HopsConcat(Taken(p[0], m), Parting(p[1..], q[1..]).common);
      }
    }
  }

  /** The aggregate has exactly the numbers of both paths, starts with their
      common front, and is at most one hop longer than the shorter one. */
  lemma AggregateKeeps(p: Path, q: Path)
    ensures Members(Aggregate(p, q)) == Members(p) + Members(q)
    ensures Hops(Aggregate(p, q)) <= Hops(p) + 1 && Hops(Aggregate(p, q)) <= Hops(q) + 1
    ensures Flat(Parting(p, q).common) <= Flat(p) && Flat(Parting(p, q).common) <= Flat(q)
    ensures Meaning(Parting(p, q).common) <= Meaning(Aggregate(p, q))
  {
    hide Parting, Normalise, AddAll, Flat, Meaning;
    var f := Parting(p, q);
    var a := AddAll([], Flat(f.rest1));
    var asset := AddAll(a, Flat(f.rest2));
    PartingFlat(p, q);
    PartingHops(p, q);
    AddAllElems([], Flat(f.rest1));
    AddAllElems(a, Flat(f.rest2));
    SetOfFacts(asset);
    FlatConcat(f.common, SetOf(asset));
    HopsConcat(f.common, SetOf(asset));
    NormaliseMembers(f.common + SetOf(asset));
    NormaliseHops(f.common + SetOf(asset));
    NormaliseMeaning(f.common + SetOf(asset));
    MeaningConcat(f.common, SetOf(asset));
    ElemsConcat(Flat(f.common), Flat(SetOf(asset)));
    ElemsConcat(Flat(f.common), Flat(f.rest1));
    ElemsConcat(Flat(f.common), Flat(f.rest2));
  }

  /** The common front goes on as long as the paths agree: after it one of them
      ends, or their segments differ in type, or one segment ends first, or the
      next numbers differ. */
  lemma {:induction false} PartingMaximal(p: Path, q: Path)
    ensures var f := Parting(p, q);
            || f.rest1 == [] || f.rest2 == [] || f.rest1[0].kind != f.rest2[0].kind
            || (f.rest1[0].asns == []) != (f.rest2[0].asns == [])
            || (f.rest1[0].asns != [] && f.rest2[0].asns != [] && f.rest1[0].asns[0] != f.rest2[0].asns[0])
  {
    if p != [] && q != [] && p[0].kind == q[0].kind {
      var m := MatchLength(p[0].asns, q[0].asns);
      if m == |p[0].asns| == |q[0].asns| { PartingMaximal(p[1..], q[1..]); }
    }
  }

  lemma SetOfFacts(asset: seq<Asn>)
    ensures Flat(SetOf(asset)) == asset && Hops(SetOf(asset)) <= 1
    ensures NoEmptySequence(SetOf(asset)) && (asset != [] ==> Meaning(SetOf(asset)) == [AnyOf(Elems(asset))])
  {
    if asset != [] {
      assert Flat(SetOf(asset)) == asset + Flat([]);
      assert Hops(SetOf(asset)[1..]) == 0;
      assert Meaning(SetOf(asset)) == [AnyOf(Elems(asset))] + Meaning([]);
    }
  }

  lemma {:induction false} MatchSelf(s: seq<Asn>)
    ensures MatchLength(s, s) == |s|
  {
    if s != [] { MatchSelf(s[1..]); }
  }

  lemma {:induction false} MatchSymmetric(a: seq<Asn>, b: seq<Asn>)
    ensures MatchLength(a, b) == MatchLength(b, a)
  {
    if a != [] && b != [] && a[0] == b[0] { MatchSymmetric(a[1..], b[1..]); }
  }

  function NonEmpty(p: Path): Path
  {
    if p == [] then [] else Taken(p[0], |p[0].asns|) + NonEmpty(p[1..])
  }

  lemma {:induction false} PartingSelf(p: Path)
    ensures Parting(p, p) == Fork(NonEmpty(p), [], [])
  {
    if p != [] {
      MatchSelf(p[0].asns);
      PartingSelf(p[1..]);
    }
  }

  /** Where two paths part, told from the paths: i segments are the same, and
      then m numbers of segments of the same kind, of which not both end there
      and not both go on with the same number. */
  predicate PartAt(p: Path, q: Path, i: nat, m: nat)
  {
    && i <= |p| && i <= |q| && p[..i] == q[..i]
    && if i < |p| && i < |q| && p[i].kind == q[i].kind then
         && m <= |p[i].asns| && m <= |q[i].asns| && p[i].asns[..m] == q[i].asns[..m]
         && !(m == |p[i].asns| == |q[i].asns|)
         && (m < |p[i].asns| && m < |q[i].asns| ==> p[i].asns[m] != q[i].asns[m])
       else m == 0
  }

  /** The front the paths share, without empty segments. */
  function Front(p: Path, i: nat, m: nat): Path
    requires i <= |p| && (i < |p| ==> m <= |p[i].asns|)
  {
    NonEmpty(p[..i]) + if i < |p| then Taken(p[i], m) else []
  }

  lemma MatchIs(a: seq<Asn>, b: seq<Asn>, m: nat)
    requires m <= |a| && m <= |b| && a[..m] == b[..m] && (m < |a| && m < |b| ==> a[m] != b[m])
    ensures MatchLength(a, b) == m
  {
    var n := MatchLength(a, b);
    assert forall k :: 0 <= k < m ==> a[k] == a[..m][k] && b[k] == b[..m][k];
    assert forall k :: 0 <= k < n ==> a[k] == a[..n][k] && b[k] == b[..n][k];
  }

  lemma {:induction false} PartingIs(p: Path, q: Path, i: nat, m: nat)
    requires PartAt(p, q, i, m)
    ensures Parting(p, q) == Fork(Front(p, i, m), Drop(p[i..], m), Drop(q[i..], m))
    decreases i
  {
    hide MatchLength;
    if i == 0 {
      assert p[0..] == p && q[0..] == q;
      if p != [] && q != [] && p[0].kind == q[0].kind { MatchIs(p[0].asns, q[0].asns, m); }
    } else {
      assert p[0] == p[..i][0] == q[..i][0] == q[0];
      MatchSelf(p[0].asns);
      PartRest(p, q, i, m);
      PartingIs(p[1..], q[1..], i - 1, m);
      assert p[1..][i - 1..] == p[i..] && q[1..][i - 1..] == q[i..];
      FrontCons(p, i, m);
    }
  }

  lemma PartRest(p: Path, q: Path, i: nat, m: nat)
    requires PartAt(p, q, i, m) && i > 0
    ensures PartAt(p[1..], q[1..], i - 1, m)
  {
    assert p[1..][..i - 1] == p[..i][1..] && q[1..][..i - 1] == q[..i][1..];
  }

  lemma FrontCons(p: Path, i: nat, m: nat)
    requires 0 < i <= |p| && (i < |p| ==> m <= |p[i].asns|)
    ensures Front(p, i, m) == Taken(p[0], |p[0].asns|) + Front(p[1..], i - 1, m)
  {
    assert p[..i][1..] == p[1..][..i - 1];
  }

  lemma {:induction false} PartSomewhere(p: Path, q: Path)
    ensures exists i: nat, m: nat :: PartAt(p, q, i, m)
  {
    if p == [] || q == [] || p[0].kind != q[0].kind {
      assert PartAt(p, q, 0, 0);
    } else {
      var m := MatchLength(p[0].asns, q[0].asns);
      if m == |p[0].asns| == |q[0].asns| {
        PartSomewhere(p[1..], q[1..]);
        var i: nat, n: nat :| PartAt(p[1..], q[1..], i, n);
        assert p[0] == q[0];
        assert p[..i + 1] == [p[0]] + p[1..][..i] && q[..i + 1] == [q[0]] + q[1..][..i];
        assert PartAt(p, q, i + 1, n);
      } else {
        assert PartAt(p, q, 0, m);
      }
    }
  }

  lemma LeftOver(p: Path, m: nat)
    requires p == [] ==> m == 0
    requires p != [] ==> m <= |p[0].asns|
    ensures m <= |Flat(p)| && Flat(Drop(p, m)) == Flat(p)[m..]
  {
    if p != [] && m > 0 {
      var s := p[0].asns;
      FlatCons(Segment(p[0].kind, s[m..]), p[1..]);
      assert (s + Flat(p[1..]))[m..] == s[m..] + Flat(p[1..]);
    }
  }

  /** The aggregate hop by hop: what both paths start with, and one set of the
      numbers either goes on with. */
  lemma AggregateLaw(p: Path, q: Path, i: nat, m: nat)
    requires PartAt(p, q, i, m)
    ensures m <= |Flat(p[i..])| && m <= |Flat(q[i..])|
    ensures var rest := Elems(Flat(p[i..])[m..] + Flat(q[i..])[m..]);
            Meaning(Aggregate(p, q)) == Meaning(Front(p, i, m)) + if rest == {} then [] else [AnyOf(rest)]
  {
    hide Parting, Normalise, AddAll, Flat, Meaning, Drop, Front;
    PartingIs(p, q, i, m);
    LeftOver(p[i..], m);
    LeftOver(q[i..], m);
    var rest1, rest2 := Flat(p[i..])[m..], Flat(q[i..])[m..];
    var asset := AddAll(AddAll([], rest1), rest2);
    AddAllElems([], rest1);
    AddAllElems(AddAll([], rest1), rest2);
    ElemsConcat(rest1, rest2);
    assert Elems(asset) == Elems(rest1 + rest2);
    var front := Front(p, i, m);
    NormaliseMeaning(front + SetOf(asset));
    MeaningConcat(front, SetOf(asset));
    SetOfFacts(asset);
    if asset == [] { NoHops(); } else { assert asset[0] in Elems(asset); }
  }

  lemma NoHops()
    ensures Meaning([]) == []
  {
  }

  lemma {:induction false} NonEmptySame(p: Path)
    ensures |NonEmpty(p)| <= |p|
    ensures NonEmpty(p) == p <==> NoEmptySegment(p)
    ensures |NonEmpty(p)| == |p| ==> NoEmptySegment(p)
    ensures NoEmptySegment(NonEmpty(p))
  {
    if p != [] {
      NonEmptySame(p[1..]);
      assert p == [p[0]] + p[1..];
      assert p[0].asns[..|p[0].asns|] == p[0].asns;
    }
  }

  /** A path aggregated with itself is its normal form without empty segments,
      hence itself exactly when it is in normal form without them. */
  lemma AggregateSelf(p: Path)
    ensures Aggregate(p, p) == Normalise(NonEmpty(p))
    ensures Aggregate(p, p) == p <==> Normal(p) && NoEmptySegment(p)
  {
    hide Normalise, Parting, NonEmpty;
    PartingSelf(p);
    NonEmptySame(p);
    assert AddAll(AddAll([], Flat([])), Flat([])) == [];
    assert NonEmpty(p) + [] == NonEmpty(p);
    if Normal(p) && NoEmptySegment(p) { NormalFixed(p); }
    NormaliseNormal(NonEmpty(p));
    NormaliseKeepsNonEmpty(NonEmpty(p));
  }

  lemma {:induction false} NormaliseKeepsNonEmpty(p: Path)
    requires NoEmptySegment(p)
    ensures NoEmptySegment(Normalise(p))
  {
    hide CanonSet;
    if p != [] {
      NormaliseKeepsNonEmpty(p[1..]);
      var seg, rest := p[0], Normalise(p[1..]);
      CanonSetCorrect(seg.asns);
      assert seg.asns[0] in Elems(seg.asns);
      assert Tidy(seg).asns != [];
      assert forall i :: 1 <= i < |Normalise(p)| ==>
        Normalise(p)[i] == if |Normalise(p)| == |rest| then rest[i] else rest[i - 1];
    }
  }

  lemma {:induction false} PartingSymmetric(p: Path, q: Path)
    ensures var f, g := Parting(p, q), Parting(q, p); g == Fork(f.common, f.rest2, f.rest1)
  {
    hide Drop, Taken;
    if p != [] && q != [] && p[0].kind == q[0].kind {
      var m := MatchLength(p[0].asns, q[0].asns);
      MatchSymmetric(p[0].asns, q[0].asns);
      TakenSame(p[0], q[0], m);
      if m == |p[0].asns| == |q[0].asns| { PartingSymmetric(p[1..], q[1..]); }
    }
  }

  lemma {:induction false} PartingNonEmpty(p: Path, q: Path)
    ensures NoEmptySequence(Parting(p, q).common)
  {
    if p != [] && q != [] && p[0].kind == q[0].kind {
      var m := MatchLength(p[0].asns, q[0].asns);
      if m == |p[0].asns| == |q[0].asns| { PartingNonEmpty(p[1..], q[1..]); }
    }
  }

  lemma NoEmptySequenceConcat(p: Path, q: Path)
    requires NoEmptySequence(p) && NoEmptySequence(q)
    ensures NoEmptySequence(p + q)
  {
  }

  /** Aggregation does not depend on the order of its arguments. */
  lemma AggregateCommutes(p: Path, q: Path)
    ensures Aggregate(p, q) == Aggregate(q, p)
  {
    hide Parting, Normalise, AddAll, Flat, Meaning, NoEmptySequence, SetOf;
    var f := Parting(p, q);
    PartingSymmetric(p, q);
    PartingNonEmpty(p, q);
    var s, t := Flat(f.rest1), Flat(f.rest2);
    var a, b := AddAll(AddAll([], s), t), AddAll(AddAll([], t), s);
    AddAllElems([], s); AddAllElems(AddAll([], s), t);
    AddAllElems([], t); AddAllElems(AddAll([], t), s);
    assert Elems(a) == Elems(b);
    SameSets(a, b);
    SetOfFacts(a); SetOfFacts(b);
    NoEmptySequenceConcat(f.common, SetOf(a));
    NoEmptySequenceConcat(f.common, SetOf(b));
    MeaningConcat(f.common, SetOf(a));
    MeaningConcat(f.common, SetOf(b));
    NoEmptyFilled(f.common + SetOf(a));
    NoEmptyFilled(f.common + SetOf(b));
    NormaliseCanonical(f.common + SetOf(a), f.common + SetOf(b));
  }

  lemma SameSets(a: seq<Asn>, b: seq<Asn>)
    requires Elems(a) == Elems(b)
    ensures Meaning(SetOf(a)) == Meaning(SetOf(b))
  {
    SetOfFacts(a);
    SetOfFacts(b);
    if a != [] { assert a[0] in Elems(b); }
    if b != [] { assert b[0] in Elems(a); }
  }

  // ------------------------------------------------------------- the algorithm

  /** The inner loop: how many leading numbers agree. */
  method CountMatch(a: seq<Asn>, b: seq<Asn>) returns (n: nat)
    ensures n == MatchLength(a, b)
  {
    n := 0;
    while n < |a| && n < |b| && a[n] == b[n]
      invariant n <= |a| && n <= |b|
      invariant MatchLength(a, b) == n + MatchLength(a[n..], b[n..])
    {
      assert a[n..][1..] == a[n + 1..] && b[n..][1..] == b[n + 1..];
      n := n + 1;
    }
  }

  lemma PartingStep(p: Path, q: Path, i: nat, common: Path)
    requires i < |p| && i < |q|
    ensures var m := MatchLength(p[i].asns, q[i].asns);
            var f, g := Parting(p[i..], q[i..]), Parting(p[i + 1..], q[i + 1..]);
            if p[i].kind != q[i].kind then f == Fork([], p[i..], q[i..])
            else if m == |p[i].asns| == |q[i].asns| then common + f.common == common + Taken(p[i], m) + g.common &&
                f.rest1 == g.rest1 && f.rest2 == g.rest2
            else f == Fork(Taken(p[i], m), Drop(p[i..], m), Drop(q[i..], m))
  {
    hide Taken, Drop, MatchLength;
    assert p[i..][1..] == p[i + 1..] && q[i..][1..] == q[i + 1..];
    var m := MatchLength(p[i].asns, q[i].asns);
    var g := Parting(p[i + 1..], q[i + 1..]);
    assert common + (Taken(p[i], m) + g.common) == common + Taken(p[i], m) + g.common;
  }

  /** "Check common leading sequence": the common front, and where in which
      segment it ends. */
  method CommonFront(p: Path, q: Path) returns (common: Path, i: nat, from: nat)
    ensures i <= |p| && i <= |q| && (i < |p| ==> from <= |p[i].asns|) && (i < |q| ==> from <= |q[i].asns|)
    ensures Parting(p, q) == Fork(common, Drop(p[i..], from), Drop(q[i..], from))
  {
    hide Parting, Taken, MatchLength;
    common, i, from := [], 0, 0;
    assert p[0..] == p && q[0..] == q;
    ghost var goal := Parting(p, q);
    assert [] + goal.common == goal.common;
    while i < |p| && i < |q|
      invariant i <= |p| && i <= |q| && from == 0
      invariant var f := Parting(p[i..], q[i..]); goal == Fork(common + f.common, f.rest1, f.rest2)
      decreases |p| - i
    {
      PartingStep(p, q, i, common);
      if p[i].kind != q[i].kind {
        assert common + [] == common;
        return;
      }
      var matched := CountMatch(p[i].asns, q[i].asns);
      common := common + Taken(p[i], matched);
      if matched != |p[i].asns| || |p[i].asns| != |q[i].asns| {
        from := matched;
        return;
      }
      i := i + 1;
    }
    PartingEnd(p[i..], q[i..]);
    assert common + [] == common;
  }

  lemma PartingEnd(p: Path, q: Path)
    requires p == [] || q == []
    ensures Parting(p, q) == Fork([], p, q)
  {
  }

  /** aspath_aggregate_as_set_add, with an empty sequence for no set yet. */
  method SetAdd(asset: seq<Asn>, a: Asn) returns (r: seq<Asn>)
    ensures r == if a in asset then asset else asset + [a]
  {
    var i := 0;
    while i < |asset|
      invariant i <= |asset| && a !in asset[..i]
    {
      if asset[i] == a { return asset; }
      assert asset[..i + 1] == asset[..i] + [asset[i]];
      i := i + 1;
    }
    assert asset[..i] == asset;
    r := asset + [a];
  }

  method AddFrom(asset: seq<Asn>, s: seq<Asn>, from: nat) returns (r: seq<Asn>)
    requires from <= |s|
    ensures r == AddAll(asset, s[from..])
  {
    hide AddAll;
    r := asset;
    var i := from;
    AddNone(asset);
    assert s[from..from] == [];
    while i < |s|
      invariant from <= i <= |s| && r == AddAll(asset, s[from..i])
    {
      assert s[from..i + 1] == s[from..i] + [s[i]];
      AddAllConcat(asset, s[from..i], [s[i]]);
      AddOne(r, s[i]);
      r := SetAdd(r, s[i]);
      i := i + 1;
    }
    assert s[from..i] == s[from..];
  }

  lemma AddNone(asset: seq<Asn>)
    ensures AddAll(asset, []) == asset
  {
  }

  lemma AddOne(asset: seq<Asn>, a: Asn)
    ensures AddAll(asset, [a]) == if a in asset then asset else asset + [a]
  {
    assert [a][1..] == [];
  }

  /** "Make as-set using rest of all information", for one of the paths. */
  method AddRest(asset: seq<Asn>, p: Path, at: nat, offset: nat) returns (r: seq<Asn>)
    requires at <= |p| && (at < |p| ==> offset <= |p[at].asns|)
    ensures r == AddAll(asset, Flat(Drop(p[at..], offset)))
  {
    hide AddAll, Flat, Drop;
    r := asset;
    var i: nat, from: nat := at, offset;
    ghost var goal := AddAll(asset, Flat(Drop(p[at..], offset)));
    while i < |p|
      invariant at <= i <= |p| && (i < |p| ==> from <= |p[i].asns|)
      invariant AddAll(r, Flat(Drop(p[i..], from))) == goal
    {
      DropHead(p, i, from);
      AddAllConcat(r, p[i].asns[from..], Flat(p[i + 1..]));
      r := AddFrom(r, p[i].asns, from);
      from := 0;
      i := i + 1;
      DropNone(p[i..]);
    }
    assert p[i..] == [];
    DropEnd(from);
    AddNone(r);
  }

  lemma DropHead(p: Path, i: nat, from: nat)
    requires i < |p| && from <= |p[i].asns|
    ensures Flat(Drop(p[i..], from)) == p[i].asns[from..] + Flat(p[i + 1..])
  {
    hide Flat;
    assert p[i..][1..] == p[i + 1..];
    if from == 0 {
      FlatHead(p[i..]);
      assert p[i].asns[0..] == p[i].asns;
    } else {
      FlatCons(Segment(p[i].kind, p[i].asns[from..]), p[i + 1..]);
    }
  }

  lemma DropNone(p: Path)
    ensures Drop(p, 0) == p
  {
  }

  lemma DropEnd(from: nat)
    ensures Flat(Drop([], from)) == []
  {
  }

  /** aspath_aggregate. */
  method AggregatePaths(p: Path, q: Path) returns (r: Chain)
    ensures fresh(r) && r.segments == Aggregate(p, q)
  {
    hide Parting, AddAll, Flat, Drop, Normalise;
    var common, i, from := CommonFront(p, q);
    var asset := AddRest([], p, i, from);
    asset := AddRest(asset, q, i, from);
    r := new Chain(common + SetOf(asset));
    r.NormaliseInPlace();
  }
}
