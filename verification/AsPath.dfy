/** AS paths: the segment chain of bgp_aspath.c, what a chain means, and the
    normal form every stored path is kept in. */
module AsPath {
  import opened Lists

  const AS_SEGMENT_MAX: nat := 255
  const BGP_AS_MAX: nat := 65535
  const BGP_AS_TRANS: nat := 23456

  type Asn = n: nat | n < 0x1_0000_0000
  datatype Kind = AsSet | AsSequence | AsConfedSequence | AsConfedSet
  datatype Segment = Segment(kind: Kind, asns: seq<Asn>)
  type Path = seq<Segment>

  predicate IsSetKind(k: Kind) { k == AsSet || k == AsConfedSet }
  predicate IsConfedKind(k: Kind) { k == AsConfedSequence || k == AsConfedSet }

  // ---------------------------------------------------------------- meaning

  /** What one step of a path means, independently of how segments store it. */
  datatype Hop =
    | One(asn: Asn)
    | AnyOf(members: set<nat>)
    | ConfedRun(run: seq<Asn>)
    | ConfedAnyOf(members: set<nat>)

  function SegmentMeaning(seg: Segment): (m: seq<Hop>)
  {
    match seg.kind
    case AsSequence => seq(|seg.asns|, i requires 0 <= i < |seg.asns| => One(seg.asns[i]))
    case AsSet => [AnyOf(Elems(seg.asns))]
    case AsConfedSequence => [ConfedRun(seg.asns)]
    case AsConfedSet => [ConfedAnyOf(Elems(seg.asns))]
  }

  function Meaning(p: Path): seq<Hop>
  {
    if p == [] then [] else SegmentMeaning(p[0]) + Meaning(p[1..])
  }

  lemma {:induction false} MeaningConcat(p: Path, q: Path)
    ensures Meaning(p + q) == Meaning(p) + Meaning(q)
  {
    if p == [] {
      assert p + q == q;
    } else {
      assert (p + q)[1..] == p[1..] + q;
      MeaningConcat(p[1..], q);
    }
  }

  // ------------------------------------------------------------ sorted sets

  lemma AscendingCons(x: Asn, t: seq<Asn>)
    requires Ascending(t) && forall y :: y in t ==> x <= y
    ensures Ascending([x] + t)
  {
    var r := [x] + t;
    forall i, j | 0 <= i < j < |r| ensures r[i] <= r[j] {
      assert r[j] == t[j - 1] && t[j - 1] in t;
      if i > 0 { assert r[i] == t[i - 1]; }
    }
  }

  function Insert(x: Asn, s: seq<Asn>): (r: seq<Asn>)
    requires Ascending(s)
    ensures Ascending(r) && |r| == |s| + 1
    ensures forall y :: y in r <==> y == x || y in s
  {
    if s == [] || x <= s[0] then [x] + s
    else
      var t := Insert(x, s[1..]);
      assert s == [s[0]] + s[1..];
      assert forall y :: y in s[1..] ==> s[0] <= y;
      AscendingCons(s[0], t);
      [s[0]] + t
  }

  /** What qsort with int_cmp leaves in the array. */
  function Sort(s: seq<Asn>): (r: seq<Asn>)
    ensures Ascending(r) && |r| == |s|
    ensures forall y :: y in r <==> y in s
  {
    if s == [] then [] else
      assert s == [s[0]] + s[1..];
      Insert(s[0], Sort(s[1..]))
  }

  /** The first of each run of equal neighbours. */
  function DropDups(s: seq<Asn>): (r: seq<Asn>)
    ensures |r| <= |s| && (r == [] <==> s == [])
    ensures r != [] ==> r[|r| - 1] == s[|s| - 1]
  {
    var n := |s|;
    if n <= 1 then s
    else if s[n - 2] == s[n - 1] then DropDups(s[..n - 1])
    else DropDups(s[..n - 1]) + [s[n - 1]]
  }

  lemma {:induction false} DropDupsElems(s: seq<Asn>)
    ensures forall y :: y in DropDups(s) <==> y in s
  {
    var n := |s|;
    if n > 1 {
      DropDupsElems(s[..n - 1]);
      assert s == s[..n - 1] + [s[n - 1]];
      assert s[..n - 1][n - 2] == s[n - 2];
    }
  }

  lemma {:induction false} DropDupsAscending(s: seq<Asn>)
    requires Ascending(s)
    ensures StrictlyAscending(DropDups(s))
  {
    var n := |s|;
    if n > 1 {
      DropDupsAscending(s[..n - 1]);
      if s[n - 2] != s[n - 1] {
        var d := DropDups(s[..n - 1]);
        assert d[|d| - 1] == s[n - 2] < s[n - 1];
        forall i | 0 <= i < |d| ensures d[i] < s[n - 1] { assert d[i] <= d[|d| - 1]; }
      }
    }
  }

  function CanonSet(s: seq<Asn>): seq<Asn> { DropDups(Sort(s)) }

  lemma CanonSetCorrect(s: seq<Asn>)
    ensures StrictlyAscending(CanonSet(s)) && Elems(CanonSet(s)) == Elems(s)
  {
    DropDupsAscending(Sort(s));
    DropDupsElems(Sort(s));
  }

  // -------------------------------------------------------------- normalise

  function Tidy(seg: Segment): Segment
  {
    if IsSetKind(seg.kind) then seg.(asns := CanonSet(seg.asns)) else seg
  }

  predicate Packable(a: Segment, b: Segment) { a.kind == AsSequence && b.kind == AsSequence }

  /** Tidy a segment and join it to the front of an already normalised chain. */
  function Join(seg: Segment, rest: Path): (r: Path)
    ensures r != [] && r[0].kind == seg.kind
  {
    if rest != [] && Packable(seg, rest[0])
    then [Segment(AsSequence, seg.asns + rest[0].asns)] + rest[1..]
    else [Tidy(seg)] + rest
  }

  /** Specification of assegment_normalise. */
  function Normalise(p: Path): (r: Path)
    ensures p == [] <==> r == []
    ensures p != [] ==> r[0].kind == p[0].kind
  {
    if p == [] then [] else Join(p[0], Normalise(p[1..]))
  }

  /** No empty AS_SEQUENCE; parsed paths never hold one. */
  predicate NoEmptySequence(p: Path)
  {
    forall i :: 0 <= i < |p| && p[i].kind == AsSequence ==> p[i].asns != []
  }

  predicate NoAdjacentSequences(p: Path)
  {
    forall i :: 0 <= i < |p| - 1 ==> !Packable(p[i], p[i + 1])
  }

  predicate SetsTidy(p: Path)
  {
    forall i :: 0 <= i < |p| && IsSetKind(p[i].kind) ==> StrictlyAscending(p[i].asns)
  }

  predicate Normal(p: Path) { NoAdjacentSequences(p) && SetsTidy(p) }

  lemma {:induction false} NormaliseNormal(p: Path)
    ensures Normal(Normalise(p))
    ensures NoEmptySequence(p) ==> NoEmptySequence(Normalise(p))
  {
    if p != [] {
      NormaliseNormal(p[1..]);
      var rest := Normalise(p[1..]);
      CanonSetCorrect(p[0].asns);
      var r := Normalise(p);
      if rest != [] && Packable(p[0], rest[0]) {
        assert r[1..] == rest[1..];
        forall i | 0 <= i < |r| - 1 ensures !Packable(r[i], r[i + 1]) {
          assert r[i + 1] == rest[i + 1] && r[i].kind == rest[i].kind;
        }
      } else {
        forall i | 0 <= i < |r| - 1 ensures !Packable(r[i], r[i + 1]) {
          if i > 0 { assert r[i] == rest[i - 1] && r[i + 1] == rest[i]; }
        }
      }
    }
  }

  /** On a path already in normal form, normalising changes nothing. */
  lemma {:induction false} NormalFixed(p: Path)
    requires Normal(p)
    ensures Normalise(p) == p
  {
    if p != [] {
      assert forall i :: 0 <= i < |p| - 1 ==> p[1..][i] == p[i + 1];
      assert forall i :: 0 <= i < |p[1..]| - 1 ==> Packable(p[1..][i], p[1..][i + 1]) == Packable(p[i + 1], p[i + 2]);
      NormalFixed(p[1..]);
      if IsSetKind(p[0].kind) {
        CanonSetCorrect(p[0].asns);
        StrictUnique(CanonSet(p[0].asns), p[0].asns);
      }
      if |p| > 1 { assert !Packable(p[0], p[1]); }
      assert p == [p[0]] + p[1..];
    }
  }

  lemma NormaliseIdempotent(p: Path)
    ensures Normalise(Normalise(p)) == Normalise(p)
  {
    NormaliseNormal(p);
    NormalFixed(Normalise(p));
  }

  lemma {:induction false} SequenceMeaningSplit(a: seq<Asn>, b: seq<Asn>)
    ensures SegmentMeaning(Segment(AsSequence, a + b))
         == SegmentMeaning(Segment(AsSequence, a)) + SegmentMeaning(Segment(AsSequence, b))
  {
  }

  lemma {:induction false} MeaningCons(seg: Segment, rest: Path)
    ensures Meaning([seg] + rest) == SegmentMeaning(seg) + Meaning(rest)
  {
    assert ([seg] + rest)[1..] == rest;
  }

  lemma TidyMeaning(seg: Segment)
    ensures SegmentMeaning(Tidy(seg)) == SegmentMeaning(seg)
  {
    CanonSetCorrect(seg.asns);
  }

  lemma {:induction false} JoinMeaning(seg: Segment, rest: Path)
    ensures Meaning(Join(seg, rest)) == SegmentMeaning(seg) + Meaning(rest)
  {
    if rest != [] && Packable(seg, rest[0]) {
      var a, b := seg.asns, rest[0].asns;
      MeaningCons(Segment(AsSequence, a + b), rest[1..]);
      SequenceMeaningSplit(a, b);
    } else {
      MeaningCons(Tidy(seg), rest);
      TidyMeaning(seg);
    }
  }

  lemma {:induction false} NormaliseMeaning(p: Path)
    ensures Meaning(Normalise(p)) == Meaning(p)
  {
    if p != [] {
      NormaliseMeaning(p[1..]);
      JoinMeaning(p[0], Normalise(p[1..]));
    }
  }

  // ------------------------------------------------------------- canonicity

  ghost function Listing(s: set<nat>): seq<Asn>
  {
    if exists l: seq<Asn> :: StrictlyAscending(l) && Elems(l) == s
    then var l: seq<Asn> :| StrictlyAscending(l) && Elems(l) == s; l
    else []
  }

  lemma ListingOf(l: seq<Asn>)
    requires StrictlyAscending(l)
    ensures Listing(Elems(l)) == l
  {
    StrictUnique(Listing(Elems(l)), l);
  }

  /** The one stored form of a meaning. */
  ghost function Rebuild(m: seq<Hop>): Path
  {
    if m == [] then [] else
      var rest := Rebuild(m[1..]);
      match m[0]
      case One(a) => Join(Segment(AsSequence, [a]), rest)
      case AnyOf(s) => [Segment(AsSet, Listing(s))] + rest
      case ConfedRun(r) => [Segment(AsConfedSequence, r)] + rest
      case ConfedAnyOf(s) => [Segment(AsConfedSet, Listing(s))] + rest
  }

  lemma {:induction false} RebuildSequence(s: seq<Asn>, m: seq<Hop>)
    requires s != [] && (Rebuild(m) == [] || Rebuild(m)[0].kind != AsSequence)
    ensures Rebuild(SegmentMeaning(Segment(AsSequence, s)) + m) == [Segment(AsSequence, s)] + Rebuild(m)
  {
    var all := SegmentMeaning(Segment(AsSequence, s)) + m;
    if |s| == 1 {
      assert all[0] == One(s[0]) && all[1..] == m && s == [s[0]];
    } else {
      RebuildSequence(s[1..], m);
      assert all[1..] == SegmentMeaning(Segment(AsSequence, s[1..])) + m;
      assert [s[0]] + s[1..] == s;
    }
  }

  lemma {:induction false} RebuildMeaning(p: Path)
    requires Normal(p) && NoEmptySequence(p)
    ensures Rebuild(Meaning(p)) == p
  {
    if p != [] {
      var rest := p[1..];
      assert p == [p[0]] + rest;
      assert forall i :: 0 <= i < |rest| ==> rest[i] == p[i + 1];
      assert forall i :: 0 <= i < |rest| - 1 ==> Packable(rest[i], rest[i + 1]) == Packable(p[i + 1], p[i + 2]);
      RebuildMeaning(rest);
      if |p| > 1 { assert !Packable(p[0], p[1]); }
      if p[0].kind == AsSequence {
        RebuildSequence(p[0].asns, Meaning(rest));
      } else {
        assert Meaning(p)[1..] == Meaning(rest);
        if IsSetKind(p[0].kind) { ListingOf(p[0].asns); }
      }
    }
  }

  /** The normal form is a function of the meaning alone. */
  lemma {:induction false} NormaliseRebuild(p: Path)
    requires NoEmptySequence(p)
    ensures Normalise(p) == Rebuild(Meaning(p))
  {
    hide Meaning, Normalise, Rebuild;
    NormaliseNormal(p);
    NormaliseMeaning(p);
    RebuildMeaning(Normalise(p));
  }

  /** Normalising is canonical: equal results exactly for equal meanings. */
  lemma {:induction false} NormaliseCanonical(p: Path, q: Path)
    requires RunsFilled(p) && RunsFilled(q)
    ensures Normalise(p) == Normalise(q) <==> Meaning(p) == Meaning(q)
  {
    hide Meaning, Normalise, Rebuild, RunsFilled;
    NormaliseMeaning(p); NormaliseExact(p);
    NormaliseMeaning(q); NormaliseExact(q);
  }

  /** The numbers of the sequences a chain starts with, and what follows them. */
  function RunAsns(p: Path): seq<Asn>
  {
    if p == [] || p[0].kind != AsSequence then [] else p[0].asns + RunAsns(p[1..])
  }

  function AfterRun(p: Path): (r: Path)
    ensures |r| <= |p| && (r == [] || r[0].kind != AsSequence)
    ensures p != [] && p[0].kind == AsSequence ==> |r| < |p|
  {
    if p == [] || p[0].kind != AsSequence then p else AfterRun(p[1..])
  }

  /** Every run of adjacent sequences has a number in it. */
  predicate RunsFilled(p: Path)
    decreases |p|
  {
    p == [] || if p[0].kind == AsSequence then RunAsns(p) != [] && RunsFilled(AfterRun(p)) else RunsFilled(p[1..])
  }

  lemma {:induction false} NoEmptyFilled(p: Path)
    requires NoEmptySequence(p)
    ensures RunsFilled(p) && NoEmptySequence(AfterRun(p))
    decreases |p|
  {
    if p != [] {
      assert forall i :: 0 <= i < |p| - 1 ==> p[1..][i] == p[i + 1];
      NoEmptyFilled(p[1..]);
      if p[0].kind == AsSequence { NoEmptyFilled(AfterRun(p)); }
    }
  }

  /** A run is packed into one segment. */
  lemma {:induction false} NormaliseRun(p: Path)
    requires p != [] && p[0].kind == AsSequence
    ensures Normalise(p) == [Segment(AsSequence, RunAsns(p))] + Normalise(AfterRun(p))
  {
    var rest := p[1..];
    if rest != [] && rest[0].kind == AsSequence {
      NormaliseRun(rest);
      assert Normalise(rest)[1..] == Normalise(AfterRun(rest));
    } else {
      assert AfterRun(p) == rest && RunAsns(p) == p[0].asns + [] == p[0].asns;
      assert Normalise(rest) != [] ==> Normalise(rest)[0].kind == rest[0].kind;
    }
  }

  lemma NoEmptyCons(seg: Segment, rest: Path)
    ensures NoEmptySequence([seg] + rest) <==> (seg.kind == AsSequence ==> seg.asns != []) && NoEmptySequence(rest)
  {
    var all := [seg] + rest;
    assert all[0] == seg && forall i :: 0 <= i < |rest| ==> all[i + 1] == rest[i];
  }

  /** Which chains lose all their empty sequences. */
  lemma {:induction false} FilledExactly(p: Path)
    ensures NoEmptySequence(Normalise(p)) <==> RunsFilled(p)
    decreases |p|
  {
    hide NoEmptySequence;
    if p == [] {
      NothingEmpty();
    } else if p[0].kind == AsSequence {
      NormaliseRun(p);
      FilledExactly(AfterRun(p));
      NoEmptyCons(Segment(AsSequence, RunAsns(p)), Normalise(AfterRun(p)));
    } else {
      FilledExactly(p[1..]);
      NoEmptyCons(Tidy(p[0]), Normalise(p[1..]));
    }
  }

  lemma NothingEmpty()
    ensures NoEmptySequence([])
  {
  }

  lemma {:induction false} RebuildNoEmpty(m: seq<Hop>)
    ensures NoEmptySequence(Rebuild(m))
  {
    hide NoEmptySequence;
    NothingEmpty();
    if m != [] {
      RebuildNoEmpty(m[1..]);
      var rest, r := Rebuild(m[1..]), Rebuild(m);
      NoEmptyCons(r[0], r[1..]);
      if rest != [] { NoEmptyCons(rest[0], rest[1..]); assert rest == [rest[0]] + rest[1..]; }
      assert r == [r[0]] + r[1..] && (r[1..] == rest || (rest != [] && r[1..] == rest[1..]));
    }
  }

  /** The normal form is the stored form of the meaning exactly when every run of
      sequences has a number in it. */
  lemma NormaliseExact(p: Path)
    ensures Normalise(p) == Rebuild(Meaning(p)) <==> RunsFilled(p)
  {
    hide Meaning, Normalise, Rebuild, RunsFilled;
    FilledExactly(p);
    RebuildNoEmpty(Meaning(p));
    NormaliseNormal(p);
    NormaliseMeaning(p);
    if RunsFilled(p) { RebuildMeaning(Normalise(p)); }
  }

  /** A sequence empty by itself survives normalising, so equal meanings do not
      make equal results without the condition. */
  lemma EmptySequenceNotCanonical()
    ensures var p: Path := [Segment(AsSequence, [])];
            Meaning(p) == Meaning([]) && Normalise(p) != Normalise([])
  {
    assert SegmentMeaning(Segment(AsSequence, [])) == [];
  }

  // ------------------------------------------------------------- hop counts

  /** aspath_count_hops: a sequence counts its members, a set counts once. */
  function Hops(p: Path): nat
  {
    if p == [] then 0 else
      (match p[0].kind case AsSequence => |p[0].asns| case AsSet => 1 case _ => 0) + Hops(p[1..])
  }

  /** aspath_count_confeds. */
  function Confeds(p: Path): nat
  {
    if p == [] then 0 else
      (match p[0].kind case AsConfedSequence => |p[0].asns| case AsConfedSet => 1 case _ => 0)
      + Confeds(p[1..])
  }

  predicate ConfedFree(p: Path) { forall i :: 0 <= i < |p| ==> !IsConfedKind(p[i].kind) }

  lemma {:induction false} HopsMeaning(p: Path)
    requires ConfedFree(p)
    ensures Hops(p) == |Meaning(p)| && Confeds(p) == 0
  {
    if p != [] { HopsMeaning(p[1..]); }
  }

  lemma {:induction false} NormaliseHops(p: Path)
    ensures Hops(Normalise(p)) == Hops(p) && Confeds(Normalise(p)) == Confeds(p)
  {
    if p != [] {
      NormaliseHops(p[1..]);
      var rest := Normalise(p[1..]);
      if rest != [] && Packable(p[0], rest[0]) {
        assert Normalise(p)[1..] == rest[1..];
      } else {
        assert Normalise(p)[1..] == rest;
      }
    }
  }

  lemma {:induction false} HopsConcat(p: Path, q: Path)
    ensures Hops(p + q) == Hops(p) + Hops(q)
    ensures Confeds(p + q) == Confeds(p) + Confeds(q)
  {
    if p == [] {
      assert p + q == q;
    } else {
      assert (p + q)[1..] == p[1..] + q;
      HopsConcat(p[1..], q);
    }
  }

  lemma {:induction false} NormaliseConfedFree(p: Path)
    requires ConfedFree(p)
    ensures ConfedFree(Normalise(p))
  {
    if p != [] { NormaliseConfedFree(p[1..]); }
  }
}
