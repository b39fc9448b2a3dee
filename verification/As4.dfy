/** 4-octet AS numbers across 2-octet speakers: aspath_reconcile_as4, the AS4
    part of received attributes, and the end-to-end theorems. */
module As4 {
  import opened Lists
  import opened AsPath
  import opened AsPathChain
  import opened AsPathCodec
  import opened Wire

  // --------------------------------------------------------------- reconcile

  function Min(a: int, b: int): int { if a < b then a else b }

  /** The segments the loop of aspath_reconcile_as4 copies from segment i on. */
  function TakeHops(p: Path, i: nat, hops: int): Path
    requires i <= |p|
    decreases |p| - i
  {
    if i == |p| || hops <= 0 then [] else
      var n := |p[i].asns|;
      match p[i].kind
      case AsSet => [p[i]] + TakeHops(p, i + 1, hops - 1)
      case AsConfedSet => [p[i]] + TakeHops(p, i + 1, hops - 1)
      case AsConfedSequence => [p[i]] + TakeHops(p, i + 1, (if hops < n then n else hops) - n)
      case AsSequence => [Segment(AsSequence, p[i].asns[..Min(n, hops)])] + TakeHops(p, i + 1, hops - n)
  }

  /** How many leading hops of AS_PATH are kept in front of AS4_PATH. */
  function KeptHops(aspath: Path, as4path: Path): nat
  {
    var hops := Hops(aspath) + Confeds(aspath) - Hops(as4path);
    if hops < 0 then Hops(aspath) else hops
  }

  /** Specification of aspath_reconcile_as4. */
  function Reconcile(aspath: Path, as4path: Path): Path
  {
    var hops := KeptHops(aspath, as4path);
    if hops == 0 then as4path else Normalise(TakeHops(aspath, 0, hops) + as4path)
  }

  /** aspath_merge dereferences the last segment of its first path, so it must
      never be given an empty one. */
  lemma {:induction false} MergePrefixNonEmpty(aspath: Path, as4path: Path)
    requires KeptHops(aspath, as4path) > 0
    ensures TakeHops(aspath, 0, KeptHops(aspath, as4path)) != []
  {
  }

  /** aspath_reconcile_as4 as it runs. */
  method ReconcileAs4(aspath: Chain, as4path: Chain) returns (merged: Chain)
    ensures fresh(merged) && merged.segments == Reconcile(aspath.segments, as4path.segments)
  {
    var plain := aspath.CountHops();
    var confeds := aspath.CountConfeds();
    var plain4 := as4path.CountHops();
    var hops := (plain + confeds) as int - plain4;
    if hops < 0 { hops := plain; }
    if hops == 0 {
      merged := new Chain(as4path.segments);
      return;
    }
    var prefix := CopyHops(aspath.segments, hops);
    MergePrefixNonEmpty(aspath.segments, as4path.segments);
    merged := Merge(prefix, as4path.segments);
    merged.NormaliseInPlace();
  }

  /** One turn of the copying loop: the copied segment and the hops left. */
  function Turn(seg: Segment, hops: int): (Segment, int)
    requires hops > 0
  {
    var n := |seg.asns|;
    match seg.kind
    case AsSet => (seg, hops - 1)
    case AsConfedSet => (seg, hops - 1)
    case AsConfedSequence => (seg, (if hops < n then n else hops) - n)
    case AsSequence => (Segment(AsSequence, seg.asns[..Min(n, hops)]), hops - n)
  }

  lemma {:induction false} TakeTurn(p: Path, i: nat, hops: int)
    requires i < |p| && hops > 0
    ensures TakeHops(p, i, hops) == [Turn(p[i], hops).0] + TakeHops(p, i + 1, Turn(p[i], hops).1)
  {
  }

  lemma {:induction false} TakeEnd(p: Path, i: nat, hops: int)
    requires i <= |p| && (i == |p| || hops <= 0)
    ensures TakeHops(p, i, hops) == []
  {
  }

  method CopySegment(seg: Segment, before: int) returns (newseg: Segment, hops: int)
    requires before > 0
    ensures (newseg, hops) == Turn(seg, before)
  {
    hops := before;
    var cpasns := 0;
    match seg.kind {
      case AsSet | AsConfedSet =>
        hops := hops - 1;
        cpasns := |seg.asns|;
      case AsConfedSequence =>
        if hops < |seg.asns| { hops := |seg.asns|; }
        cpasns := Min(|seg.asns|, hops);
        hops := hops - |seg.asns|;
      case AsSequence =>
        cpasns := Min(|seg.asns|, hops);
        hops := hops - |seg.asns|;
    }
    assert seg.asns[..|seg.asns|] == seg.asns;
    newseg := Segment(seg.kind, seg.asns[..cpasns]);
  }

  method CopyHops(p: Path, kept: int) returns (prefix: Path)
    ensures prefix == TakeHops(p, 0, kept)
  {
    hide Turn, TakeHops;
    var hops, seg := kept, 0;
    prefix := [];
    while seg < |p| && hops > 0
      invariant seg <= |p|
      invariant prefix + TakeHops(p, seg, hops) == TakeHops(p, 0, kept)
    {
      TakeTurn(p, seg, hops);
      var newseg;
      newseg, hops := CopySegment(p[seg], hops);
      assert prefix + ([newseg] + TakeHops(p, seg + 1, hops)) == prefix + [newseg] + TakeHops(p, seg + 1, hops);
      prefix := prefix + [newseg];
      seg := seg + 1;
    }
    TakeEnd(p, seg, hops);
  }

  /** aspath_merge: needs a segment to hang the second chain on. */
  method Merge(as1: Path, as2: Path) returns (r: Chain)
    requires as1 != []
    ensures fresh(r) && r.segments == as1 + as2
  {
    r := new Chain(as1 + as2);
  }

  // ------------------------------------------------- what reconciling means

  /** What a hop counts for: a confederation sequence as much as it has numbers. */
  function Weight(h: Hop): nat { match h case ConfedRun(run) => |run| case _ => 1 }

  function TotalWeight(m: seq<Hop>): nat { if m == [] then 0 else Weight(m[0]) + TotalWeight(m[1..]) }

  /** Leading hops up to a weight; the one that reaches it is kept whole. */
  function TakeWeight(m: seq<Hop>, w: int): seq<Hop>
  {
    if m == [] || w <= 0 then [] else [m[0]] + TakeWeight(m[1..], w - Weight(m[0]))
  }

  lemma {:induction false} TotalWeightConcat(a: seq<Hop>, b: seq<Hop>)
    ensures TotalWeight(a + b) == TotalWeight(a) + TotalWeight(b)
  {
    if a == [] {
      assert a + b == b;
    } else {
      assert (a + b)[1..] == a[1..] + b;
      TotalWeightConcat(a[1..], b);
    }
  }

  predicate Plain(m: seq<Hop>) { forall h :: h in m ==> Weight(h) == 1 }

  lemma {:induction false} PlainWeight(m: seq<Hop>)
    requires Plain(m)
    ensures TotalWeight(m) == |m|
  {
    if m != [] { PlainWeight(m[1..]); }
  }

  lemma {:induction false} TakePlain(a: seq<Hop>, b: seq<Hop>, w: nat)
    requires Plain(a)
    ensures TakeWeight(a + b, w) == if w <= |a| then a[..w] else a + TakeWeight(b, w - |a|)
  {
    if a == [] {
      assert a + b == b;
    } else if w > 0 {
      var head, rest := a[0], a[1..];
      assert (a + b)[1..] == rest + b;
      assert head in a;
      TakePlain(rest, b, w - 1);
      assert TakeWeight(a + b, w) == [head] + TakeWeight(rest + b, w - 1);
      if w <= |a| {
        assert a[..w] == [head] + rest[..w - 1];
      } else {
        assert a + TakeWeight(b, w - |a|) == [head] + (rest + TakeWeight(b, w - |a|));
      }
    }
  }

  /** Taking the weight of a front without weightless hops takes the front. */
  lemma {:induction false} TakeFront(a: seq<Hop>, b: seq<Hop>)
    requires forall h :: h in a ==> Weight(h) > 0
    ensures TakeWeight(a + b, TotalWeight(a)) == a
  {
    hide Weight;
    if a == [] {
      TakeNone(a + b, 0);
    } else {
      var head, rest := a[0], a[1..];
      assert head in a && forall h :: h in rest ==> h in a;
      TakeFront(rest, b);
      assert (a + b)[1..] == rest + b && (a + b)[0] == head;
      assert TakeWeight(a + b, TotalWeight(a)) == [head] + TakeWeight(rest + b, TotalWeight(rest));
      assert a == [head] + rest;
    }
  }

  lemma SegmentMeaningPlain(seg: Segment)
    ensures seg.kind != AsConfedSequence ==> Plain(SegmentMeaning(seg))
    ensures |SegmentMeaning(seg)| == if seg.kind == AsSequence then |seg.asns| else 1
    ensures seg.kind == AsConfedSequence ==> SegmentMeaning(seg) == [ConfedRun(seg.asns)]
  {
  }

  /** Both counters together weigh the path. */
  lemma {:induction false} CountsWeigh(p: Path)
    ensures Hops(p) + Confeds(p) == TotalWeight(Meaning(p))
  {
    hide SegmentMeaning;
    if p != [] {
      CountsWeigh(p[1..]);
      var m := SegmentMeaning(p[0]);
      SegmentMeaningPlain(p[0]);
      TotalWeightConcat(m, Meaning(p[1..]));
      if p[0].kind != AsConfedSequence {
        PlainWeight(m);
      } else {
        assert TotalWeight([ConfedRun(p[0].asns)]) == |p[0].asns| + TotalWeight([]);
      }
    }
  }

  lemma {:induction false} TakeHopsNoEmpty(p: Path, i: nat, hops: int)
    requires i <= |p| && NoEmptySequence(p)
    ensures NoEmptySequence(TakeHops(p, i, hops))
    decreases |p| - i
  {
    if i < |p| && hops > 0 {
      var n := |p[i].asns|;
      match p[i].kind {
        case AsConfedSequence => TakeHopsNoEmpty(p, i + 1, (if hops < n then n else hops) - n);
        case AsSequence => TakeHopsNoEmpty(p, i + 1, hops - n);
        case _ => TakeHopsNoEmpty(p, i + 1, hops - 1);
      }
    }
  }

  lemma {:induction false} TakeHopsMeaning(p: Path, i: nat, hops: int)
    requires i <= |p|
    ensures Meaning(TakeHops(p, i, hops)) == TakeWeight(Meaning(p[i..]), hops)
    decreases |p| - i
  {
    hide SegmentMeaning, TakeWeight, Meaning;
    TakeNone(Meaning(p[i..]), hops);
    MeaningNone();
    if i < |p| && hops > 0 {
      var rest := p[i + 1..];
      assert p[i..] == [p[i]] + rest;
      MeaningCons(p[i], rest);
      SegmentMeaningPlain(p[i]);
      if p[i].kind == AsConfedSequence {
        var n := |p[i].asns|;
        var left := (if hops < n then n else hops) - n;
        TakeHopsMeaning(p, i + 1, left);
        MeaningCons(p[i], TakeHops(p, i + 1, left));
        TakeRun(p[i].asns, Meaning(rest), hops, left);
      } else if p[i].kind == AsSequence {
        TakeHopsMeaning(p, i + 1, hops - |p[i].asns|);
        TakeSequence(p, i, hops);
        TakePlainFront(SegmentMeaning(p[i]), Meaning(rest), hops);
      } else {
        TakeHopsMeaning(p, i + 1, hops - 1);
        MeaningCons(p[i], TakeHops(p, i + 1, hops - 1));
        TakePlainFront(SegmentMeaning(p[i]), Meaning(rest), hops);
        assert SegmentMeaning(p[i])[..1] == SegmentMeaning(p[i]);
      }
    }
  }

  lemma MeaningNone()
    ensures Meaning([]) == []
  {
  }

  lemma TakePlainFront(a: seq<Hop>, b: seq<Hop>, w: nat)
    requires Plain(a)
    ensures TakeWeight(a + b, w) == a[..Min(|a|, w)] + TakeWeight(b, w - |a|)
  {
    hide TakeWeight, Plain;
    TakePlain(a, b, w);
    TakeNone(b, w - |a|);
    assert a[..|a|] == a;
  }

  lemma TakeNone(m: seq<Hop>, w: int)
    ensures w <= 0 || m == [] ==> TakeWeight(m, w) == []
  {
  }

  lemma TakeRun(run: seq<Asn>, rest: seq<Hop>, w: int, left: int)
    requires w > 0 && left == (if w < |run| then |run| else w) - |run|
    ensures TakeWeight([ConfedRun(run)] + rest, w) == [ConfedRun(run)] + TakeWeight(rest, left)
  {
    assert ([ConfedRun(run)] + rest)[1..] == rest;
  }

  lemma TakeSequence(p: Path, i: nat, hops: int)
    requires i < |p| && hops > 0 && p[i].kind == AsSequence
    ensures var n := |p[i].asns|;
            Meaning(TakeHops(p, i, hops)) ==
            SegmentMeaning(p[i])[..Min(n, hops)] + Meaning(TakeHops(p, i + 1, hops - n))
  {
    hide SegmentMeaning, Meaning;
    var n := |p[i].asns|;
    var kept := Segment(AsSequence, p[i].asns[..Min(n, hops)]);
    MeaningCons(kept, TakeHops(p, i + 1, hops - n));
    SegmentMeaningPlain(p[i]);
    SequenceMeaningPrefix(p[i].asns, Min(n, hops));
    assert p[i] == Segment(AsSequence, p[i].asns);
  }

  lemma SequenceMeaningPrefix(s: seq<Asn>, n: nat)
    requires n <= |s|
    ensures |SegmentMeaning(Segment(AsSequence, s))| == |s|
    ensures SegmentMeaning(Segment(AsSequence, s[..n])) == SegmentMeaning(Segment(AsSequence, s))[..n]
  {
  }

  /** The reconciled path, in terms of meaning alone: of AS_PATH the leading hops
      by which it outweighs AS4_PATH, confederation sequences whole, and then
      AS4_PATH. Of an AS_PATH lighter than AS4_PATH hops are kept up to its own
      hop count. */
  lemma {:induction false} ReconcileMeaning(aspath: Path, as4path: Path)
    ensures var extra := TotalWeight(Meaning(aspath)) - Hops(as4path);
            Meaning(Reconcile(aspath, as4path))
            == TakeWeight(Meaning(aspath), if extra < 0 then Hops(aspath) else extra) + Meaning(as4path)
  {
    CountsWeigh(aspath);
    var hops := KeptHops(aspath, as4path);
    hide Meaning, Normalise, Hops, Confeds, TakeHops, TotalWeight, TakeWeight;
    assert aspath[0..] == aspath;
    TakeHopsMeaning(aspath, 0, hops);
    TakeNone(Meaning(aspath), hops);
    var prefix := TakeHops(aspath, 0, hops);
    MeaningConcat(prefix, as4path);
    NormaliseMeaning(prefix + as4path);
    assert [] + Meaning(as4path) == Meaning(as4path);
  }

  lemma {:induction false} ConfedFreePlain(p: Path)
    requires ConfedFree(p)
    ensures Plain(Meaning(p))
  {
    hide SegmentMeaning;
    if p != [] {
      ConfedFreePlain(p[1..]);
      SegmentMeaningPlain(p[0]);
      assert !IsConfedKind(p[0].kind);
    }
  }

  /** Without confederations: the leading hops AS_PATH has over AS4_PATH, all of
      them if it has fewer, then AS4_PATH. */
  lemma {:induction false} ReconcilePlain(aspath: Path, as4path: Path)
    requires ConfedFree(aspath)
    ensures var extra := |Meaning(aspath)| - Hops(as4path);
            Meaning(Reconcile(aspath, as4path))
            == (if extra < 0 then Meaning(aspath) else Meaning(aspath)[..extra]) + Meaning(as4path)
  {
    hide Meaning, Reconcile, Hops, Confeds, TakeWeight, TotalWeight, Plain;
    var m := Meaning(aspath);
    HopsMeaning(aspath);
    ConfedFreePlain(aspath);
    PlainWeight(m);
    var extra := |m| - Hops(as4path);
    var w := if extra < 0 then |m| else extra;
    TakePlain(m, [], w);
    assert m + [] == m && m[..|m|] == m;
    ReconcileMeaning(aspath, as4path);
  }

  /** A reconciled path has as many hops as AS_PATH had. */
  lemma ReconcileHops(aspath: Path, as4path: Path)
    requires ConfedFree(aspath) && ConfedFree(as4path) && Hops(as4path) <= Hops(aspath)
    ensures |Meaning(Reconcile(aspath, as4path))| == Hops(aspath)
  {
    HopsMeaning(aspath);
    HopsMeaning(as4path);
    ReconcilePlain(aspath, as4path);
  }

  /** What section 4.2.3 of RFC 6793 asks for: AS4_PATH is ignored when it has
      more AS numbers than AS_PATH, otherwise the leading ones of AS_PATH are
      put in front of it. */
  function RfcReconciled(aspath: Path, as4path: Path): seq<Hop>
  {
    var m, m4 := Meaning(aspath), Meaning(as4path);
    if |m| < |m4| then m else m[..|m| - |m4|] + m4
  }

  /** The code does that exactly when AS4_PATH has no more hops than AS_PATH. */
  lemma RfcFollowed(aspath: Path, as4path: Path)
    requires ConfedFree(aspath) && ConfedFree(as4path)
    ensures Meaning(Reconcile(aspath, as4path)) == RfcReconciled(aspath, as4path) <==> Hops(as4path) <= Hops(aspath)
  {
    hide Meaning, Reconcile;
    HopsMeaning(aspath);
    HopsMeaning(as4path);
    ReconcilePlain(aspath, as4path);
  }

  /** An input on which it does not: both paths are kept. */
  lemma RfcNotFollowed()
    ensures Reconcile([Segment(AsSequence, [1])], [Segment(AsSequence, [2, 3])]) == [Segment(AsSequence, [1, 2, 3])]
    ensures RfcReconciled([Segment(AsSequence, [1])], [Segment(AsSequence, [2, 3])]) == [One(1)]
  {
    var p, q: Path := [Segment(AsSequence, [1])], [Segment(AsSequence, [2, 3])];
    assert p[1..] == [] && q[1..] == [];
    assert Hops(p) == 1 && Hops(q) == 2 && Confeds(p) == 0;
    assert p[0].asns[..1] == [1];
    assert TakeHops(p, 1, 0) == [] && TakeHops(p, 0, 1) == [Segment(AsSequence, [1])];
    assert (p + q)[1..] == q;
    assert Normalise(q) == [Segment(AsSequence, [2, 3])] by { assert Normalise([]) == []; }
    assert [1] + [2, 3] == [1, 2, 3];
    assert Meaning(p) == [One(1)] + Meaning([]);
    assert |Meaning(q)| == 2 by { assert Meaning(q) == SegmentMeaning(q[0]) + Meaning([]); }
  }

  // ------------------------------------------------------- 2-octet speakers

  predicate SegmentFits16(seg: Segment) { forall a :: a in seg.asns ==> a <= BGP_AS_MAX }

  predicate Fits16(p: Path) { forall i :: 0 <= i < |p| ==> SegmentFits16(p[i]) }

  /** aspath_has_as4. */
  predicate HasAs4(p: Path) { !Fits16(p) }

  lemma SentFits(p: Path)
    requires Fits16(p)
    ensures SentPath(p, false) == p
  {
    forall i | 0 <= i < |p| ensures SentPath(p, false)[i] == p[i] {
      assert forall j :: 0 <= j < |p[i].asns| ==> p[i].asns[j] in p[i].asns;
      assert SentAsns(p[i].asns, false) == p[i].asns;
    }
  }

  lemma {:induction false} SentHops(p: Path)
    ensures Hops(SentPath(p, false)) == Hops(p)
    ensures ConfedFree(p) ==> ConfedFree(SentPath(p, false))
    ensures NoEmptySequence(p) ==> NoEmptySequence(SentPath(p, false))
  {
    if p != [] {
      SentHops(p[1..]);
      assert SentPath(p, false)[1..] == SentPath(p[1..], false);
    }
  }

  predicate NoEmptyRun(p: Path) { forall i :: 0 <= i < |p| && !IsSetKind(p[i].kind) ==> p[i].asns != [] }

  lemma {:induction false} NothingWeightless(p: Path)
    requires NoEmptyRun(p)
    ensures forall h :: h in Meaning(p) ==> Weight(h) > 0
  {
    hide SegmentMeaning;
    if p != [] {
      NothingWeightless(p[1..]);
      SegmentMeaningPlain(p[0]);
      assert !IsSetKind(p[0].kind) ==> p[0].asns != [];
    }
  }

  /** Whatever path q, confederations included, 2-octet speakers put in front of
      the AS_TRANS image of p, reconciling with AS4_PATH p gives q in front of p
      itself: same hops, same order, every 4-octet number of p back. */
  lemma {:induction false} ReconcileBehind(q: Path, p: Path)
    requires NoEmptyRun(q)
    requires ConfedFree(p) && NoEmptySequence(p) && Normal(p)
    ensures Reconcile(Normalise(q + SentPath(p, false)), p) == Normalise(q + p)
  {
    hide Meaning, SegmentMeaning, Normalise, Rebuild, SentPath, Hops, Confeds, TakeHops, Reconcile, TotalWeight,
         TakeWeight;
    var sent := SentPath(p, false);
    var aspath := Normalise(q + sent);
    SentHops(p);
    HopsMeaning(p);
    HopsMeaning(sent);
    CountsWeigh(sent);
    NormaliseMeaning(q + sent);
    MeaningConcat(q, sent);
    TotalWeightConcat(Meaning(q), Meaning(sent));
    ReconcileMeaning(aspath, p);
    NothingWeightless(q);
    TakeFront(Meaning(q), Meaning(sent));
    MeaningConcat(q, p);
    ReconcileRebuild(aspath, p, q + sent);
    NormaliseRebuild(q + p);
  }

  lemma {:induction false} ReconcileRebuild(aspath: Path, p: Path, from: Path)
    requires aspath == Normalise(from) && NoEmptySequence(from)
    requires Normal(p) && NoEmptySequence(p)
    ensures Reconcile(aspath, p) == Rebuild(Meaning(Reconcile(aspath, p)))
  {
    hide Meaning, SegmentMeaning, Normalise, Rebuild, Hops, Confeds, TakeHops, TakeWeight;
    NormaliseNormal(from);
    var hops := KeptHops(aspath, p);
    TakeHopsNoEmpty(aspath, 0, hops);
    if hops == 0 {
      RebuildMeaning(p);
    } else {
      var whole := TakeHops(aspath, 0, hops) + p;
      NormaliseRebuild(whole);
      NormaliseMeaning(whole);
    }
  }

  // --------------------------------------------------------- confederations

  /** aspath_delete_confed_seq. */
  function Stripped(p: Path): Path
  {
    if p != [] && p[0].kind == AsConfedSequence then AfterConfeds(p) else p
  }

  function AfterConfeds(p: Path): (r: Path)
    ensures |r| <= |p| && r == p[|p| - |r|..]
  {
    if p != [] && IsConfedKind(p[0].kind) then AfterConfeds(p[1..]) else p
  }

  /** The segments aspath_delete_confed_seq deletes. */
  function ConfedFront(p: Path): Path
  {
    StrippedSuffix(p);
    p[..|p| - |Stripped(p)|]
  }

  lemma StrippedSuffix(p: Path)
    ensures |Stripped(p)| <= |p| && p[|p| - |Stripped(p)|..] == Stripped(p)
  {
  }

  /** The path a 2-octet peer ends up with: the numbers of the confederation in
      front as sent, every number behind it intact. */
  function Received16(p: Path): Path
  {
    if HasAs4(p) then Normalise(SentPath(ConfedFront(p), false) + Stripped(p)) else p
  }

  /** AS_PATH in 2-octet form and AS4_PATH without the confederation in front
      merge into that path. */
  lemma ConfedPathMerged(p: Path)
    requires WireForm(p) && ConfedFree(Stripped(p))
    ensures WireForm(Stripped(p))
    ensures HasAs4(p) ==> Reconcile(Normalise(SentPath(p, false)), Stripped(p)) == Received16(p)
    ensures !HasAs4(p) ==> Normalise(SentPath(p, false)) == Received16(p)
    ensures Fits16(ConfedFront(p)) ==> Received16(p) == p
  {
    hide Normalise, Reconcile, Stripped;
    StrippedSuffix(p);
    var front, rest := ConfedFront(p), Stripped(p);
    assert p == front + rest;
    WireFormSuffix(p, |front|);
    SentConcat(front, rest);
    SentNoEmptyRun(front);
    WireFormNoEmpty(rest);
    ReconcileBehind(SentPath(front, false), rest);
    NormalFixed(p);
    if !HasAs4(p) { SentFits(p); }
    if Fits16(front) { SentFits(front); }
  }

  lemma WireFormSuffix(p: Path, k: nat)
    requires WireForm(p) && k <= |p|
    ensures WireForm(p[k..]) && NoEmptyRun(p[..k])
  {
    var r := p[k..];
    assert forall i :: 0 <= i < |r| ==> r[i] == p[k + i];
    forall i | 0 <= i < |r| - 1 ensures !Packable(r[i], r[i + 1]) { assert !Packable(p[k + i], p[k + i + 1]); }
  }

  lemma SentConcat(a: Path, b: Path)
    ensures SentPath(a + b, false) == SentPath(a, false) + SentPath(b, false)
  {
  }

  lemma SentNoEmptyRun(p: Path)
    requires NoEmptyRun(p)
    ensures NoEmptyRun(SentPath(p, false))
  {
  }

  // ---------------------------------------------------- a chain of speakers

  /** aspath_add_seq: put one number on the left. */
  function AddSeq(p: Path, a: Asn): (r: Path)
  {
    if p != [] && p[0].kind == AsSequence then [Segment(AsSequence, [a] + p[0].asns)] + p[1..]
    else if p != [] && p[0].asns == [] then [Segment(AsSequence, [a])] + p[1..]
    else [Segment(AsSequence, [a])] + p
  }

  lemma AddSeqWireForm(p: Path, a: Asn)
    requires WireForm(p)
    ensures WireForm(AddSeq(p, a))
    ensures Fits16(p) && a <= BGP_AS_MAX ==> Fits16(AddSeq(p, a))
  {
    var r := AddSeq(p, a);
    if p != [] && p[0].kind == AsSequence {
      assert forall i :: 1 <= i < |r| ==> r[i] == p[i];
      forall i | 0 <= i < |r| - 1 ensures !Packable(r[i], r[i + 1]) { assert !Packable(p[i], p[i + 1]); }
    } else {
      assert forall i :: 1 <= i < |r| ==> r[i] == p[i - 1];
      forall i | 0 <= i < |r| - 1 ensures !Packable(r[i], r[i + 1]) {
        if i > 0 { assert !Packable(p[i - 1], p[i]); }
      }
    }
  }

  lemma {:induction false} AddSeqNormalises(p: Path, a: Asn)
    requires WireForm(p)
    ensures AddSeq(p, a) == Normalise([Segment(AsSequence, [a])] + p)
  {
    assert ([Segment(AsSequence, [a])] + p)[1..] == p;
    NormalFixed(p);
  }

  /** A 2-octet path crosses a 2-octet session unchanged. */
  lemma RoundTrip16(p: Path)
    requires WireForm(p) && Fits16(p)
    ensures Parse(PathBytes(p, false), |PathBytes(p, false)|, false) == Some(p)
  {
    ParsePut(p, false, []);
    assert PathBytes(p, false) + [] == PathBytes(p, false);
    SentFits(p);
    NormalFixed(p);
  }

  /** The AS_PATH after a chain of 2-octet speakers, each of which parses what
      it hears, puts its own number on the left and sends the result on. */
  function Relay(p: Path, speakers: seq<Asn>): Option<Path>
    decreases |speakers|
  {
    if speakers == [] then Some(p) else
      var out := PathBytes(AddSeq(p, speakers[0]), false);
      match Parse(out, |out|, false)
      case None => None
      case Some(heard) => Relay(heard, speakers[1..])
  }

  function Reversed(s: seq<Asn>): (r: seq<Asn>)
    ensures |r| == |s|
  {
    if s == [] then [] else Reversed(s[1..]) + [s[0]]
  }

  function Lead(s: seq<Asn>): Path { if s == [] then [] else [Segment(AsSequence, s)] }

  lemma {:induction false} RelayPrepends(p: Path, speakers: seq<Asn>)
    requires WireForm(p) && Fits16(p) && forall a :: a in speakers ==> a <= BGP_AS_MAX
    ensures Relay(p, speakers) == Some(Normalise(Lead(Reversed(speakers)) + p))
    decreases |speakers|
  {
    hide Normalise, Parse, PathBytes, WireForm, AddSeq, Fits16;
    if speakers == [] {
      assert Lead([]) + p == p;
      WireFormNoEmpty(p);
      NormalFixed(p);
    } else {
      var a, rest := speakers[0], speakers[1..];
      var out := AddSeq(p, a);
      assert a in speakers && forall x :: x in rest ==> x in speakers;
      AddSeqNormalises(p, a);
      AddSeqWireForm(p, a);
      RoundTrip16(out);
      RelayPrepends(out, rest);
      WireFormNoEmpty(p);
      LeadMerges(Reversed(rest), a, p);
    }
  }

  lemma WireFormNoEmpty(p: Path)
    requires WireForm(p)
    ensures NoEmptySequence(p) && Normal(p)
  {
  }

  lemma {:induction false} LeadMerges(s: seq<Asn>, a: Asn, p: Path)
    requires NoEmptySequence(p)
    ensures Normalise(Lead(s) + Normalise([Segment(AsSequence, [a])] + p)) == Normalise(Lead(s + [a]) + p)
  {
    hide Meaning, SegmentMeaning, Normalise;
    var one := Segment(AsSequence, [a]);
    var inner := Normalise([one] + p);
    NormaliseNormal([one] + p);
    NormaliseMeaning([one] + p);
    MeaningConcat(Lead(s), inner);
    MeaningConcat([one], p);
    MeaningConcat(Lead(s + [a]), p);
    LeadMeaning(s); LeadMeaning([a]); LeadMeaning(s + [a]);
    SequenceMeaningSplit(s, [a]);
    NoEmptyFilled(Lead(s) + inner);
    NoEmptyFilled(Lead(s + [a]) + p);
    NormaliseCanonical(Lead(s) + inner, Lead(s + [a]) + p);
  }

  lemma {:induction false} LeadMeaning(s: seq<Asn>)
    ensures Meaning(Lead(s)) == SegmentMeaning(Segment(AsSequence, s))
  {
    if s != [] {
      MeaningCons(Segment(AsSequence, s), []);
      assert Lead(s) == [Segment(AsSequence, s)] + [];
    }
  }

  // ------------------------------------------------------------- end to end

  /** What bgp_packet_attribute writes for a path to a peer without the AS4
      capability: AS_PATH in 2-octet form, and AS4_PATH only when needed. */
  datatype Announcement = Announcement(asPath: seq<byte>, as4Path: Option<seq<byte>>)

  function Announce16(p: Path): Announcement
  {
    Announcement(PathBytes(p, false), if HasAs4(p) then Some(PathBytes(p, true)) else None)
  }

  /** The path a receiver ends up with: AS_PATH relayed by 2-octet speakers,
      AS4_PATH passed on untouched, and both merged at the end. */
  function Receive16(a: Announcement, speakers: seq<Asn>): Option<Path>
  {
    match Parse(a.asPath, |a.asPath|, false)
    case None => None
    case Some(first) =>
      match Relay(first, speakers)
      case None => None
      case Some(aspath) =>
        match a.as4Path
        case None => Some(aspath)
        case Some(b) =>
          match Parse(b, |b|, true)
          case None => None
          case Some(as4path) => Some(Reconcile(aspath, as4path))
  }

  lemma SentFits16(p: Path)
    ensures Fits16(SentPath(p, false))
  {
    forall i | 0 <= i < |p| ensures SegmentFits16(SentPath(p, false)[i]) {
      var s := SentAsns(p[i].asns, false);
      forall a | a in s ensures a <= BGP_AS_MAX {
        var j :| 0 <= j < |s| && s[j] == a;
      }
    }
  }

  lemma TidyFits16(seg: Segment)
    requires SegmentFits16(seg)
    ensures SegmentFits16(Tidy(seg))
  {
    CanonSetCorrect(seg.asns);
    forall a | a in CanonSet(seg.asns) ensures a <= BGP_AS_MAX {
      assert a in Elems(CanonSet(seg.asns)) && a in Elems(seg.asns);
    }
  }

  lemma {:induction false} NormaliseFits16(p: Path)
    requires Fits16(p)
    ensures Fits16(Normalise(p))
  {
    if p != [] {
      NormaliseFits16(p[1..]);
      var rest, r := Normalise(p[1..]), Normalise(p);
      TidyFits16(p[0]);
      if rest != [] && Packable(p[0], rest[0]) {
        assert SegmentFits16(rest[0]) && SegmentFits16(r[0]);
        assert forall i :: 1 <= i < |r| ==> r[i] == rest[i];
      } else {
        assert SegmentFits16(r[0]);
        assert forall i :: 1 <= i < |r| ==> r[i] == rest[i - 1];
      }
    }
  }

  /** A confederation-free stored path sent through any number of 2-octet
      speakers arrives with exactly their numbers in front and every 4-octet
      number of its own intact; with none in between it arrives unchanged. */
  lemma {:induction false} PathSurvives2OctetSpeakers(p: Path, speakers: seq<Asn>)
    requires WireForm(p) && ConfedFree(p)
    requires forall a :: a in speakers ==> a <= BGP_AS_MAX
    ensures Receive16(Announce16(p), speakers) == Some(Normalise(Lead(Reversed(speakers)) + p))
    ensures speakers == [] ==> Receive16(Announce16(p), speakers) == Some(p)
  {
    hide Parse, PathBytes, Normalise, Relay, Reconcile, WireForm, Fits16, ConfedFree, SentPath, NoEmptySequence, Normal;
    var sent := SentPath(p, false);
    ParseSent16(p);
    RelayPrepends(Normalise(sent), speakers);
    LeadBehind(Reversed(speakers), p);
    if HasAs4(p) {
      ParseSent32(p);
      ReconcileLead(Reversed(speakers), p);
    } else {
      SentFits(p);
    }
    if speakers == [] {
      assert Lead([]) + p == p;
      WireFormNoEmpty(p);
      NormalFixed(p);
    }
  }

  lemma ParseSent16(p: Path)
    requires WireForm(p)
    ensures Parse(PathBytes(p, false), |PathBytes(p, false)|, false) == Some(Normalise(SentPath(p, false)))
    ensures WireForm(Normalise(SentPath(p, false))) && Fits16(Normalise(SentPath(p, false)))
  {
    hide Parse, PathBytes, Normalise, SentPath;
    assert PathBytes(p, false) + [] == PathBytes(p, false);
    ParsePut(p, false, []);
    ParsedWireForm(PathBytes(p, false), |PathBytes(p, false)|, false);
    SentFits16(p);
    NormaliseFits16(SentPath(p, false));
  }

  lemma ParseSent32(p: Path)
    requires WireForm(p)
    ensures Parse(PathBytes(p, true), |PathBytes(p, true)|, true) == Some(p)
  {
    hide Parse, PathBytes;
    assert PathBytes(p, true) + [] == PathBytes(p, true);
    RoundTrip32(p, []);
  }

  lemma {:induction false} LeadBehind(s: seq<Asn>, p: Path)
    requires WireForm(p)
    ensures var lead, sent := Lead(s), SentPath(p, false);
            Normalise(lead + Normalise(sent)) == Normalise(lead + sent)
  {
    hide Meaning, Normalise;
    var lead, sent := Lead(s), SentPath(p, false);
    NormaliseNormal(sent);
    NormaliseMeaning(sent);
    MeaningConcat(lead, sent);
    MeaningConcat(lead, Normalise(sent));
    NoEmptyFilled(lead + Normalise(sent));
    NoEmptyFilled(lead + sent);
    NormaliseCanonical(lead + Normalise(sent), lead + sent);
  }

  lemma ReconcileLead(s: seq<Asn>, p: Path)
    requires WireForm(p) && ConfedFree(p)
    ensures Reconcile(Normalise(Lead(s) + SentPath(p, false)), p) == Normalise(Lead(s) + p)
  {
    hide Reconcile, Normalise, SentPath;
    ReconcileBehind(Lead(s), p);
  }
}
