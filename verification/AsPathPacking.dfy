/** aspath_put whole: short neighbouring sequences are packed into one wire
    segment while it is written, which works for two of them. */
module AsPathPacking {
  import opened Lists
  import opened AsPath
  import opened AsPathCodec
  import opened AsPathStream
  import opened Wire

  /** ASSEGMENTS_PACKABLE. */
  predicate Fits(a: Segment, b: Segment) { Packable(a, b) && |a.asns| + |b.asns| <= AS_SEGMENT_MAX }

  /** The first segment from j on that is not packed into segment i. */
  function PackEnd(p: Path, i: nat, j: nat): (e: nat)
    requires i < j <= |p|
    ensures j <= e <= |p| && (forall k :: j <= k < e ==> Fits(p[i], p[k])) && (e < |p| ==> !Fits(p[i], p[e]))
    decreases |p| - j
  {
    if j < |p| && Fits(p[i], p[j]) then PackEnd(p, i, j + 1) else j
  }

  /** The numbers of segments i to j. */
  function Gather(p: Path, i: nat, j: nat): seq<Asn>
    requires i <= j <= |p|
  {
    if i == j then [] else Gather(p, i, j - 1) + p[j - 1].asns
  }

  /** What the length octet says in the end: the first segment and the last one
      packed into it. */
  function LengthOctet(p: Path, i: nat, e: nat): (n: byte)
    requires i + 1 < e <= |p| && Fits(p[i], p[e - 1])
  {
    |p[i].asns| + |p[e - 1].asns|
  }

  function GroupBytes(p: Path, i: nat, use32bit: bool): seq<byte>
    requires i < |p|
  {
    var e := PackEnd(p, i, i + 1);
    if e == i + 1 then SegmentBytes(p[i], use32bit)
    else [KindCode(AsSequence), LengthOctet(p, i, e)] + AsnsBytes(Gather(p, i, e), use32bit)
  }

  function PackedChain(p: Path, i: nat, use32bit: bool): seq<byte>
    requires i <= |p|
    decreases |p| - i
  {
    if i == |p| then [] else GroupBytes(p, i, use32bit) + PackedChain(p, PackEnd(p, i, i + 1), use32bit)
  }

  /** aspath_put. */
  function PackedBytes(p: Path, use32bit: bool): seq<byte>
  {
    if p == [] || p[0].asns == [] then [] else PackedChain(p, 0, use32bit)
  }

  /** On a path in normal form nothing is packed. */
  lemma {:induction false} NothingPacked(p: Path, i: nat, use32bit: bool)
    requires NoAdjacentSequences(p) && i <= |p|
    ensures PackedChain(p, i, use32bit) == ChainBytes(p, i, use32bit)
    decreases |p| - i
  {
    hide SegmentBytes;
    if i < |p| {
      if i + 1 < |p| { assert !Packable(p[i], p[i + 1]); }
      assert PackEnd(p, i, i + 1) == i + 1;
      NothingPacked(p, i + 1, use32bit);
    }
  }

  lemma NormalUnpacked(p: Path, use32bit: bool)
    requires NoAdjacentSequences(p)
    ensures PackedBytes(p, use32bit) == PathBytes(p, use32bit)
  {
    NothingPacked(p, 0, use32bit);
  }

  // --------------------------------------------------------------- the writer

  lemma {:induction false} AsnsConcat(a: seq<Asn>, b: seq<Asn>, use32bit: bool)
    ensures AsnsBytes(a + b, use32bit) == AsnsBytes(a, use32bit) + AsnsBytes(b, use32bit)
    decreases |b|
  {
    hide AsnBytes;
    if b == [] {
      assert a + b == a && AsnsBytes(b, use32bit) == [];
    } else {
      var init, last := b[..|b| - 1], b[|b| - 1];
      assert (a + b)[..|a + b| - 1] == a + init;
      AsnsConcat(a, init, use32bit);
      Assoc(AsnsBytes(a, use32bit), AsnsBytes(init, use32bit), AsnBytes(last, use32bit));
    }
  }

  /** The octets of segment i with those up to j packed into it. */
  ghost function PackedTo(p: Path, i: nat, j: nat, use32bit: bool): seq<byte>
    requires i + 1 < j <= |p| && Fits(p[i], p[j - 1])
  {
    [KindCode(AsSequence), LengthOctet(p, i, j)] + AsnsBytes(Gather(p, i, j), use32bit)
  }

  /** One more sequence packed: its data appended, the length octet overwritten. */
  method PackOne(s: Stream, p: Path, i: nat, j: nat, use32bit: bool, lenp: nat, ghost pre: seq<byte>, ghost octet: byte)
    requires s.Valid() && i < j < |p| && Fits(p[i], p[j]) && lenp == |pre| + 1 && pre <= s.data
    modifies s
    ensures s.Valid() && s.getp == old(s.getp) && pre <= s.data
    ensures old(s.data) == pre + ([KindCode(AsSequence), octet] + AsnsBytes(Gather(p, i, j), use32bit)) &&
            DataSize(|p[j].asns|, use32bit) <= old(s.Writeable()) ==>
              s.data == pre + PackedTo(p, i, j + 1, use32bit) &&
              |s.data| == |old(s.data)| + DataSize(|p[j].asns|, use32bit)
  {
    hide AsnsBytes, Gather, PackedTo;
    PackedMore(p, i, j, use32bit);
    DataPut(s, p[j].asns, use32bit);
    ghost var a, b := AsnsBytes(Gather(p, i, j), use32bit), AsnsBytes(p[j].asns, use32bit);
    Relabelled(pre, octet, |p[i].asns| + |p[j].asns|, a, b);
    s.PutcAt(lenp, |p[i].asns| + |p[j].asns|);
  }

  lemma PackedMore(p: Path, i: nat, j: nat, use32bit: bool)
    requires i < j < |p| && Fits(p[i], p[j])
    ensures PackedTo(p, i, j + 1, use32bit) ==
            [KindCode(AsSequence), |p[i].asns| + |p[j].asns|]
            + (AsnsBytes(Gather(p, i, j), use32bit) + AsnsBytes(p[j].asns, use32bit))
    ensures |Gather(p, i, j + 1)| == |Gather(p, i, j)| + |p[j].asns|
  {
    hide AsnsBytes;
    AsnsConcat(Gather(p, i, j), p[j].asns, use32bit);
  }

  lemma Relabelled(pre: seq<byte>, was: byte, now: byte, a: seq<byte>, b: seq<byte>)
    ensures (pre + ([KindCode(AsSequence), was] + a) + b)[|pre| + 1 := now] ==
            pre + ([KindCode(AsSequence), now] + (a + b))
  {
  }

  lemma {:induction false} GatherGrows(p: Path, i: nat, j: nat, e: nat, use32bit: bool)
    requires i <= j <= e <= |p|
    ensures |Gather(p, i, j)| <= |Gather(p, i, e)|
    ensures i < j ==> Gather(p, i, i + 1) == p[i].asns
    decreases e - j
  {
    if i < j { assert Gather(p, i, i + 1) == Gather(p, i, i) + p[i].asns; }
    if j < e { GatherGrows(p, i, j + 1, e, use32bit); }
  }

  lemma GroupSize(p: Path, i: nat, use32bit: bool)
    requires i < |p|
    ensures var e := PackEnd(p, i, i + 1);
            e > i + 1 ==> |GroupBytes(p, i, use32bit)| == SegmentSize(|Gather(p, i, e)|, use32bit)
    ensures |GroupBytes(p, i, use32bit)| >= SegmentSize(|p[i].asns|, use32bit)
  {
    hide AsnsBytes, SegmentBytes;
    GatherGrows(p, i, i + 1, PackEnd(p, i, i + 1), use32bit);
  }

  /** One turn of the main loop: a segment, and the sequences packed into it. */
  method GroupPut(s: Stream, p: Path, i: nat, use32bit: bool) returns (bytes: nat, next: nat)
    requires s.Valid() && i < |p|
    modifies s
    ensures s.Valid() && s.getp == old(s.getp) && old(s.data) <= s.data && next == PackEnd(p, i, i + 1)
    ensures |GroupBytes(p, i, use32bit)| <= old(s.Writeable()) ==>
              s.data == old(s.data) + GroupBytes(p, i, use32bit) && bytes == |GroupBytes(p, i, use32bit)|
  {
    hide AsnsBytes, SegmentBytes;
    GroupSize(p, i, use32bit);
    ghost var e, pre := PackEnd(p, i, i + 1), s.data;
    ghost var room := |GroupBytes(p, i, use32bit)| <= s.Writeable();
    var lenp := |s.data| + 1;
    next := i + 1;
    if next == |p| || !Fits(p[i], p[next]) {
      bytes := SegmentPut(s, p[i], use32bit);
      return;
    }
    PutFirst(s, p[i], use32bit);
    GatherGrows(p, i, i + 1, e, use32bit);
    bytes, next := PackRest(s, p, i, use32bit, lenp, pre, room);
  }

  /** The loop that packs what follows segment i into it. */
  method PackRest(s: Stream, p: Path, i: nat, use32bit: bool, lenp: nat, ghost pre: seq<byte>, ghost room: bool)
    returns (bytes: nat, next: nat)
    requires s.Valid() && i + 1 < |p| && Fits(p[i], p[i + 1]) && lenp == |pre| + 1 && pre <= s.data
    requires room ==> |pre| + |GroupBytes(p, i, use32bit)| <= s.size
    requires room ==> s.data == pre + ([KindCode(AsSequence), |p[i].asns|] + AsnsBytes(Gather(p, i, i + 1), use32bit))
    modifies s
    ensures s.Valid() && s.getp == old(s.getp) && pre <= s.data && next == PackEnd(p, i, i + 1)
    ensures room ==> s.data == pre + GroupBytes(p, i, use32bit) && bytes == |GroupBytes(p, i, use32bit)|
  {
    hide AsnsBytes, Gather;
    GroupSize(p, i, use32bit);
    ghost var e := PackEnd(p, i, i + 1);
    next := i + 1;
    GatherGrows(p, i, i + 1, e, use32bit);
    bytes := SegmentSize(|p[i].asns|, use32bit);
    ghost var octet: byte := |p[i].asns|;
    while next < |p| && Fits(p[i], p[next])
      invariant i + 1 <= next <= e && s.Valid() && s.getp == old(s.getp) && pre <= s.data
      invariant room ==> s.data == pre + ([KindCode(AsSequence), octet] + AsnsBytes(Gather(p, i, next), use32bit))
      invariant next > i + 1 ==> octet == LengthOctet(p, i, next)
      invariant room ==> bytes == |s.data| - |pre| == SegmentSize(|Gather(p, i, next)|, use32bit)
    {
      GatherGrows(p, i, next + 1, e, use32bit);
      PackedMore(p, i, next, use32bit);
      PackOne(s, p, i, next, use32bit, lenp, pre, octet);
      octet := LengthOctet(p, i, next + 1);
      bytes := bytes + DataSize(|p[next].asns|, use32bit);
      next := next + 1;
    }
  }

  /** The segment others are packed into: one wire segment. */
  method PutFirst(s: Stream, seg: Segment, use32bit: bool)
    requires s.Valid() && seg.kind == AsSequence && |seg.asns| <= AS_SEGMENT_MAX
    modifies s
    ensures s.Valid() && s.getp == old(s.getp) && old(s.data) <= s.data
    ensures SegmentSize(|seg.asns|, use32bit) <= old(s.Writeable()) ==>
              s.data == old(s.data) + ([KindCode(AsSequence), |seg.asns|] + AsnsBytes(seg.asns, use32bit))
  {
    var bytes := SegmentPut(s, seg, use32bit);
  }

  /** aspath_put: given room, it appends exactly these octets and returns how
      many, whether sequences are split, packed or neither; without, it only
      appends. */
  method PathPut(s: Stream, p: Path, use32bit: bool) returns (bytes: nat)
    requires s.Valid()
    modifies s
    ensures s.Valid() && s.getp == old(s.getp) && old(s.data) <= s.data
    ensures |PackedBytes(p, use32bit)| <= old(s.Writeable()) ==>
              s.data == old(s.data) + PackedBytes(p, use32bit) && bytes == |PackedBytes(p, use32bit)|
  {
    hide GroupBytes;
    bytes := 0;
    if p == [] || |p[0].asns| == 0 { return; }
    ghost var goal := s.data + PackedBytes(p, use32bit);
    ghost var room := |PackedBytes(p, use32bit)| <= s.Writeable();
    var seg := 0;
    ChainSize(p, 0, use32bit);
    while seg < |p| && SegmentSize(|p[seg].asns|, use32bit) <= s.size - |s.data|
      invariant seg <= |p| && s.Valid() && s.getp == old(s.getp) && old(s.data) <= s.data
      invariant room ==> s.data + PackedChain(p, seg, use32bit) == goal && bytes == |s.data| - |old(s.data)|
      invariant room && seg < |p| ==> SegmentSize(|p[seg].asns|, use32bit) <= s.size - |s.data|
      decreases |p| - seg
    {
      ghost var next := PackEnd(p, seg, seg + 1);
      Assoc(s.data, GroupBytes(p, seg, use32bit), PackedChain(p, next, use32bit));
      var n;
      n, seg := GroupPut(s, p, seg, use32bit);
      bytes := bytes + n;
      ChainSize(p, seg, use32bit);
    }
  }

  lemma ChainSize(p: Path, i: nat, use32bit: bool)
    requires i <= |p|
    ensures i < |p| ==> |PackedChain(p, i, use32bit)| >= SegmentSize(|p[i].asns|, use32bit)
  {
    if i < |p| { GroupSize(p, i, use32bit); }
  }

  // ------------------------------------------------------- packing and parsing

  /** Never more than one sequence is packed into another. */
  predicate PairsOnly(p: Path, i: nat)
    requires i <= |p|
    decreases |p| - i
  {
    i == |p| || (PackEnd(p, i, i + 1) <= i + 2 && PairsOnly(p, PackEnd(p, i, i + 1)))
  }

  /** The path that is written: what is packed is one segment. */
  function PairedUp(p: Path, i: nat): Path
    requires i <= |p|
    decreases |p| - i
  {
    if i == |p| then [] else
      var e := PackEnd(p, i, i + 1);
      [Segment(p[i].kind, Gather(p, i, e))] + PairedUp(p, e)
  }

  lemma PairWritten(p: Path, i: nat, use32bit: bool)
    requires i < |p| && PackEnd(p, i, i + 1) <= i + 2
    ensures GroupBytes(p, i, use32bit) == SegmentBytes(Segment(p[i].kind, Gather(p, i, PackEnd(p, i, i + 1))), use32bit)
  {
    hide AsnsBytes;
    var e := PackEnd(p, i, i + 1);
    GatherGrows(p, i, i + 1, e, use32bit);
    if e == i + 2 {
      assert Fits(p[i], p[i + 1]) && Gather(p, i, e) == p[i].asns + p[i + 1].asns;
    } else {
      assert Segment(p[i].kind, Gather(p, i, e)) == p[i];
    }
  }

  lemma {:induction false} PairsWritten(p: Path, i: nat, use32bit: bool)
    requires i <= |p| && PairsOnly(p, i)
    ensures PackedChain(p, i, use32bit) == ChainBytes(PairedUp(p, i), 0, use32bit)
    decreases |p| - i
  {
    hide GroupBytes, SegmentBytes, Gather;
    if i < |p| {
      var e := PackEnd(p, i, i + 1);
      PairsWritten(p, e, use32bit);
      PairWritten(p, i, use32bit);
      ChainCons(Segment(p[i].kind, Gather(p, i, e)), PairedUp(p, e), use32bit);
    }
  }

  lemma {:induction false} ChainFrom(p: Path, q: Path, i: nat, j: nat, use32bit: bool)
    requires i <= |p| && j <= |q| && p[i..] == q[j..]
    ensures ChainBytes(p, i, use32bit) == ChainBytes(q, j, use32bit)
    decreases |p| - i
  {
    hide SegmentBytes;
    assert |p| - i == |p[i..]| == |q[j..]| == |q| - j;
    if i < |p| {
      assert p[i] == p[i..][0] == q[j..][0] == q[j];
      assert p[i + 1..] == p[i..][1..] == q[j..][1..] == q[j + 1..];
      ChainFrom(p, q, i + 1, j + 1, use32bit);
    }
  }

  lemma ChainCons(seg: Segment, rest: Path, use32bit: bool)
    ensures ChainBytes([seg] + rest, 0, use32bit) == SegmentBytes(seg, use32bit) + ChainBytes(rest, 0, use32bit)
  {
    hide SegmentBytes;
    assert ([seg] + rest)[1..] == rest == rest[0..];
    ChainFrom([seg] + rest, rest, 1, 0, use32bit);
  }

  lemma SentConcat(a: seq<Asn>, b: seq<Asn>, use32bit: bool)
    ensures SentAsns(a + b, use32bit) == SentAsns(a, use32bit) + SentAsns(b, use32bit)
  {
  }

  /** One more sequence joins a segment that means what a front means. */
  lemma JoinSent(front: Path, a: seq<Asn>, b: seq<Asn>, use32bit: bool)
    requires Meaning(SentPath([Segment(AsSequence, a)], use32bit)) == Meaning(SentPath(front, use32bit))
    ensures Meaning(SentPath([Segment(AsSequence, a + b)], use32bit))
         == Meaning(SentPath(front + [Segment(AsSequence, b)], use32bit))
  {
    hide Meaning, SegmentMeaning, SentAsns, SentPath;
    var last := [Segment(AsSequence, b)];
    SentConcat(a, b, use32bit);
    OneSent(Segment(AsSequence, a), use32bit);
    OneSent(Segment(AsSequence, b), use32bit);
    OneSent(Segment(AsSequence, a + b), use32bit);
    SequenceMeaningSplit(SentAsns(a, use32bit), SentAsns(b, use32bit));
    SentPathConcat(front, last, use32bit);
    MeaningConcat(SentPath(front, use32bit), SentPath(last, use32bit));
  }

  /** Gathered sequences mean what they meant apart. */
  lemma {:induction false} GatherMeaning(p: Path, i: nat, e: nat, use32bit: bool)
    requires i < e <= |p| && forall k :: i < k < e ==> Packable(p[i], p[k])
    ensures Meaning(SentPath([Segment(p[i].kind, Gather(p, i, e))], use32bit)) == Meaning(SentPath(p[i..e], use32bit))
    decreases e
  {
    hide Meaning, SentPath, Gather;
    if e == i + 1 {
      GatherOne(p, i);
    } else {
      GatherMeaning(p, i, e - 1, use32bit);
      GatherLast(p, i, e);
      JoinSent(p[i..e - 1], Gather(p, i, e - 1), p[e - 1].asns, use32bit);
    }
  }

  lemma GatherOne(p: Path, i: nat)
    requires i < |p|
    ensures p[i..i + 1] == [Segment(p[i].kind, Gather(p, i, i + 1))]
  {
    assert Gather(p, i, i + 1) == Gather(p, i, i) + p[i].asns == p[i].asns;
    assert p[i] == Segment(p[i].kind, p[i].asns);
  }

  lemma GatherLast(p: Path, i: nat, e: nat)
    requires i + 1 < e <= |p| && Packable(p[i], p[e - 1])
    ensures Gather(p, i, e) == Gather(p, i, e - 1) + p[e - 1].asns
    ensures p[i].kind == AsSequence && p[i..e] == p[i..e - 1] + [Segment(AsSequence, p[e - 1].asns)]
  {
  }

  lemma OneSent(seg: Segment, use32bit: bool)
    ensures Meaning(SentPath([seg], use32bit)) == SegmentMeaning(Segment(seg.kind, SentAsns(seg.asns, use32bit)))
  {
    hide SegmentMeaning;
    var sent := SentPath([seg], use32bit);
    assert sent == [Segment(seg.kind, SentAsns(seg.asns, use32bit))];
    assert Meaning(sent) == SegmentMeaning(sent[0]) + Meaning([]);
  }

  lemma SentPathConcat(a: Path, b: Path, use32bit: bool)
    ensures SentPath(a + b, use32bit) == SentPath(a, use32bit) + SentPath(b, use32bit)
  {
  }

  lemma {:induction false} PairedMeaning(p: Path, i: nat, use32bit: bool)
    requires i <= |p|
    ensures Meaning(SentPath(PairedUp(p, i), use32bit)) == Meaning(SentPath(p[i..], use32bit))
    decreases |p| - i
  {
    hide Meaning, SentAsns;
    if i == |p| {
      assert PairedUp(p, i) == p[i..];
    } else {
      var e := PackEnd(p, i, i + 1);
      var seg := [Segment(p[i].kind, Gather(p, i, e))];
      PairedMeaning(p, e, use32bit);
      GatherMeaning(p, i, e, use32bit);
      assert p[i..] == p[i..e] + p[e..];
      SentPathConcat(p[i..e], p[e..], use32bit);
      SentPathConcat(seg, PairedUp(p, e), use32bit);
      MeaningConcat(SentPath(p[i..e], use32bit), SentPath(p[e..], use32bit));
      MeaningConcat(SentPath(seg, use32bit), SentPath(PairedUp(p, e), use32bit));
    }
  }

  lemma {:induction false} PairedFine(p: Path, i: nat)
    requires i <= |p| && NoEmptySegment(p) && FitsSegments(p)
    ensures NoEmptySegment(PairedUp(p, i)) && FitsSegments(PairedUp(p, i))
    ensures i < |p| ==> PairedUp(p, i) != []
    decreases |p| - i
  {
    if i < |p| {
      var e := PackEnd(p, i, i + 1);
      PairedFine(p, e);
      GatherGrows(p, i, i + 1, e, true);
      if e > i + 1 { assert Fits(p[i], p[i + 1]); }
    }
  }

  /** A path written with at most pairs packed arrives like any other: as the
      normal form of what was sent. */
  lemma PackedParses(p: Path, use32bit: bool, more: seq<byte>)
    requires NoEmptySegment(p) && FitsSegments(p) && PairsOnly(p, 0)
    ensures Parse(PackedBytes(p, use32bit) + more, |PackedBytes(p, use32bit)|, use32bit)
         == Some(Normalise(SentPath(p, use32bit)))
  {
    hide Parse, Normalise, Meaning, PairedUp, ChainBytes, PackedChain;
    var q := PairedUp(p, 0);
    PairsWritten(p, 0, use32bit);
    PairedFine(p, 0);
    PairedMeaning(p, 0, use32bit);
    assert p[0..] == p;
    SentNonEmpty(p, use32bit);
    SentNonEmpty(q, use32bit);
    NoEmptyFilled(SentPath(p, use32bit));
    NoEmptyFilled(SentPath(q, use32bit));
    NormaliseCanonical(SentPath(p, use32bit), SentPath(q, use32bit));
    ParsePut(q, use32bit, more);
    EmptyChains(p, use32bit);
  }

  lemma SentNonEmpty(p: Path, use32bit: bool)
    requires NoEmptySegment(p)
    ensures NoEmptySequence(SentPath(p, use32bit))
  {
  }

  lemma EmptyChains(p: Path, use32bit: bool)
    ensures p == [] ==> PairedUp(p, 0) == []
  {
  }

  /** Three short sequences are not: the length octet forgets the middle one, and
      the far end takes the last number for a segment header. */
  lemma ThreeSequencesBreak(a: Asn, b: Asn, c: Asn)
    requires c < 0x100_0000
    ensures var p := [Segment(AsSequence, [a]), Segment(AsSequence, [b]), Segment(AsSequence, [c])];
            && !PairsOnly(p, 0)
            && Parse(PackedBytes(p, true), |PackedBytes(p, true)|, true) == None
  {
    var p := [Segment(AsSequence, [a]), Segment(AsSequence, [b]), Segment(AsSequence, [c])];
    assert PackEnd(p, 0, 1) == 3;
    GatherThree(p, a, b, c);
    var bytes := PackedBytes(p, true);
    AsnsConcat([a, b], [c], true);
    assert [a, b] + [c] == [a, b, c];
    assert AsnsBytes([c], true) == AsnsBytes([], true) + AsnBytes(c, true) by { assert [c][..0] == []; }
    assert PackedChain(p, 3, true) == [];
    assert bytes == [2, 2] + (AsnsBytes([a, b], true) + U32(c)) + [];
    assert bytes[10..] == U32(c);
    assert U32(c)[0] == 0;
    assert ParseSegments(U32(c), true) == None;
    assert bytes[..14] == bytes;
  }

  lemma GatherThree(p: Path, a: Asn, b: Asn, c: Asn)
    requires p == [Segment(AsSequence, [a]), Segment(AsSequence, [b]), Segment(AsSequence, [c])]
    ensures Gather(p, 0, 3) == [a, b, c]
  {
    assert Gather(p, 0, 1) == [a] && Gather(p, 0, 2) == [a] + [b];
  }
}
