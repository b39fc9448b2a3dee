/** The AS_PATH wire form: assegments_parse and aspath_put, in 2- and 4-octet
    form, and what a path is after it crossed the wire. */
module AsPathCodec {
  import opened Lists
  import opened AsPath
  import opened Wire

  const AS_HEADER_SIZE: nat := 2

  function KindCode(k: Kind): byte
  {
    match k case AsSet => 1 case AsSequence => 2 case AsConfedSequence => 3 case AsConfedSet => 4
  }

  function CodeKind(c: byte): Option<Kind>
  {
    if c == 1 then Some(AsSet) else if c == 2 then Some(AsSequence)
    else if c == 3 then Some(AsConfedSequence) else if c == 4 then Some(AsConfedSet) else None
  }

  /** ASSEGMENT_DATA_SIZE. */
  function DataSize(n: nat, use32bit: bool): nat { if use32bit then 4 * n else 2 * n }

  /** ASSEGMENT_SIZE. */
  function SegmentSize(n: nat, use32bit: bool): nat { AS_HEADER_SIZE + DataSize(n, use32bit) }

  // ------------------------------------------------- what a 2-octet peer sees

  /** The number a peer reads back: AS_TRANS stands for what does not fit. */
  function Sent(a: Asn, use32bit: bool): Asn
  {
    if use32bit || a <= BGP_AS_MAX then a else BGP_AS_TRANS
  }

  function SentAsns(s: seq<Asn>, use32bit: bool): (r: seq<Asn>)
    ensures |r| == |s|
  {
    seq(|s|, i requires 0 <= i < |s| => Sent(s[i], use32bit))
  }

  function SentSegment(seg: Segment, use32bit: bool): Segment
  {
    seg.(asns := SentAsns(seg.asns, use32bit))
  }

  function SentPath(p: Path, use32bit: bool): (r: Path)
    ensures |r| == |p|
    ensures forall i :: 0 <= i < |p| ==> r[i] == SentSegment(p[i], use32bit)
  {
    seq(|p|, i requires 0 <= i < |p| => SentSegment(p[i], use32bit))
  }

  // ------------------------------------------------------------------ writer

  function AsnBytes(a: Asn, use32bit: bool): (b: seq<byte>)
    ensures |b| == DataSize(1, use32bit)
  {
    if use32bit then U32(a) else if a <= BGP_AS_MAX then U16(a) else U16(BGP_AS_TRANS)
  }

  /** assegment_data_put. */
  function AsnsBytes(s: seq<Asn>, use32bit: bool): (b: seq<byte>)
    ensures |b| == DataSize(|s|, use32bit)
  {
    if s == [] then [] else AsnsBytes(s[..|s| - 1], use32bit) + AsnBytes(s[|s| - 1], use32bit)
  }

  /** One segment, split every 255 numbers. */
  function SegmentBytes(seg: Segment, use32bit: bool): (b: seq<byte>)
    ensures |b| >= SegmentSize(|seg.asns|, use32bit)
    decreases |seg.asns|
  {
    if |seg.asns| > AS_SEGMENT_MAX then
      [KindCode(seg.kind), AS_SEGMENT_MAX] + AsnsBytes(seg.asns[..AS_SEGMENT_MAX], use32bit)
      + SegmentBytes(seg.(asns := seg.asns[AS_SEGMENT_MAX..]), use32bit)
    else
      [KindCode(seg.kind), |seg.asns|] + AsnsBytes(seg.asns, use32bit)
  }

  /** The octets of the chain from segment i on. */
  function ChainBytes(p: Path, i: nat, use32bit: bool): (b: seq<byte>)
    requires i <= |p|
    decreases |p| - i
  {
    if i == |p| then [] else SegmentBytes(p[i], use32bit) + ChainBytes(p, i + 1, use32bit)
  }

  /** aspath_put. */
  function PathBytes(p: Path, use32bit: bool): seq<byte>
  {
    if p == [] || p[0].asns == [] then [] else ChainBytes(p, 0, use32bit)
  }

  // ------------------------------------------------------------------ parser

  function AsnAt(b: seq<byte>, at: nat, use32bit: bool): Asn
    requires at + DataSize(1, use32bit) <= |b|
  {
    if use32bit then FromU32(b[at], b[at + 1], b[at + 2], b[at + 3]) else FromU16(b[at], b[at + 1])
  }

  function ReadAsns(b: seq<byte>, n: nat, use32bit: bool): (s: seq<Asn>)
    requires DataSize(n, use32bit) <= |b|
    ensures |s| == n
  {
    if n == 0 then []
    else ReadAsns(b, n - 1, use32bit) + [AsnAt(b, DataSize(n - 1, use32bit), use32bit)]
  }

  /** The segments of exactly these octets, as the loop of assegments_parse
      accepts them. */
  function ParseSegments(b: seq<byte>, use32bit: bool): Option<Path>
    decreases |b|
  {
    if b == [] then Some([])
    else if |b| <= AS_HEADER_SIZE then None
    else
      var n := b[1];
      var size := SegmentSize(n, use32bit);
      if size > |b| || n == 0 || CodeKind(b[0]).None? then None
      else
        match ParseSegments(b[size..], use32bit)
        case None => None
        case Some(rest) =>
          Some([Segment(CodeKind(b[0]).value, ReadAsns(b[AS_HEADER_SIZE..], n, use32bit))] + rest)
  }

  /** assegments_parse on a stream whose unread octets are `readable`. */
  function Parse(readable: seq<byte>, length: nat, use32bit: bool): Option<Path>
  {
    if length == 0 then Some([])
    else if |readable| < length || |readable| < AS_HEADER_SIZE || length % 2 != 0 then None
    else
      match ParseSegments(readable[..length], use32bit)
      case None => None
      case Some(p) => Some(Normalise(p))
  }

  // -------------------------------------------------------------- round trip

  predicate NoEmptySegment(p: Path) { forall i :: 0 <= i < |p| ==> p[i].asns != [] }

  /** Only sequences may exceed what one wire segment holds. */
  predicate FitsSegments(p: Path)
  {
    forall i :: 0 <= i < |p| && p[i].kind != AsSequence ==> |p[i].asns| <= AS_SEGMENT_MAX
  }

  predicate WireForm(p: Path) { Normal(p) && NoEmptySegment(p) && FitsSegments(p) }

  lemma AsnAtWritten(init: seq<byte>, a: Asn, use32bit: bool, rest: seq<byte>)
    ensures AsnAt(init + (AsnBytes(a, use32bit) + rest), |init|, use32bit) == Sent(a, use32bit)
  {
    var b := AsnBytes(a, use32bit);
    assert forall i :: 0 <= i < |b| ==> (init + (b + rest))[|init| + i] == b[i];
  }

  lemma SentSnoc(s: seq<Asn>, use32bit: bool)
    requires s != []
    ensures SentAsns(s, use32bit) == SentAsns(s[..|s| - 1], use32bit) + [Sent(s[|s| - 1], use32bit)]
  {
  }

  /** Reading n numbers looks only at their own octets. */
  lemma {:induction false} ReadPrefix(b: seq<byte>, more: seq<byte>, n: nat, use32bit: bool)
    requires DataSize(n, use32bit) <= |b|
    ensures ReadAsns(b + more, n, use32bit) == ReadAsns(b, n, use32bit)
  {
    if n > 0 { ReadPrefix(b, more, n - 1, use32bit); }
  }

  lemma {:induction false} ReadWritten(s: seq<Asn>, use32bit: bool)
    ensures ReadAsns(AsnsBytes(s, use32bit), |s|, use32bit) == SentAsns(s, use32bit)
  {
    if s != [] {
      var n := |s|;
      var init := AsnsBytes(s[..n - 1], use32bit);
      var last := AsnBytes(s[n - 1], use32bit);
      ReadWritten(s[..n - 1], use32bit);
      ReadPrefix(init, last, n - 1, use32bit);
      AsnAtWritten(init, s[n - 1], use32bit, []);
      assert last + [] == last;
      SentSnoc(s, use32bit);
    }
  }

  function Chunks(seg: Segment): Path
    decreases |seg.asns|
  {
    if |seg.asns| > AS_SEGMENT_MAX then
      [seg.(asns := seg.asns[..AS_SEGMENT_MAX])] + Chunks(seg.(asns := seg.asns[AS_SEGMENT_MAX..]))
    else [seg]
  }

  function ChunkPath(p: Path): Path
  {
    if p == [] then [] else Chunks(p[0]) + ChunkPath(p[1..])
  }

  function Prepend(q: Path, r: Option<Path>): Option<Path>
  {
    match r case None => None case Some(p) => Some(q + p)
  }

  /** One wire segment parses to one segment. */
  lemma {:induction false} ParseOne(kind: Kind, s: seq<Asn>, use32bit: bool, rest: seq<byte>)
    requires 0 < |s| <= AS_SEGMENT_MAX
    ensures ParseSegments([KindCode(kind), |s|] + AsnsBytes(s, use32bit) + rest, use32bit)
         == Prepend([Segment(kind, SentAsns(s, use32bit))], ParseSegments(rest, use32bit))
  {
    hide AsnsBytes, ReadAsns, SentAsns;
    var a := AsnsBytes(s, use32bit);
    var b := [KindCode(kind), |s|] + a + rest;
    assert b[0] == KindCode(kind) && b[1] == |s|;
    assert b[AS_HEADER_SIZE..] == a + rest;
    assert b[SegmentSize(|s|, use32bit)..] == rest;
    ReadWritten(s, use32bit);
    ReadPrefix(a, rest, |s|, use32bit);
  }

  function First(seg: Segment): Segment
    requires |seg.asns| > AS_SEGMENT_MAX
  {
    seg.(asns := seg.asns[..AS_SEGMENT_MAX])
  }

  function More(seg: Segment): Segment
    requires |seg.asns| > AS_SEGMENT_MAX
  {
    seg.(asns := seg.asns[AS_SEGMENT_MAX..])
  }

  lemma SplitBytes(seg: Segment, use32bit: bool, rest: seq<byte>)
    requires |seg.asns| > AS_SEGMENT_MAX
    ensures SegmentBytes(seg, use32bit) + rest
         == [KindCode(seg.kind), AS_SEGMENT_MAX] + AsnsBytes(First(seg).asns, use32bit)
            + (SegmentBytes(More(seg), use32bit) + rest)
  {
  }

  lemma SplitSent(seg: Segment, use32bit: bool)
    requires |seg.asns| > AS_SEGMENT_MAX
    ensures Chunks(SentSegment(seg, use32bit))
         == [SentSegment(First(seg), use32bit)] + Chunks(SentSegment(More(seg), use32bit))
  {
    var sent := SentSegment(seg, use32bit);
    assert First(sent).asns == SentAsns(First(seg).asns, use32bit);
    assert More(sent).asns == SentAsns(More(seg).asns, use32bit);
  }

  lemma PrependTwice(a: Path, b: Path, r: Option<Path>)
    ensures Prepend(a, Prepend(b, r)) == Prepend(a + b, r)
  {
    if r.Some? { assert a + (b + r.value) == a + b + r.value; }
  }

  lemma {:induction false} ParseSplit(seg: Segment, use32bit: bool, rest: seq<byte>)
    requires seg.asns != []
    ensures ParseSegments(SegmentBytes(seg, use32bit) + rest, use32bit)
         == Prepend(Chunks(SentSegment(seg, use32bit)), ParseSegments(rest, use32bit))
    decreases |seg.asns|
  {
    if |seg.asns| > AS_SEGMENT_MAX {
      var tail := SegmentBytes(More(seg), use32bit) + rest;
      SplitBytes(seg, use32bit, rest);
      ParseOne(seg.kind, First(seg).asns, use32bit, tail);
      ParseSplit(More(seg), use32bit, rest);
      SplitSent(seg, use32bit);
      PrependTwice([SentSegment(First(seg), use32bit)], Chunks(SentSegment(More(seg), use32bit)),
                   ParseSegments(rest, use32bit));
    } else {
      ParseOne(seg.kind, seg.asns, use32bit, rest);
    }
  }

  function HalfSegment(seg: Segment, use32bit: bool): nat
    decreases |seg.asns|
  {
    if |seg.asns| > AS_SEGMENT_MAX
    then 1 + (if use32bit then 2 * AS_SEGMENT_MAX else AS_SEGMENT_MAX) + HalfSegment(More(seg), use32bit)
    else 1 + if use32bit then 2 * |seg.asns| else |seg.asns|
  }

  lemma {:induction false} SegmentBytesEven(seg: Segment, use32bit: bool)
    ensures |SegmentBytes(seg, use32bit)| == 2 * HalfSegment(seg, use32bit)
    decreases |seg.asns|
  {
    if |seg.asns| > AS_SEGMENT_MAX { SegmentBytesEven(More(seg), use32bit); }
  }

  function HalfChain(p: Path, i: nat, use32bit: bool): nat
    requires i <= |p|
    decreases |p| - i
  {
    if i == |p| then 0 else HalfSegment(p[i], use32bit) + HalfChain(p, i + 1, use32bit)
  }

  lemma {:induction false} ChainBytesEven(p: Path, i: nat, use32bit: bool)
    requires i <= |p|
    ensures |ChainBytes(p, i, use32bit)| == 2 * HalfChain(p, i, use32bit)
    decreases |p| - i
  {
    if i < |p| {
      var first, rest := SegmentBytes(p[i], use32bit), ChainBytes(p, i + 1, use32bit);
      assert |ChainBytes(p, i, use32bit)| == |first| + |rest|;
      ChainBytesEven(p, i + 1, use32bit);
      SegmentBytesEven(p[i], use32bit);
    }
  }

  lemma {:induction false} ParseChain(p: Path, i: nat, use32bit: bool)
    requires i <= |p| && NoEmptySegment(p)
    ensures ParseSegments(ChainBytes(p, i, use32bit), use32bit) == Some(ChunkPath(SentPath(p, use32bit)[i..]))
    decreases |p| - i
  {
    if i < |p| {
      ParseChain(p, i + 1, use32bit);
      ParseSplit(p[i], use32bit, ChainBytes(p, i + 1, use32bit));
      assert SentPath(p, use32bit)[i..][1..] == SentPath(p, use32bit)[i + 1..];
    }
  }

  // Cutting long sequences is undone by normalising.

  lemma {:induction false} ChunksMeaning(seg: Segment)
    requires seg.kind == AsSequence || |seg.asns| <= AS_SEGMENT_MAX
    ensures Meaning(Chunks(seg)) == SegmentMeaning(seg)
    decreases |seg.asns|
  {
    if |seg.asns| > AS_SEGMENT_MAX {
      var first, more := seg.asns[..AS_SEGMENT_MAX], seg.asns[AS_SEGMENT_MAX..];
      assert seg == Segment(AsSequence, first + more);
      ChunksMeaning(Segment(AsSequence, more));
      MeaningCons(Segment(AsSequence, first), Chunks(Segment(AsSequence, more)));
      SequenceMeaningSplit(first, more);
    } else {
      MeaningCons(seg, []);
      assert [seg] + [] == [seg];
    }
  }

  lemma {:induction false} ChunkPathMeaning(p: Path)
    requires FitsSegments(p)
    ensures Meaning(ChunkPath(p)) == Meaning(p)
  {
    if p != [] {
      ChunkPathMeaning(p[1..]);
      ChunksMeaning(p[0]);
      MeaningConcat(Chunks(p[0]), ChunkPath(p[1..]));
    }
  }

  lemma {:induction false} ChunksNonEmpty(seg: Segment)
    requires seg.asns != []
    ensures NoEmptySegment(Chunks(seg))
    decreases |seg.asns|
  {
    if |seg.asns| > AS_SEGMENT_MAX { ChunksNonEmpty(seg.(asns := seg.asns[AS_SEGMENT_MAX..])); }
  }

  lemma {:induction false} ChunkPathNonEmpty(p: Path)
    requires NoEmptySegment(p)
    ensures NoEmptySegment(ChunkPath(p))
  {
    if p != [] {
      ChunkPathNonEmpty(p[1..]);
      ChunksNonEmpty(p[0]);
    }
  }

  function NormaliseParsed(r: Option<Path>): Option<Path>
  {
    match r case None => None case Some(p) => Some(Normalise(p))
  }

  lemma {:induction false} ParseExactly(b: seq<byte>, more: seq<byte>, half: nat, use32bit: bool)
    requires |b| == 2 * half
    ensures Parse(b + more, |b|, use32bit) == NormaliseParsed(ParseSegments(b, use32bit))
  {
    assert (2 * half) % 2 == 0;
    assert (b + more)[..|b|] == b;
    if b == [] { assert ParseSegments(b, use32bit) == Some([]); }
  }

  lemma NormaliseChunks(p: Path)
    requires NoEmptySegment(p) && FitsSegments(p)
    ensures Normalise(ChunkPath(p)) == Normalise(p)
  {
    ChunkPathMeaning(p);
    ChunkPathNonEmpty(p);
    NoEmptyFilled(ChunkPath(p));
    NoEmptyFilled(p);
    NormaliseCanonical(ChunkPath(p), p);
  }

  /** What the far end holds after a path crossed the wire: the normal form of
      the path with AS_TRANS where a number did not fit, however long its
      sequences were. */
  lemma {:induction false} ParsePut(p: Path, use32bit: bool, more: seq<byte>)
    requires NoEmptySegment(p) && FitsSegments(p)
    ensures Parse(PathBytes(p, use32bit) + more, |PathBytes(p, use32bit)|, use32bit)
         == Some(Normalise(SentPath(p, use32bit)))
  {
    if p == [] {
      assert SentPath(p, use32bit) == [];
    } else {
      ParseChain(p, 0, use32bit);
      ChainBytesEven(p, 0, use32bit);
      ParseExactly(ChainBytes(p, 0, use32bit), more, HalfChain(p, 0, use32bit), use32bit);
      assert SentPath(p, use32bit)[0..] == SentPath(p, use32bit);
      NormaliseChunks(SentPath(p, use32bit));
    }
  }

  lemma SentPath32(p: Path)
    ensures SentPath(p, true) == p
  {
    forall i | 0 <= i < |p| ensures SentPath(p, true)[i] == p[i] {
      assert SentAsns(p[i].asns, true) == p[i].asns;
    }
  }

  // Whatever parses is in wire form, so the condition of the round trip is exact.

  predicate ShortSegments(p: Path)
  {
    forall i :: 0 <= i < |p| ==> 0 < |p[i].asns| <= AS_SEGMENT_MAX
  }

  lemma {:induction false} ParsedShort(b: seq<byte>, use32bit: bool)
    ensures ParseSegments(b, use32bit).Some? ==> ShortSegments(ParseSegments(b, use32bit).value)
    decreases |b|
  {
    if |b| > AS_HEADER_SIZE && b[1] > 0 && SegmentSize(b[1], use32bit) <= |b| {
      ParsedShort(b[SegmentSize(b[1], use32bit)..], use32bit);
    }
  }

  lemma {:induction false} NormaliseShort(p: Path)
    requires ShortSegments(p)
    ensures NoEmptySegment(Normalise(p)) && FitsSegments(Normalise(p))
  {
    if p != [] {
      NormaliseShort(p[1..]);
      var rest, r := Normalise(p[1..]), Normalise(p);
      if rest != [] && Packable(p[0], rest[0]) {
        assert r[1..] == rest[1..];
        assert forall i :: 1 <= i < |r| ==> r[i] == rest[i];
      } else {
        assert forall i :: 1 <= i < |r| ==> r[i] == rest[i - 1];
      }
    }
  }

  lemma {:induction false} ParsedWireForm(readable: seq<byte>, length: nat, use32bit: bool)
    ensures Parse(readable, length, use32bit).Some? ==> WireForm(Parse(readable, length, use32bit).value)
  {
    if length != 0 && length <= |readable| {
      var b := readable[..length];
      ParsedShort(b, use32bit);
      if ParseSegments(b, use32bit).Some? {
        NormaliseShort(ParseSegments(b, use32bit).value);
        NormaliseNormal(ParseSegments(b, use32bit).value);
      }
    }
  }

  /** The 4-octet wire form is lossless exactly on the paths the parser can
      produce: normal form, no empty segment, and only sequences over 255. */
  lemma {:induction false} RoundTrip32(p: Path, more: seq<byte>)
    ensures Parse(PathBytes(p, true) + more, |PathBytes(p, true)|, true) == Some(p) <==> WireForm(p)
  {
    if WireForm(p) {
      ParsePut(p, true, more);
      SentPath32(p);
      NormalFixed(p);
    }
    ParsedWireForm(PathBytes(p, true) + more, |PathBytes(p, true)|, true);
  }
}
