/** assegments_parse and aspath_put as they run on a stream. */
module AsPathStream {
  import opened Lists
  import opened AsPath
  import opened AsPathChain
  import opened AsPathCodec
  import opened Wire

  // ------------------------------------------------------------------ writer

  method AsnPut(s: Stream, a: Asn, use32bit: bool)
    requires s.Valid()
    modifies s
    ensures s.Valid() && s.getp == old(s.getp)
    ensures s.data == if DataSize(1, use32bit) <= old(s.Writeable()) then old(s.data) + AsnBytes(a, use32bit)
            else old(s.data)
  {
    if use32bit {
      s.Put(U32(a));
    } else if a <= BGP_AS_MAX {
      s.Put(U16(a));
    } else {
      s.Put(U16(BGP_AS_TRANS));
    }
  }

  lemma {:induction false} AsnsSnoc(asns: seq<Asn>, i: nat, use32bit: bool)
    requires i <= |asns|
    ensures AsnsBytes(asns[..0], use32bit) == []
    ensures i < |asns| ==>
            AsnsBytes(asns[..i + 1], use32bit) == AsnsBytes(asns[..i], use32bit) + AsnBytes(asns[i], use32bit)
  {
    if i < |asns| { assert asns[..i + 1][..i] == asns[..i]; }
  }

  /** assegment_data_put. */
  method DataPut(s: Stream, asns: seq<Asn>, use32bit: bool)
    requires s.Valid()
    modifies s
    ensures s.Valid() && s.getp == old(s.getp) && old(s.data) <= s.data
    ensures DataSize(|asns|, use32bit) <= old(s.Writeable()) ==> s.data == old(s.data) + AsnsBytes(asns, use32bit)
  {
    hide AsnBytes, AsnsBytes;
    ghost var room := DataSize(|asns|, use32bit) <= s.Writeable();
    AsnsSnoc(asns, 0, use32bit);
    for i := 0 to |asns|
      invariant s.Valid() && s.getp == old(s.getp) && old(s.data) <= s.data
      invariant room ==> s.data == old(s.data) + AsnsBytes(asns[..i], use32bit)
    {
      AsnsSnoc(asns, i, use32bit);
      AsnPut(s, asns[i], use32bit);
    }
    assert asns[..|asns|] == asns;
  }

  lemma Assoc(a: seq<byte>, b: seq<byte>, c: seq<byte>)
    ensures a + b + c == a + (b + c)
  {
  }

  lemma Assoc4(d: seq<byte>, h: seq<byte>, a: seq<byte>, r: seq<byte>)
    ensures d + h + a + r == d + (h + a + r)
  {
  }

  /** assegment_header_put. */
  method HeaderPut(s: Stream, kind: Kind, length: byte)
    requires s.Valid()
    modifies s
    ensures s.Valid() && s.getp == old(s.getp) && old(s.data) <= s.data
    ensures 2 <= old(s.Writeable()) ==> s.data == old(s.data) + [KindCode(kind), length]
  {
    s.Put([KindCode(kind)]);
    s.Put([length]);
  }

  function Rest(seg: Segment, written: nat): Segment
    requires written <= |seg.asns|
  {
    seg.(asns := seg.asns[written..])
  }

  lemma RestBytes(seg: Segment, written: nat, use32bit: bool)
    requires written + AS_SEGMENT_MAX < |seg.asns|
    ensures SegmentBytes(Rest(seg, written), use32bit)
         == [KindCode(seg.kind), AS_SEGMENT_MAX]
            + AsnsBytes(seg.asns[written..written + AS_SEGMENT_MAX], use32bit)
            + SegmentBytes(Rest(seg, written + AS_SEGMENT_MAX), use32bit)
  {
    var r := Rest(seg, written);
    assert r.asns[..AS_SEGMENT_MAX] == seg.asns[written..written + AS_SEGMENT_MAX];
    assert r.asns[AS_SEGMENT_MAX..] == seg.asns[written + AS_SEGMENT_MAX..];
  }

  /** One full wire segment of 255 numbers. */
  method ChunkPut(s: Stream, seg: Segment, written: nat, use32bit: bool)
    requires s.Valid() && written + AS_SEGMENT_MAX < |seg.asns|
    modifies s
    ensures s.Valid() && s.getp == old(s.getp) && old(s.data) <= s.data
    ensures |SegmentBytes(Rest(seg, written), use32bit)| <= old(s.Writeable()) ==>
              s.data + SegmentBytes(Rest(seg, written + AS_SEGMENT_MAX), use32bit)
              == old(s.data) + SegmentBytes(Rest(seg, written), use32bit)
  {
    RestBytes(seg, written, use32bit);
    Assoc4(s.data, [KindCode(seg.kind), AS_SEGMENT_MAX],
           AsnsBytes(seg.asns[written..written + AS_SEGMENT_MAX], use32bit),
           SegmentBytes(Rest(seg, written + AS_SEGMENT_MAX), use32bit));
    HeaderPut(s, seg.kind, AS_SEGMENT_MAX);
    DataPut(s, seg.asns[written..written + AS_SEGMENT_MAX], use32bit);
  }

  /** The final wire segment of at most 255 numbers. */
  method LastPut(s: Stream, seg: Segment, written: nat, use32bit: bool)
    requires s.Valid() && written <= |seg.asns| <= written + AS_SEGMENT_MAX
    modifies s
    ensures s.Valid() && s.getp == old(s.getp) && old(s.data) <= s.data
    ensures |SegmentBytes(Rest(seg, written), use32bit)| == SegmentSize(|seg.asns| - written, use32bit)
    ensures SegmentSize(|seg.asns| - written, use32bit) <= old(s.Writeable()) ==>
              s.data == old(s.data) + SegmentBytes(Rest(seg, written), use32bit)
  {
    ghost var header := [KindCode(seg.kind), |seg.asns| - written];
    assert SegmentBytes(Rest(seg, written), use32bit) == header + AsnsBytes(seg.asns[written..], use32bit);
    HeaderPut(s, seg.kind, |seg.asns| - written);
    DataPut(s, seg.asns[written..], use32bit);
  }

  /** One turn of the main loop of aspath_put: full wire segments while more
      than 255 numbers are left, then the final, possibly only, one. */
  method SegmentPut(s: Stream, seg: Segment, use32bit: bool) returns (bytes: nat)
    requires s.Valid()
    modifies s
    ensures s.Valid() && s.getp == old(s.getp) && old(s.data) <= s.data
    ensures |SegmentBytes(seg, use32bit)| <= old(s.Writeable()) ==>
              s.data == old(s.data) + SegmentBytes(seg, use32bit) && bytes == |s.data| - |old(s.data)|
  {
    ghost var room := |SegmentBytes(seg, use32bit)| <= s.Writeable();
    ghost var goal := s.data + SegmentBytes(seg, use32bit);
    var written := 0;
    bytes := 0;
    assert Rest(seg, 0) == seg;
    while |seg.asns| - written > AS_SEGMENT_MAX
      invariant written <= |seg.asns|
      invariant s.Valid() && s.getp == old(s.getp) && old(s.data) <= s.data
      invariant room ==> s.data + SegmentBytes(Rest(seg, written), use32bit) == goal
      invariant room ==> bytes == |s.data| - |old(s.data)|
    {
      RestBytes(seg, written, use32bit);
      ChunkPut(s, seg, written, use32bit);
      written := written + AS_SEGMENT_MAX;
      bytes := bytes + SegmentSize(AS_SEGMENT_MAX, use32bit);
    }
    LastPut(s, seg, written, use32bit);
    bytes := bytes + SegmentSize(|seg.asns| - written, use32bit);
  }

  // ------------------------------------------------------------------ parser

  ghost function Unread(s: Stream): seq<byte>
    requires s.getp <= |s.data|
    reads s
  {
    s.data[s.getp..]
  }

  lemma {:induction false} ReadOneMore(b: seq<byte>, n: nat, use32bit: bool)
    requires n > 0 && DataSize(n, use32bit) <= |b|
    ensures ReadAsns(b, n, use32bit)
         == ReadAsns(b, n - 1, use32bit) + [AsnAt(b, DataSize(n - 1, use32bit), use32bit)]
  {
  }

  /** Read the numbers of one segment. */
  method AsnsGet(s: Stream, n: nat, use32bit: bool) returns (asns: seq<Asn>)
    requires s.Valid() && DataSize(n, use32bit) <= s.Readable()
    modifies s
    ensures s.Valid() && s.data == old(s.data) && s.getp == old(s.getp) + DataSize(n, use32bit)
    ensures asns == ReadAsns(old(Unread(s)), n, use32bit)
  {
    ghost var b := Unread(s);
    asns := [];
    for i := 0 to n
      invariant s.Valid() && s.data == old(s.data) && s.getp == old(s.getp) + DataSize(i, use32bit)
      invariant asns == ReadAsns(b, i, use32bit)
    {
      var a;
      if use32bit { a := s.Getl(); } else { a := s.Getw(); }
      ReadOneMore(b, i + 1, use32bit);
      asns := asns + [a];
    }
  }

  /** The state of the parsing loop: what is parsed so far, in front of what
      the rest of the octets parse to. */
  ghost function Outcome(head: Path, b: seq<byte>, bytes: nat, use32bit: bool): Option<Path>
    requires bytes <= |b|
  {
    Prepend(head, ParseSegments(b[bytes..], use32bit))
  }

  lemma {:induction false} OutcomeEnds(head: Path, b: seq<byte>, use32bit: bool)
    ensures Outcome([], b, 0, use32bit) == ParseSegments(b, use32bit)
    ensures Outcome(head, b, |b|, use32bit) == Some(head)
  {
    assert b[0..] == b && b[|b|..] == [] && head + [] == head;
    var r := ParseSegments(b, use32bit);
    if r.Some? { assert [] + r.value == r.value; }
  }

  lemma {:induction false} OutcomeShort(head: Path, b: seq<byte>, bytes: nat, use32bit: bool)
    requires bytes < |b| <= bytes + AS_HEADER_SIZE
    ensures Outcome(head, b, bytes, use32bit) == None
  {
  }

  /** The first segment of octets r, if there is a well-formed one. */
  function FirstSegment(r: seq<byte>, use32bit: bool): Option<Segment>
    requires |r| > AS_HEADER_SIZE
  {
    if SegmentSize(r[1], use32bit) > |r| || r[1] == 0 || CodeKind(r[0]).None? then None
    else Some(Segment(CodeKind(r[0]).value, ReadAsns(r[AS_HEADER_SIZE..], r[1], use32bit)))
  }

  lemma {:induction false} OutcomeStep(head: Path, b: seq<byte>, bytes: nat, use32bit: bool)
    requires bytes + AS_HEADER_SIZE < |b|
    ensures match FirstSegment(b[bytes..], use32bit)
            case None => Outcome(head, b, bytes, use32bit).None?
            case Some(seg) =>
              && bytes + SegmentSize(|seg.asns|, use32bit) <= |b|
              && Outcome(head + [seg], b, bytes + SegmentSize(|seg.asns|, use32bit), use32bit)
                 == Outcome(head, b, bytes, use32bit)
  {
    var r := b[bytes..];
    var first := FirstSegment(r, use32bit);
    if first.Some? {
      var size := SegmentSize(r[1], use32bit);
      assert r[size..] == b[bytes + size..];
      PrependTwice(head, [first.value], ParseSegments(r[size..], use32bit));
    }
  }

  lemma ReadSlice(d: seq<byte>, from: nat, to: nat, n: nat, use32bit: bool)
    requires from <= to <= |d| && DataSize(n, use32bit) <= to - from
    ensures ReadAsns(d[from..], n, use32bit) == ReadAsns(d[from..to], n, use32bit)
  {
    assert d[from..] == d[from..to] + d[to..];
    ReadPrefix(d[from..to], d[to..], n, use32bit);
  }

  /** One turn of the parsing loop, with `left` octets of the attribute left. */
  method SegmentGet(s: Stream, left: nat, use32bit: bool) returns (seg: Option<Segment>)
    requires s.Valid() && AS_HEADER_SIZE < left <= s.Readable()
    modifies s
    ensures s.Valid() && s.data == old(s.data)
    ensures seg == FirstSegment(old(s.data[s.getp..s.getp + left]), use32bit)
    ensures seg.Some? ==> s.getp == old(s.getp) + SegmentSize(|seg.value.asns|, use32bit)
    ensures s.getp <= old(s.getp) + left
  {
    ghost var r := s.data[s.getp..s.getp + left];
    var end := s.getp + left;
    var kind := s.Getc();
    var n := s.Getc();
    assert kind == r[0] && n == r[1] && r[AS_HEADER_SIZE..] == s.data[s.getp..end];
    if SegmentSize(n, use32bit) > left || n == 0 { return None; }
    if CodeKind(kind).None? { return None; }
    ReadSlice(s.data, s.getp, end, n, use32bit);
    var asns := AsnsGet(s, n, use32bit);
    seg := Some(Segment(CodeKind(kind).value, asns));
  }

  /** The loop of assegments_parse over exactly `length` octets. */
  method SegmentsGet(s: Stream, length: nat, use32bit: bool) returns (r: Option<Path>)
    requires s.Valid() && length <= s.Readable()
    modifies s
    ensures s.Valid() && s.data == old(s.data)
    ensures r == ParseSegments(old(Unread(s))[..length], use32bit)
    ensures s.getp <= old(s.getp) + length && (r.Some? ==> s.getp == old(s.getp) + length)
  {
    hide ParseSegments, FirstSegment;
    ghost var b := Unread(s)[..length];
    var start := s.getp;
    var head: Path := [];
    var bytes := 0;
    OutcomeEnds([], b, use32bit);
    while bytes < length
      invariant bytes <= length && s.Valid() && s.data == old(s.data) && s.getp == start + bytes
      invariant Outcome(head, b, bytes, use32bit) == ParseSegments(b, use32bit)
    {
      if length - bytes <= AS_HEADER_SIZE {
        OutcomeShort(head, b, bytes, use32bit);
        return None;
      }
      OutcomeStep(head, b, bytes, use32bit);
      assert b[bytes..] == s.data[s.getp..s.getp + (length - bytes)];
      var seg := SegmentGet(s, length - bytes, use32bit);
      if seg.None? { return None; }
      head := head + [seg.value];
      bytes := bytes + SegmentSize(|seg.value.asns|, use32bit);
    }
    OutcomeEnds(head, b, use32bit);
    r := Some(head);
  }

  /** assegments_parse: accepts exactly well-formed octets, consumes exactly
      the given length when it succeeds, and returns the normal form. */
  method SegmentsParse(s: Stream, length: nat, use32bit: bool) returns (r: Option<Path>)
    requires s.Valid()
    modifies s
    ensures s.Valid() && s.data == old(s.data)
    ensures r == Parse(old(Unread(s)), length, use32bit)
    ensures s.getp <= old(s.getp) + length
    ensures r.Some? ==> s.getp == old(s.getp) + length && WireForm(r.value)
  {
    ParsedWireForm(Unread(s), length, use32bit);
    if length == 0 { return Some([]); }
    if |s.data| - s.getp < length || |s.data| - s.getp < AS_HEADER_SIZE || length % 2 != 0 {
      return None;
    }
    r := SegmentsGet(s, length, use32bit);
    if r.Some? {
      var chain := new Chain(r.value);
      chain.NormaliseInPlace();
      r := Some(chain.segments);
    }
  }
}
