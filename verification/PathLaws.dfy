/** The octets and the text of a path, told position by position: what the
    encoder and the printer put out whatever their decoders make of it. */
module PathLaws {
  import opened Lists
  import opened AsPath
  import opened Wire
  import opened AsPathCodec
  import opened AsPathText

  // --------------------------------------------------------------------- octets

  /** Network order. */
  lemma NetworkOrder(a: byte, b: byte, c: byte, d: byte)
    ensures U16(256 * a + b) == [a, b]
    ensures U32(0x100_0000 * a + 0x1_0000 * b + 0x100 * c + d) == [a, b, c, d]
  {
    var w := 0x100_0000 * a + 0x1_0000 * b + 0x100 * c + d;
    assert w / 0x1_0000 == 256 * a + b && w % 0x1_0000 == 256 * c + d;
  }

  /** The segment types of RFC 4271 and RFC 5065. */
  function TypeOctet(k: Kind): byte
  {
    match k case AsSet => 1 case AsSequence => 2 case AsConfedSequence => 3 case AsConfedSet => 4
  }

  /** A number on the wire; 91, 160 is 23456 for one a 2-octet speaker cannot
      read. */
  function NumberOctets(a: Asn, use32bit: bool): seq<byte>
  {
    if use32bit then U32(a) else if a < 65536 then U16(a) else [91, 160]
  }

  lemma NumberWritten(a: Asn, use32bit: bool)
    ensures AsnBytes(a, use32bit) == NumberOctets(a, use32bit)
  {
    NetworkOrder(91, 160, 0, 0);
  }

  lemma {:induction false} NumbersWritten(s: seq<Asn>, i: nat, use32bit: bool, at: nat, end: nat)
    requires i < |s| && at == DataSize(i, use32bit) && end == DataSize(i + 1, use32bit)
    ensures at <= end <= |AsnsBytes(s, use32bit)|
    ensures AsnsBytes(s, use32bit)[at..end] == NumberOctets(s[i], use32bit)
  {
    hide AsnBytes, NumberOctets;
    var front, last := s[..|s| - 1], s[|s| - 1];
    NumberWritten(s[i], use32bit);
    if i < |front| {
      NumbersWritten(front, i, use32bit, at, end);
      Front(AsnsBytes(front, use32bit), AsnBytes(last, use32bit), at, end);
    } else {
      Back(AsnsBytes(front, use32bit), AsnBytes(last, use32bit));
    }
  }

  lemma Front(b: seq<byte>, c: seq<byte>, at: nat, end: nat)
    requires at <= end <= |b|
    ensures (b + c)[at..end] == b[at..end]
  {
  }

  lemma Back(b: seq<byte>, c: seq<byte>)
    ensures (b + c)[|b|..|b| + |c|] == c
  {
  }

  /** One segment on the wire: its type, its count, and its numbers in order. */
  lemma SegmentOctets(seg: Segment, i: nat, use32bit: bool)
    requires 0 < |seg.asns| < 256 && i < |seg.asns|
    ensures var b, size := PathBytes([seg], use32bit), if use32bit then 4 else 2;
            && |b| == 2 + size * |seg.asns| && b[0] == TypeOctet(seg.kind) && b[1] == |seg.asns|
            && b[2 + size * i..2 + size * (i + 1)] == NumberOctets(seg.asns[i], use32bit)
  {
    hide AsnsBytes, NumberOctets, PathBytes;
    var at, end := DataSize(i, use32bit), DataSize(i + 1, use32bit);
    NumbersWritten(seg.asns, i, use32bit, at, end);
    OneSegment(seg, use32bit);
    var data := AsnsBytes(seg.asns, use32bit);
    Behind([KindCode(seg.kind), |seg.asns|], data, at, end);
  }

  lemma Behind(head: seq<byte>, b: seq<byte>, at: nat, end: nat)
    requires |head| == 2 && at <= end <= |b|
    ensures (head + b)[2 + at..2 + end] == b[at..end]
  {
  }

  lemma OneSegment(seg: Segment, use32bit: bool)
    requires 0 < |seg.asns| < 256
    ensures PathBytes([seg], use32bit) == [KindCode(seg.kind), |seg.asns|] + AsnsBytes(seg.asns, use32bit)
  {
    hide AsnsBytes;
    assert ChainBytes([seg], 0, use32bit) == SegmentBytes(seg, use32bit) + ChainBytes([seg], 1, use32bit);
  }

  // ----------------------------------------------------------------------- text

  /** The number a string of digits stands for. */
  function ValueOf(t: string): nat
    requires forall i :: 0 <= i < |t| ==> '0' <= t[i] <= '9'
  {
    if t == "" then 0 else 10 * ValueOf(t[..|t| - 1]) + (t[|t| - 1] - '0') as nat
  }

  /** A number is printed in decimal digits, without a leading zero. */
  lemma {:induction false} DecimalLaw(n: nat)
    ensures var t := Decimal(n);
            && (forall i :: 0 <= i < |t| ==> '0' <= t[i] <= '9') && ValueOf(t) == n
            && (t[0] == '0' ==> t == "0")
  {
    var t := Decimal(n);
    if n >= 10 {
      DecimalLaw(n / 10);
      assert t[..|t| - 1] == Decimal(n / 10);
    } else {
      assert t[..0] == "";
    }
  }

  /** Two numbers of each kind, as printed. */
  lemma KindsPrinted(a: Asn, b: Asn)
    ensures Print([Segment(AsSequence, [a, b])]) == Decimal(a) + " " + Decimal(b)
    ensures Print([Segment(AsSet, [a, b])]) == "{" + Decimal(a) + "," + Decimal(b) + "}"
    ensures Print([Segment(AsConfedSequence, [a, b])]) == "(" + Decimal(a) + " " + Decimal(b) + ")"
    ensures Print([Segment(AsConfedSet, [a, b])]) == "[" + Decimal(a) + "," + Decimal(b) + "]"
  {
    hide Decimal;
    PairPrinted(a, b, ' ');
    PairPrinted(a, b, ',');
    forall k: Kind { Alone(Segment(k, [a, b])); }
  }

  lemma PairPrinted(a: Asn, b: Asn, sep: char)
    ensures PrintAsns([a, b], sep) == Decimal(a) + [sep] + Decimal(b)
  {
    hide Decimal;
    assert PrintMore([a, b][1..], sep) == [sep] + Decimal(b) + PrintMore([], sep);
  }

  lemma Alone(seg: Segment)
    ensures Print([seg]) == PrintSegment(seg)
  {
    hide PrintSegment;
    assert Print([seg]) == PrintSegment(seg) + "" + Print([]);
  }

  /** One more number goes behind a separator. */
  lemma {:induction false} MorePrinted(s: seq<Asn>, a: Asn, sep: char)
    ensures PrintMore(s + [a], sep) == PrintMore(s, sep) + [sep] + Decimal(a)
  {
    hide Decimal;
    if s == [] {
      assert PrintMore([a], sep) == [sep] + Decimal(a) + PrintMore([], sep);
    } else {
      assert (s + [a])[1..] == s[1..] + [a];
      MorePrinted(s[1..], a, sep);
    }
  }

  lemma NumbersPrinted(s: seq<Asn>, a: Asn, sep: char)
    ensures PrintAsns(s + [a], sep) == if s == [] then Decimal(a) else PrintAsns(s, sep) + [sep] + Decimal(a)
  {
    hide Decimal;
    if s == [] {
      assert PrintAsns([a], sep) == Decimal(a) + PrintMore([], sep);
    } else {
      assert (s + [a])[1..] == s[1..] + [a];
      MorePrinted(s[1..], a, sep);
    }
  }

  /** The rule for every segment: numbers one after the other, a comma between
      the members of a set and a space between those of a sequence, and the
      brackets of the kind around them. */
  lemma SegmentGrows(k: Kind, s: seq<Asn>, a: Asn)
    requires s != []
    ensures var sep := if k == AsSet || k == AsConfedSet then "," else " ";
            var close := match k case AsSet => "}" case AsConfedSet => "]" case AsConfedSequence => ")"
                                 case AsSequence => "";
            var shorter := Print([Segment(k, s)]);
            && |close| <= |shorter| && shorter[|shorter| - |close|..] == close
            && Print([Segment(k, s + [a])]) == shorter[..|shorter| - |close|] + sep + Decimal(a) + close
  {
    hide Decimal, PrintAsns;
    Alone(Segment(k, s));
    Alone(Segment(k, s + [a]));
    NumbersPrinted(s, a, Separator(k));
    var inner := Start(k) + PrintAsns(s, Separator(k));
    assert Print([Segment(k, s)]) == inner + End(k);
    assert (inner + End(k))[..|inner|] == inner;
  }

  /** Segments are separated by one space. */
  lemma {:induction false} SegmentsPrinted(p: Path, q: Path)
    requires p != [] && q != []
    ensures Print(p + q) == Print(p) + " " + Print(q)
  {
    hide PrintSegment;
    assert (p + q)[1..] == p[1..] + q;
    if |p| == 1 {
      assert p[1..] + q == q;
      Alone(p[0]);
      assert p == [p[0]];
    } else {
      SegmentsPrinted(p[1..], q);
    }
  }
}
