/** aspath_make_str_count writing into its buffer, and aspath_str2aspath reading
    a text character by character. */
module AsPathTextIo {
  import opened Lists
  import opened AsPath
  import opened AsPathCodec
  import opened AsPathText

  const ASN_STR_LEN: nat := 11
  const ASPATH_STR_DEFAULT_LEN: nat := 32

  function SegmentStrLen(seg: Segment): nat { |seg.asns| * ASN_STR_LEN + 4 }

  /** str_buf of str_size characters, of which text is written. */
  class Buffer {
    var text: string
    var size: nat

    constructor (n: nat)
      ensures text == "" && size == n
    {
      text, size := "", n;
    }

    /** snprintf at the end of the text: nothing is cut off and the terminating
        zero fits. */
    method Append(t: string)
      requires |text| + |t| < size
      modifies this
      ensures text == old(text) + t && size == old(size)
    {
      text := text + t;
    }

    /** The check before each segment. */
    method Reserve(n: nat)
      modifies this
      ensures text == old(text) && size == if |text| + n > old(size) then |text| + n else old(size)
    {
      if |text| + n > size { size := |text| + n; }
    }
  }

  lemma PrintAsnsStep(s: seq<Asn>, j: nat, sep: char)
    requires j < |s|
    ensures PrintAsns(s[j..], sep) ==
            Decimal(s[j]) + if j + 1 < |s| then [sep] + PrintAsns(s[j + 1..], sep) else ""
  {
    hide Decimal;
    assert s[j..][1..] == s[j + 1..];
    if j + 1 < |s| {
      var r := s[j + 1..];
      assert [sep] + Decimal(r[0]) + PrintMore(r[1..], sep) == [sep] + (Decimal(r[0]) + PrintMore(r[1..], sep));
    }
  }

  /** The numbers of one segment, with separators between them. */
  method WriteAsns(b: Buffer, s: seq<Asn>, sep: char)
    requires |b.text| + |s| * ASN_STR_LEN < b.size
    modifies b
    ensures b.text == old(b.text) + PrintAsns(s, sep) && b.size == old(b.size)
    ensures |b.text| <= |old(b.text)| + |s| * ASN_STR_LEN
  {
    hide PrintAsns, Decimal;
    var i := 0;
    ghost var goal := b.text + PrintAsns(s, sep);
    assert s[0..] == s;
    while i < |s|
      invariant i <= |s| && b.size == old(b.size)
      invariant b.text + PrintAsns(s[i..], sep) == goal
      invariant |b.text| <= |old(b.text)| + i * ASN_STR_LEN
    {
      PrintAsnsStep(s, i, sep);
      AsnLength(s[i]);
      ghost var before, rest := b.text, if i + 1 < |s| then [sep] + PrintAsns(s[i + 1..], sep) else "";
      assert before + (Decimal(s[i]) + rest) == before + Decimal(s[i]) + rest;
      b.Append(Decimal(s[i]));
      if i + 1 < |s| {
        assert b.text + ([sep] + PrintAsns(s[i + 1..], sep)) == b.text + [sep] + PrintAsns(s[i + 1..], sep);
        b.Append([sep]);
      } else {
        assert s[i + 1..] == [];
        NoNumbers(sep);
      }
      i := i + 1;
    }
    assert s[i..] == [];
    NoNumbers(sep);
  }

  lemma NoNumbers(sep: char)
    ensures PrintAsns([], sep) == ""
  {
  }

  method WriteSegment(b: Buffer, seg: Segment, last: bool)
    requires |b.text| + SegmentStrLen(seg) <= b.size
    modifies b
    ensures b.text == old(b.text) + (PrintSegment(seg) + if last then "" else " ")
    ensures b.size == old(b.size) && |b.text| < b.size
  {
    hide PrintAsns;
    ghost var was := b.text;
    if seg.kind != AsSequence { b.Append(Start(seg.kind)); }
    assert b.text == was + Start(seg.kind);
    WriteAsns(b, seg.asns, Separator(seg.kind));
    if seg.kind != AsSequence { b.Append(End(seg.kind)); }
    assert b.text == was + PrintSegment(seg);
    if !last { b.Append(" "); }
  }

  function CountAsns(p: Path): nat { if p == [] then 0 else |p[0].asns| + CountAsns(p[1..]) }

  lemma PrintStep(p: Path, i: nat)
    requires i < |p|
    ensures Print(p[i..]) == PrintSegment(p[i]) + (if i + 1 < |p| then " " else "") + Print(p[i + 1..])
  {
    assert p[i..][1..] == p[i + 1..];
  }

  /** aspath_make_str_count: the buffer is never overrun, so the closing
      assertion holds for every path. */
  method MakeStr(p: Path) returns (s: string)
    ensures s == Print(p)
  {
    hide PrintSegment, Print;
    if p == [] {
      NoSegments();
      return "";
    }
    var count := CountAsns(p) * ASN_STR_LEN + 2 + 1;
    var b := new Buffer(if count > ASPATH_STR_DEFAULT_LEN then count else ASPATH_STR_DEFAULT_LEN);
    var i := 0;
    assert p[0..] == p && "" + Print(p) == Print(p);
    while i < |p|
      invariant i <= |p| && |b.text| < b.size
      invariant b.text + Print(p[i..]) == Print(p)
    {
      PrintStep(p, i);
      b.Reserve(SegmentStrLen(p[i]));
      ghost var was := b.text;
      WriteSegment(b, p[i], i + 1 == |p|);
      ghost var one := PrintSegment(p[i]) + if i + 1 < |p| then " " else "";
      assert was + (one + Print(p[i + 1..])) == was + one + Print(p[i + 1..]);
      i := i + 1;
    }
    assert |b.text| < b.size;
    assert p[i..] == [];
    NoSegments();
    s := b.text;
  }

  lemma NoSegments()
    ensures Print([]) == ""
  {
  }

  // ------------------------------------------------------------------- reading

  /** aspath_gettoken from a position on; the position after the token. */
  method GetToken(s: string, from: nat) returns (t: Option<(Token, nat)>)
    requires from <= |s|
    ensures match t
            case None => Lex(s[from..]) == None
            case Some((token, at)) =>
              at <= |s| && Lex(s[from..]) == Some((token, s[at..])) && (token != Unknown ==> from < at)
  {
    hide ReadNumber;
    var p := SkipSeparators(s, from);
    if p == |s| { return None; }
    assert s[p..][0] == s[p] && s[p..][1..] == s[p + 1..];
    var c := s[p];
    if c == '{' { return Some((Opening(AsSet), p + 1)); }
    if c == '(' { return Some((Opening(AsConfedSequence), p + 1)); }
    if c == '[' { return Some((Opening(AsConfedSet), p + 1)); }
    if c == '}' || c == ')' || c == ']' { return Some((Closing, p + 1)); }
    if IsDigit(c) {
      var n, at := GetNumber(s, p + 1, (c - '0') as int);
      return Some((AsVal(n), at));
    }
    t := Some((Unknown, p));
  }

  method SkipSeparators(s: string, from: nat) returns (p: nat)
    requires from <= |s|
    ensures from <= p <= |s| && Skip(s[from..]) == s[p..]
    ensures Skip(s[p..]) == s[p..]
  {
    p := from;
    while p < |s| && (IsSpace(s[p]) || s[p] == ',')
      invariant from <= p <= |s| && Skip(s[from..]) == Skip(s[p..])
    {
      assert s[p..][1..] == s[p + 1..];
      p := p + 1;
    }
  }

  method GetNumber(s: string, from: nat, first: Asn) returns (n: Asn, p: nat)
    requires from <= |s|
    ensures from <= p <= |s| && ReadNumber(s[from..], first) == (n, s[p..])
  {
    n, p := first, from;
    while p < |s| && IsDigit(s[p])
      invariant from <= p <= |s| && ReadNumber(s[from..], first) == ReadNumber(s[p..], n)
    {
      assert s[p..][1..] == s[p + 1..];
      n := (n * 10 + (s[p] - '0') as int) % 0x1_0000_0000;
      p := p + 1;
    }
  }

  /** aspath_str2aspath. */
  method StrToPath(s: string) returns (r: Option<Path>)
    ensures r == FromText(s)
  {
    hide Lex, Added;
    var p: Path := [];
    var kind, needtype := AsSequence, true;
    var at := 0;
    assert s[0..] == s;
    ghost var goal := FromText(s);
    while true
      invariant at <= |s| && ParseText(s[at..], p, kind, needtype) == goal
      decreases |s| - at
    {
      var t := GetToken(s, at);
      if t == None { return Some(p); }
      match t.value.0 {
        case AsVal(a) =>
          if needtype { p := p + [Segment(kind, [])]; }
          needtype := false;
          p := Added(p, a);
        case Opening(k) =>
          kind, p, needtype := k, p + [Segment(k, [])], false;
        case Closing =>
          kind, needtype := AsSequence, true;
        case Unknown =>
          return None;
      }
      at := t.value.1;
    }
  }
}
