/** The text form of a path: the printer of aspath_make_str_count with its
    growing buffer, and the tokenizer and parser of aspath_str2aspath. */
module AsPathText {
  import opened Lists
  import opened AsPath
  import opened AsPathCodec

  // --------------------------------------------------------------- printing

  function Digit(d: nat): char
    requires d < 10
  {
    '0' + d as char
  }

  /** "%u". */
  function Decimal(n: nat): (t: string)
    ensures t != []
  {
    if n < 10 then [Digit(n)] else Decimal(n / 10) + [Digit(n % 10)]
  }

  function Separator(k: Kind): char { if IsSetKind(k) then ',' else ' ' }

  /** aspath_delimiter_char; sequences have no delimiters. */
  function Start(k: Kind): string
  {
    match k case AsSet => "{" case AsConfedSet => "[" case AsConfedSequence => "(" case AsSequence => ""
  }

  function End(k: Kind): string
  {
    match k case AsSet => "}" case AsConfedSet => "]" case AsConfedSequence => ")" case AsSequence => ""
  }

  function PrintAsns(s: seq<Asn>, sep: char): string
  {
    if s == [] then "" else Decimal(s[0]) + PrintMore(s[1..], sep)
  }

  function PrintMore(s: seq<Asn>, sep: char): string
  {
    if s == [] then "" else [sep] + Decimal(s[0]) + PrintMore(s[1..], sep)
  }

  function PrintSegment(seg: Segment): string
  {
    Start(seg.kind) + PrintAsns(seg.asns, Separator(seg.kind)) + End(seg.kind)
  }

  function Print(p: Path): string
  {
    if p == [] then "" else PrintSegment(p[0]) + (if |p| > 1 then " " else "") + Print(p[1..])
  }

  // ---------------------------------------------------------------- parsing

  predicate IsDigit(c: char) { '0' <= c <= '9' }
  predicate IsSpace(c: char) { c == ' ' || 9 as char <= c <= 13 as char }

  function Skip(t: string): (r: string)
    ensures |r| <= |t|
  {
    if t != "" && (IsSpace(t[0]) || t[0] == ',') then Skip(t[1..]) else t
  }

  /** A run of digits in 32-bit arithmetic, and what follows it. */
  function ReadNumber(t: string, acc: Asn): (r: (Asn, string))
    ensures |r.1| <= |t|
  {
    if t != "" && IsDigit(t[0])
    then ReadNumber(t[1..], (acc * 10 + (t[0] - '0') as int) % 0x1_0000_0000)
    else (acc, t)
  }

  datatype Token = AsVal(n: Asn) | Opening(kind: Kind) | Closing | Unknown

  /** aspath_gettoken: the next token and the text after it. */
  function Lex(t: string): (r: Option<(Token, string)>)
    ensures r.Some? && r.value.0 != Unknown ==> |r.value.1| < |t|
  {
    var s := Skip(t);
    if s == "" then None
    else if s[0] == '{' then Some((Opening(AsSet), s[1..]))
    else if s[0] == '(' then Some((Opening(AsConfedSequence), s[1..]))
    else if s[0] == '[' then Some((Opening(AsConfedSet), s[1..]))
    else if s[0] == '}' || s[0] == ')' || s[0] == ']' then Some((Closing, s[1..]))
    else if IsDigit(s[0]) then var r := ReadNumber(s[1..], (s[0] - '0') as int); Some((AsVal(r.0), r.1))
    else Some((Unknown, s))
  }

  /** aspath_as_add: nothing to add to in an empty chain. */
  function Added(p: Path, a: Asn): Path
  {
    if p == [] then p else p[|p| - 1 := p[|p| - 1].(asns := p[|p| - 1].asns + [a])]
  }

  /** The loop of aspath_str2aspath. */
  function ParseText(t: string, p: Path, kind: Kind, needtype: bool): Option<Path>
    decreases |t|
  {
    match Lex(t)
    case None => Some(p)
    case Some((AsVal(a), rest)) =>
      ParseText(rest, Added(if needtype then p + [Segment(kind, [])] else p, a), kind, false)
    case Some((Opening(k), rest)) => ParseText(rest, p + [Segment(k, [])], k, false)
    case Some((Closing, rest)) => ParseText(rest, p, AsSequence, true)
    case Some((Unknown, _)) => None
  }

  function FromText(t: string): Option<Path> { ParseText(t, [], AsSequence, true) }

  // --------------------------------------------------- numbers and their text

  lemma {:induction false} DecimalLength(n: nat, k: nat, bound: nat)
    requires n < bound && IsPowerOfTen(bound, k) && k > 0
    ensures |Decimal(n)| <= k
  {
    if n >= 10 { DecimalLength(n / 10, k - 1, bound / 10); }
  }

  predicate IsPowerOfTen(n: nat, k: nat) { if k == 0 then n == 1 else n % 10 == 0 && IsPowerOfTen(n / 10, k - 1) }

  lemma AsnLength(a: Asn)
    ensures 1 <= |Decimal(a)| <= 10
  {
    DecimalLength(a, 10, 10_000_000_000);
  }

  lemma DigitRead(d: nat)
    requires d < 10
    ensures IsDigit(Digit(d)) && (Digit(d) - '0') as int == d
  {
  }

  lemma ReadDigit(d: nat, rest: string, acc: Asn)
    requires d < 10 && acc * 10 + d < 0x1_0000_0000
    ensures ReadNumber([Digit(d)] + rest, acc) == ReadNumber(rest, acc * 10 + d)
  {
    DigitRead(d);
    assert ([Digit(d)] + rest)[1..] == rest;
  }

  lemma {:induction false} ReadDecimal(n: Asn, rest: string)
    ensures ReadNumber(Decimal(n) + rest, 0) == ReadNumber(rest, n)
  {
    hide ReadNumber, Digit;
    if n < 10 {
      ReadDigit(n, rest, 0);
    } else {
      var m, d := n / 10, n % 10;
      assert Decimal(n) + rest == Decimal(m) + ([Digit(d)] + rest);
      ReadDecimal(m, [Digit(d)] + rest);
      ReadDigit(d, rest, m);
    }
  }

  lemma {:induction false} DecimalStarts(n: nat)
    ensures IsDigit(Decimal(n)[0])
  {
    if n < 10 { DigitRead(n); } else { DecimalStarts(n / 10); }
  }

  predicate NoDigitFirst(t: string) { t != "" ==> !IsDigit(t[0]) }

  lemma LexNumber(n: Asn, rest: string)
    requires NoDigitFirst(rest)
    ensures Lex(Decimal(n) + rest) == Some((AsVal(n), rest))
  {
    hide Decimal;
    var t := Decimal(n) + rest;
    DecimalStarts(n);
    assert t[0] == Decimal(n)[0] && Skip(t) == t;
    ReadDecimal(n, rest);
    assert ReadNumber(t, 0) == ReadNumber(t[1..], (t[0] - '0') as int);
  }

  lemma LexSeparated(c: char, rest: string)
    requires c == ' ' || c == ','
    ensures Lex([c] + rest) == Lex(rest)
  {
    assert ([c] + rest)[1..] == rest;
  }

  lemma LexDelimiter(k: Kind, rest: string)
    requires k != AsSequence
    ensures Lex(Start(k) + rest) == Some((Opening(k), rest))
    ensures Lex(End(k) + rest) == Some((Closing, rest))
  {
    assert (Start(k) + rest)[1..] == rest && (End(k) + rest)[1..] == rest;
  }

  // ------------------------------------------------------ a segment, read back

  /** The last segment of a chain with more numbers. */
  function Grown(p: Path, more: seq<Asn>): (r: Path)
    requires p != []
    ensures |r| == |p|
  {
    p[|p| - 1 := p[|p| - 1].(asns := p[|p| - 1].asns + more)]
  }

  lemma GrownTwice(p: Path, a: seq<Asn>, b: seq<Asn>)
    requires p != []
    ensures Grown(Grown(p, a), b) == Grown(p, a + b)
    ensures a == [] ==> Grown(p, a) == p
  {
    var seg := p[|p| - 1];
    assert seg.asns + a + b == seg.asns + (a + b);
    assert seg.asns + [] == seg.asns;
  }

  lemma {:induction false} MoreStarts(s: seq<Asn>, sep: char, rest: string)
    requires !IsDigit(sep) && NoDigitFirst(rest)
    ensures NoDigitFirst(PrintMore(s, sep) + rest)
  {
  }

  /** One number into an open segment, after a separator or none. */
  lemma ParseNumber(n: Asn, sep: char, rest: string, p: Path, kind: Kind)
    requires (sep == ' ' || sep == ',') && NoDigitFirst(rest) && p != []
    ensures ParseText(Decimal(n) + rest, p, kind, false) == ParseText(rest, Grown(p, [n]), kind, false)
    ensures ParseText([sep] + Decimal(n) + rest, p, kind, false) == ParseText(rest, Grown(p, [n]), kind, false)
  {
    hide Lex, Decimal;
    LexNumber(n, rest);
    LexSeparated(sep, Decimal(n) + rest);
    assert [sep] + Decimal(n) + rest == [sep] + (Decimal(n) + rest);
  }

  lemma {:induction false} ParseMore(s: seq<Asn>, sep: char, rest: string, p: Path, kind: Kind)
    requires (sep == ' ' || sep == ',') && NoDigitFirst(rest) && p != []
    ensures ParseText(PrintMore(s, sep) + rest, p, kind, false) == ParseText(rest, Grown(p, s), kind, false)
    decreases |s|
  {
    hide ParseText, Decimal, Grown;
    if s == [] {
      GrownTwice(p, [], []);
      assert "" + rest == rest;
    } else {
      var tail := PrintMore(s[1..], sep) + rest;
      assert PrintMore(s, sep) + rest == [sep] + Decimal(s[0]) + tail;
      MoreStarts(s[1..], sep, rest);
      ParseNumber(s[0], sep, tail, p, kind);
      ParseMore(s[1..], sep, rest, Grown(p, [s[0]]), kind);
      GrownTwice(p, [s[0]], s[1..]);
      assert [s[0]] + s[1..] == s;
    }
  }

  /** Numbers read into an open segment. */
  lemma {:induction false} ParseAsns(s: seq<Asn>, sep: char, rest: string, p: Path, kind: Kind)
    requires (sep == ' ' || sep == ',') && NoDigitFirst(rest) && p != []
    ensures ParseText(PrintAsns(s, sep) + rest, p, kind, false) == ParseText(rest, Grown(p, s), kind, false)
  {
    hide ParseText, Decimal, Grown, PrintMore;
    if s == [] {
      GrownTwice(p, [], []);
      assert "" + rest == rest;
    } else {
      var tail := PrintMore(s[1..], sep) + rest;
      assert PrintAsns(s, sep) + rest == Decimal(s[0]) + tail;
      MoreStarts(s[1..], sep, rest);
      ParseNumber(s[0], sep, tail, p, kind);
      ParseMore(s[1..], sep, rest, Grown(p, [s[0]]), kind);
      GrownTwice(p, [s[0]], s[1..]);
      assert [s[0]] + s[1..] == s;
    }
  }

  /** The first number of a sequence opens it; the rest is as in an open one. */
  lemma {:induction false} ParseOpening(s: seq<Asn>, rest: string, p: Path)
    requires s != [] && NoDigitFirst(rest)
    ensures ParseText(PrintAsns(s, ' ') + rest, p, AsSequence, true)
         == ParseText(rest, p + [Segment(AsSequence, s)], AsSequence, false)
  {
    hide Lex, Decimal, PrintMore;
    var open := p + [Segment(AsSequence, [])];
    var tail := PrintMore(s[1..], ' ') + rest;
    assert PrintAsns(s, ' ') + rest == Decimal(s[0]) + tail;
    MoreStarts(s[1..], ' ', rest);
    LexNumber(s[0], tail);
    assert Added(open, s[0]) == Grown(open, [s[0]]);
    ParseMore(s[1..], ' ', rest, Grown(open, [s[0]]), AsSequence);
    GrownTwice(open, [s[0]], s[1..]);
    assert [s[0]] + s[1..] == s && [] + s == s;
    assert Grown(open, s) == p + [Segment(AsSequence, s)];
  }

  // --------------------------------------------------------- the whole path

  /** What printing forgets: empty sequences, and where one sequence ends and
      the next begins. q is already read; open says its last segment is a
      sequence that may grow. */
  function Coalesced(q: Path, open: bool, p: Path): Path
    requires open ==> q != []
    decreases |p|
  {
    if p == [] then q
    else if p[0].kind != AsSequence then Coalesced(q + [p[0]], false, p[1..])
    else if p[0].asns == [] then Coalesced(q, open, p[1..])
    else if open then Coalesced(Grown(q, p[0].asns), true, p[1..])
    else Coalesced(q + [p[0]], true, p[1..])
  }

  /** What is printed after the first segment. */
  function Following(p: Path): string
    requires p != []
  {
    (if |p| > 1 then " " else "") + Print(p[1..])
  }

  lemma NoTokens(p: Path, kind: Kind, needtype: bool)
    ensures ParseText("", p, kind, needtype) == Some(p)
  {
  }

  lemma NoAsns()
    ensures PrintAsns([], ' ') == ""
  {
  }

  lemma FollowingStarts(p: Path)
    requires p != []
    ensures NoDigitFirst(Following(p))
    ensures forall q, need ::
              ParseText(Following(p), q, AsSequence, need) == ParseText(Print(p[1..]), q, AsSequence, need)
  {
    hide Lex;
    if |p| > 1 {
      LexSeparated(' ', Print(p[1..]));
      assert Following(p) == [' '] + Print(p[1..]);
    } else {
      assert p[1..] == [] && Following(p) == "";
    }
  }

  /** A delimited segment reads back as itself, whatever was open before. */
  lemma ParseBlock(q: Path, needtype: bool, seg: Segment, rest: string)
    requires seg.kind != AsSequence
    ensures ParseText(PrintSegment(seg) + rest, q, AsSequence, needtype) == ParseText(rest, q + [seg], AsSequence, true)
  {
    hide Lex, PrintAsns;
    var k := seg.kind;
    var end := End(k) + rest;
    var body := PrintAsns(seg.asns, Separator(k)) + end;
    assert PrintSegment(seg) + rest == Start(k) + body;
    LexDelimiter(k, body);
    LexDelimiter(k, rest);
    var open := q + [Segment(k, [])];
    ParseAsns(seg.asns, Separator(k), end, open, k);
    assert Grown(open, seg.asns) == q + [seg] by { assert [] + seg.asns == seg.asns; }
  }

  lemma {:induction false} ParsePrinted(q: Path, open: bool, p: Path)
    requires open ==> q != []
    ensures ParseText(Print(p), q, AsSequence, !open) == Some(Coalesced(q, open, p))
    decreases |p|
  {
    hide Lex, PrintAsns, Grown;
    if p == [] {
      NoTokens(q, AsSequence, !open);
    } else {
      var seg := p[0];
      var after := Following(p);
      assert Print(p) == PrintSegment(seg) + after;
      FollowingStarts(p);
      if seg.kind != AsSequence {
        ParseBlock(q, !open, seg, after);
        ParsePrinted(q + [seg], false, p[1..]);
      } else {
        assert PrintSegment(seg) == PrintAsns(seg.asns, ' ') + "" == PrintAsns(seg.asns, ' ');
        if seg.asns == [] {
          NoAsns();
          assert Print(p) == after;
          ParsePrinted(q, open, p[1..]);
        } else if open {
          ParseAsns(seg.asns, ' ', after, q, AsSequence);
          ParsePrinted(Grown(q, seg.asns), true, p[1..]);
        } else {
          ParseOpening(seg.asns, after, q);
          assert seg == Segment(AsSequence, seg.asns);
          ParsePrinted(q + [seg], true, p[1..]);
        }
      }
    }
  }

  /** Printing and parsing any path gives it back up to what printing forgets. */
  lemma TextRoundTrip(p: Path)
    ensures FromText(Print(p)) == Some(Coalesced([], false, p))
  {
    ParsePrinted([], false, p);
  }

  lemma {:induction false} CoalescedLength(q: Path, open: bool, p: Path)
    requires open ==> q != []
    ensures |Coalesced(q, open, p)| <= |q| + |p|
    ensures |Coalesced(q, open, p)| == |q| + |p| ==>
              NoEmptySequence(p) && NoAdjacentSequences(p) && (open && p != [] ==> p[0].kind != AsSequence)
    decreases |p|
  {
    hide Grown;
    if p != [] {
      var after := p[1..];
      if p[0].kind != AsSequence {
        CoalescedLength(q + [p[0]], false, after);
      } else if p[0].asns == [] {
        CoalescedLength(q, open, after);
      } else if open {
        CoalescedLength(Grown(q, p[0].asns), true, after);
      } else {
        CoalescedLength(q + [p[0]], true, after);
      }
      assert p == [p[0]] + after;
      assert forall i :: 0 <= i < |after| - 1 ==> Packable(after[i], after[i + 1]) == Packable(p[i + 1], p[i + 2]);
    }
  }

  lemma {:induction false} CoalescedSame(q: Path, open: bool, p: Path)
    requires (open ==> q != []) && NoEmptySequence(p) && NoAdjacentSequences(p)
    requires open && p != [] ==> p[0].kind != AsSequence
    ensures Coalesced(q, open, p) == q + p
    decreases |p|
  {
    hide Grown;
    if p != [] {
      var after := p[1..];
      assert forall i :: 0 <= i < |after| - 1 ==> Packable(after[i], after[i + 1]) == Packable(p[i + 1], p[i + 2]);
      if |p| > 1 { assert !Packable(p[0], p[1]); }
      CoalescedSame(q + [p[0]], p[0].kind == AsSequence, after);
      assert q + [p[0]] + after == q + p;
    }
  }

  /** A path survives its text form exactly when it has no empty and no adjacent
      sequences; every path parsed from the wire is one. */
  lemma TextExact(p: Path)
    ensures FromText(Print(p)) == Some(p) <==> NoEmptySequence(p) && NoAdjacentSequences(p)
    ensures WireForm(p) ==> FromText(Print(p)) == Some(p)
  {
    hide Print, FromText;
    TextRoundTrip(p);
    CoalescedLength([], false, p);
    if NoEmptySequence(p) && NoAdjacentSequences(p) {
      CoalescedSame([], false, p);
      assert [] + p == p;
    }
  }

  lemma {:induction false} CoalescedMeaning(q: Path, open: bool, p: Path)
    requires open ==> q != [] && q[|q| - 1].kind == AsSequence
    ensures Meaning(Coalesced(q, open, p)) == Meaning(q) + Meaning(p)
    decreases |p|
  {
    hide Meaning, SegmentMeaning, Grown;
    if p == [] {
      NoMeaning();
      assert Meaning(q) + [] == Meaning(q);
    } else {
      var after := p[1..];
      assert p == [p[0]] + after;
      MeaningConcat([p[0]], after);
      MeaningConcat(q, [p[0]]);
      if p[0].kind != AsSequence {
        CoalescedMeaning(q + [p[0]], false, after);
      } else if p[0].asns == [] {
        CoalescedMeaning(q, open, after);
        EmptyMeaning(p[0]);
      } else if open {
        GrownMeaning(q, p[0].asns);
        assert p[0] == Segment(AsSequence, p[0].asns);
        CoalescedMeaning(Grown(q, p[0].asns), true, after);
      } else {
        CoalescedMeaning(q + [p[0]], true, after);
      }
    }
  }

  lemma NoMeaning()
    ensures Meaning([]) == []
  {
  }

  lemma OneMeaning(seg: Segment)
    ensures Meaning([seg]) == SegmentMeaning(seg)
  {
    assert SegmentMeaning(seg) + [] == SegmentMeaning(seg);
  }

  lemma EmptyMeaning(seg: Segment)
    requires seg.kind == AsSequence && seg.asns == []
    ensures Meaning([seg]) == []
  {
    OneMeaning(seg);
  }

  lemma HopsAssoc(x: seq<Hop>, y: seq<Hop>, z: seq<Hop>)
    ensures x + (y + z) == x + y + z
  {
  }

  lemma LastMeaning(q: Path)
    requires q != []
    ensures Meaning(q) == Meaning(q[..|q| - 1]) + Meaning([q[|q| - 1]])
  {
    hide Meaning;
    MeaningConcat(q[..|q| - 1], [q[|q| - 1]]);
    assert q == q[..|q| - 1] + [q[|q| - 1]];
  }

  lemma GrownApart(q: Path, s: seq<Asn>)
    requires q != []
    ensures Grown(q, s)[..|q| - 1] == q[..|q| - 1]
    ensures Grown(q, s)[|q| - 1] == Segment(q[|q| - 1].kind, q[|q| - 1].asns + s)
  {
  }

  lemma GrownMeaning(q: Path, s: seq<Asn>)
    requires q != [] && q[|q| - 1].kind == AsSequence
    ensures Grown(q, s)[|q| - 1].kind == AsSequence
    ensures Meaning(Grown(q, s)) == Meaning(q) + Meaning([Segment(AsSequence, s)])
  {
    hide Meaning, Grown;
    var last := q[|q| - 1];
    LastMeaning(q);
    LastMeaning(Grown(q, s));
    GrownApart(q, s);
    JoinedMeaning(last.asns, s);
    assert last == Segment(AsSequence, last.asns);
    HopsAssoc(Meaning(q[..|q| - 1]), Meaning([last]), Meaning([Segment(AsSequence, s)]));
  }

  lemma JoinedMeaning(a: seq<Asn>, b: seq<Asn>)
    ensures Meaning([Segment(AsSequence, a + b)]) ==
            Meaning([Segment(AsSequence, a)]) + Meaning([Segment(AsSequence, b)])
  {
    hide Meaning, SegmentMeaning;
    OneMeaning(Segment(AsSequence, a + b));
    OneMeaning(Segment(AsSequence, a));
    OneMeaning(Segment(AsSequence, b));
    SequenceMeaningSplit(a, b);
  }

  /** Every path means the same after a trip through its text. */
  lemma TextKeepsMeaning(p: Path)
    ensures FromText(Print(p)).Some? && Meaning(FromText(Print(p)).value) == Meaning(p)
  {
    TextRoundTrip(p);
    CoalescedMeaning([], false, p);
    assert [] + Meaning(p) == Meaning(p);
  }
}
