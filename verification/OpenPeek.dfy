/** Finding the 4-octet AS number of an OPEN before it is parsed. */
module OpenPeek {
  import opened Wire
  import opened OpenCapability

  datatype Peeked = Found(as4: nat) | Stopped | Passed

  /** The capabilities of one option, as the peek walks them. */
  function PeekCaps(b: seq<byte>): Peeked
    decreases |b|
  {
    if b == [] then Passed
    else if |b| < 2 || 2 + b[1] > |b| then Stopped
    else if b[0] == AS4 then Found(if b[1] == 4 then FromU32(b[2], b[3], b[4], b[5]) else 0)
    else PeekCaps(b[2 + b[1]..])
  }

  /** peek_for_as4_capability on the option area. An option that is not a
      capability is entered instead of skipped. */
  function PeekOptions(b: seq<byte>): Peeked
    decreases |b|
  {
    if b == [] then Passed
    else if |b| < 2 || 2 + b[1] > |b| then Stopped
    else if b[0] != OPT_CAP then PeekOptions(b[2..])
    else
      var r := PeekCaps(b[2..2 + b[1]]);
      if r == Passed then PeekOptions(b[2 + b[1]..]) else r
  }

  /** The number the peek answers. */
  function Peek(b: seq<byte>): nat { match PeekOptions(b) case Found(as4) => as4 case _ => 0 }

  /** A peek that skips what is not a capability. */
  function SkippingPeek(b: seq<byte>): Peeked
    decreases |b|
  {
    if b == [] then Passed
    else if |b| < 2 || 2 + b[1] > |b| then Stopped
    else
      var r := if b[0] == OPT_CAP then PeekCaps(b[2..2 + b[1]]) else Passed;
      if r == Passed then SkippingPeek(b[2 + b[1]..]) else r
  }

  /** Before an AS4 capability or a malformed one ends the walk, every option is
      a capability or empty. */
  predicate NothingForeign(b: seq<byte>)
    decreases |b|
  {
    || |b| < 2 || 2 + b[1] > |b|
    || (b[0] == OPT_CAP && PeekCaps(b[2..2 + b[1]]) != Passed)
    || ((b[0] == OPT_CAP || b[1] == 0) && NothingForeign(b[2 + b[1]..]))
  }

  /** Without foreign options in front, the peek is the one that skips them. */
  lemma {:induction false} PeekSkips(b: seq<byte>)
    requires NothingForeign(b)
    ensures PeekOptions(b) == SkippingPeek(b)
    decreases |b|
  {
    hide PeekCaps;
    if |b| >= 2 && 2 + b[1] <= |b| {
      if b[0] == OPT_CAP {
        if PeekCaps(b[2..2 + b[1]]) == Passed { PeekSkips(b[2 + b[1]..]); }
      } else {
        PeekSkips(b[2 + b[1]..]);
      }
    }
  }

  lemma Foreign(b: seq<byte>)
    requires |b| >= 2 && 2 + b[1] <= |b| && b[0] != OPT_CAP
    ensures PeekOptions(b) == PeekOptions(b[2..]) && SkippingPeek(b) == SkippingPeek(b[2 + b[1]..])
  {
  }

  lemma Overlong(b: seq<byte>)
    requires |b| >= 2 && 2 + b[1] > |b|
    ensures PeekOptions(b) == Stopped
  {
  }

  /** A foreign option can hide everything behind it, for any content of it that
      reads as an option longer than what is left. */
  lemma ForeignOptionHides(kind: byte, k: byte, length: byte, rest: seq<byte>)
    requires kind != OPT_CAP && length > |rest|
    ensures Peek([kind, 2, k, length] + rest) == 0
    ensures SkippingPeek([kind, 2, k, length] + rest) == SkippingPeek(rest)
  {
    hide PeekOptions, SkippingPeek;
    var b, inner := [kind, 2, k, length] + rest, [k, length] + rest;
    assert b[0] == kind && b[1] == 2 && b[2..] == inner && b[4..] == rest;
    assert inner[1] == length;
    Foreign(b);
    Overlong(inner);
  }

  /** One such area: AS 70000 behind an authentication option is not found. */
  lemma HiddenAs()
    ensures Peek([1, 2, 5, 255, 2, 6, 65, 4, 0, 1, 17, 112]) == 0
    ensures SkippingPeek([1, 2, 5, 255, 2, 6, 65, 4, 0, 1, 17, 112]) == Found(70000)
  {
    var rest := [2, 6, 65, 4, 0, 1, 17, 112];
    ForeignOptionHides(1, 5, 255, rest);
    assert [1, 2, 5, 255] + rest == [1, 2, 5, 255, 2, 6, 65, 4, 0, 1, 17, 112];
    assert rest[2..8] == [65, 4, 0, 1, 17, 112];
    assert PeekCaps([65, 4, 0, 1, 17, 112]) == Found(FromU32(0, 1, 17, 112));
  }

  lemma PeekOne(c: Cap, rest: seq<byte>)
    requires |c.data| < 254 && (c.code == AS4 ==> |c.data| == 4)
    ensures PeekOptions(OptionBytes(c) + rest) ==
            if c.code == AS4 then Found(FromU32(c.data[0], c.data[1], c.data[2], c.data[3])) else PeekOptions(rest)
  {
    var b := OptionBytes(c) + rest;
    var o := b[2..2 + b[1]];
    assert o == [c.code, |c.data|] + c.data;
    assert b[2 + b[1]..] == rest;
    if c.code == AS4 {
      assert o[2..] == c.data;
    } else {
      assert o[2 + o[1]..] == [];
      assert PeekCaps(o) == PeekCaps([]);
    }
  }

  lemma {:induction false} PeekPast(cs: seq<Cap>, rest: seq<byte>)
    requires forall i :: 0 <= i < |cs| ==> |cs[i].data| < 254 && cs[i].code != AS4
    ensures PeekOptions(OptionsBytes(cs) + rest) == PeekOptions(rest)
    decreases |cs|
  {
    if cs == [] {
      assert OptionsBytes(cs) + rest == rest;
    } else {
      assert OptionsBytes(cs) + rest == OptionBytes(cs[0]) + (OptionsBytes(cs[1..]) + rest);
      PeekOne(cs[0], OptionsBytes(cs[1..]) + rest);
      PeekPast(cs[1..], rest);
    }
  }

  lemma {:induction false} MpCapsCodes(fs: seq<Family>, afc: set<Family>)
    ensures forall c :: c in MpCaps(fs, afc) ==> c.code == MP
  {
    if fs != [] { MpCapsCodes(fs[1..], afc); }
  }

  lemma FirstCapsBytes(a: Config)
    requires Legal(a)
    ensures OptionsBytes(FirstCaps(a)) ==
            OptionsBytes([Cap(REFRESH_OLD, []), Cap(REFRESH, [])]) + OptionBytes(Cap(AS4, U32(SpokenAs(a))))
  {
    hide OptionBytes, OptionsBytes;
    var as4 := Cap(AS4, U32(SpokenAs(a)));
    OptionsBytesConcat([Cap(REFRESH_OLD, []), Cap(REFRESH, [])], [as4]);
    OneOption(as4);
    assert FirstCaps(a) == [Cap(REFRESH_OLD, []), Cap(REFRESH, [])] + [as4];
  }

  lemma Assoc(a: seq<byte>, b: seq<byte>, c: seq<byte>, d: seq<byte>, e: seq<byte>)
    ensures a + b + c + d + e == a + (b + (c + d + e))
  {
  }

  /** The peek finds the AS number the sender speaks as. */
  lemma PeekFindsAs(a: Config)
    requires Legal(a) && a.sends
    ensures PeekOptions(Written(a)) == Found(SpokenAs(a)) && Peek(Written(a)) == SpokenAs(a)
  {
    hide PeekOptions, FirstCaps, OrfCaps, DynamicCaps, RestartCap, MpCaps, OtherCaps, OptionBytes, OptionsBytes;
    var mp, refresh := MpCaps(Families, a.afc), [Cap(REFRESH_OLD, []), Cap(REFRESH, [])];
    var as4 := Cap(AS4, U32(SpokenAs(a)));
    var orf, dynamic := OptionsBytes(OrfCaps(OrfFamilies, a.orf)), OptionsBytes(DynamicCaps(a));
    var last := OptionBytes(RestartCap(a));
    OptionsBytesConcat(mp, OtherCaps(a));
    OtherCapsBytes(a);
    FirstCapsBytes(a);
    Assoc(OptionsBytes(refresh), OptionBytes(as4), orf, dynamic, last);
    MpCapsCodes(Families, a.afc);
    PeekPast(mp, OptionsBytes(OtherCaps(a)));
    PeekPast(refresh, OptionBytes(as4) + (orf + dynamic + last));
    PeekOne(as4, orf + dynamic + last);
  }
}
