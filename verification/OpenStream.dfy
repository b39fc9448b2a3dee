/** bgp_open.c on its streams: options are written with lengths patched in
    afterwards, and parsed by moving the read cursor of the input. */
module OpenStream {
  import opened Lists
  import opened Wire
  import opened OpenCapability
  import opened OpenPeek

  // --------------------------------------------- one step of each parsing loop

  lemma CapsStep(d: seq<byte>, p: nat, end: nat, afc: set<Family>, n: Nego)
    requires p < end <= |d|
    ensures TakeCaps(d[p..end], afc, n) ==
            if end - p < 2 || p + 2 + d[p + 1] > end then Refuse(n) else
              var m := Take(Cap(d[p], d[p + 2..p + 2 + d[p + 1]]), afc, n);
              if m.Refuse? then m else TakeCaps(d[p + 2 + d[p + 1]..end], afc, m.n)
  {
    hide Take;
    var b := d[p..end];
    if end - p >= 2 && p + 2 + d[p + 1] <= end {
      var len: nat := d[p + 1];
      SliceOf(d, p, end, 2, 2 + len);
      SliceOf(d, p, end, 2 + len, end - p);
    }
  }

  lemma OptionsStep(d: seq<byte>, p: nat, length: int, afc: set<Family>, n: Nego)
    requires p <= |d| && length > 0
    ensures TakeOptions(d[p..], length, afc, n) ==
            if |d| - p < 2 || p + 2 + d[p + 1] > |d| || d[p] != OPT_CAP then Refuse(n) else
              var m := TakeCaps(d[p + 2..p + 2 + d[p + 1]], afc, n);
              if m.Refuse? then m else TakeOptions(d[p + 2 + d[p + 1]..], length - 2 - d[p + 1], afc, m.n)
  {
    hide TakeCaps;
    var b := d[p..];
    if |d| - p >= 2 && p + 2 + d[p + 1] <= |d| {
      assert b[1] == d[p + 1];
      assert b[2..2 + b[1]] == d[p + 2..p + 2 + d[p + 1]];
      assert b[2 + b[1]..] == d[p + 2 + d[p + 1]..];
    }
  }

  lemma PeekCapsStep(d: seq<byte>, p: nat, end: nat)
    requires p < end <= |d|
    ensures PeekCaps(d[p..end]) ==
            if end - p < 2 || p + 2 + d[p + 1] > end then Stopped
            else if d[p] == AS4 then Found(if d[p + 1] == 4 then FromU32(d[p + 2], d[p + 3], d[p + 4], d[p + 5]) else 0)
            else PeekCaps(d[p + 2 + d[p + 1]..end])
  {
    var b := d[p..end];
    if end - p >= 2 && p + 2 + d[p + 1] <= end {
      assert b[2 + b[1]..] == d[p + 2 + d[p + 1]..end];
    }
  }

  lemma PeekStep(d: seq<byte>, p: nat, end: nat)
    requires p < end <= |d|
    ensures PeekOptions(d[p..end]) ==
            if end - p < 2 || p + 2 + d[p + 1] > end then Stopped
            else if d[p] != OPT_CAP then PeekOptions(d[p + 2..end])
            else
              var r := PeekCaps(d[p + 2..p + 2 + d[p + 1]]);
              if r == Passed then PeekOptions(d[p + 2 + d[p + 1]..end]) else r
  {
    hide PeekCaps;
    var b := d[p..end];
    if end - p >= 2 && p + 2 + d[p + 1] <= end {
      SliceOf(d, p, end, 2, end - p);
      var len: nat := d[p + 1];
      SliceOf(d, p, end, 2, 2 + len);
      SliceOf(d, p, end, 2 + len, end - p);
    }
  }

  lemma OrfStep(d: seq<byte>, p: nat, end: nat, num: nat, f: Family, legacy: bool)
    requires num > 0 && p + 2 * num <= end <= |d|
    ensures OrfEntries(d[p..end], num, f, legacy) ==
            (if OrfKept(f) && d[p] == (if legacy then ORF_TYPE_OLD else ORF_TYPE)
             then OrfSides(f, legacy, d[p + 1]) else {})
            + OrfEntries(d[p + 2..end], num - 1, f, legacy)
  {
    hide OrfSides, OrfKept;
    SliceOf(d, p, end, 2, end - p);
  }

  function WithRestartFamily(afi: nat, safi: byte, flag: byte, afc: set<Family>, n: Nego): Nego
  {
    match FamilyOf(afi, safi)
    case None => n
    case Some(f) =>
      if f !in afc then n
      else n.(restart := n.restart + {f}, preserved := n.preserved + if flag >= 0x80 then {f} else {})
  }

  lemma RestartStep(d: seq<byte>, p: nat, end: nat, afc: set<Family>, n: Nego)
    requires p <= end <= |d|
    ensures TakeRestartFamilies(d[p..end], afc, n) ==
            if end - p < 4 then n
            else TakeRestartFamilies(d[p + 4..end], afc,
                WithRestartFamily(FromU16(d[p], d[p + 1]), d[p + 2], d[p + 3], afc, n))
  {
    if end - p >= 4 {
      var b := d[p..end];
      assert b[4..] == d[p + 4..end];
      assert b[0] == d[p] && b[1] == d[p + 1] && b[2] == d[p + 2] && b[3] == d[p + 3];
    }
  }

  lemma {:induction false} MpCapsMore(fs: seq<Family>, f: Family, afc: set<Family>)
    ensures MpCaps(fs + [f], afc) == MpCaps(fs, afc) + if f in afc then [MpCap(f)] else []
  {
    hide MpCap;
    var more := if f in afc then [MpCap(f)] else [];
    if fs == [] {
      assert (fs + [f])[1..] == [] && MpCaps([], afc) == [];
      assert more + [] == more;
    } else {
      var head := if fs[0] in afc then [MpCap(fs[0])] else [];
      assert (fs + [f])[1..] == fs[1..] + [f] && (fs + [f])[0] == fs[0];
      MpCapsMore(fs[1..], f, afc);
      assert head + (MpCaps(fs[1..], afc) + more) == head + MpCaps(fs[1..], afc) + more;
    }
  }

  lemma {:induction false} RestartFamiliesMore(fs: seq<Family>, f: Family, afc: set<Family>)
    ensures RestartFamilies(fs + [f], afc) ==
            RestartFamilies(fs, afc) + if f in afc then U16(AfiCode(f.afi)) + [SafiIndex(f.safi), 0] else []
  {
    if fs == [] {
      assert (fs + [f])[1..] == [];
    } else {
      assert (fs + [f])[1..] == fs[1..] + [f];
      RestartFamiliesMore(fs[1..], f, afc);
    }
  }

  // -------------------------------------------------------------------- writing

  method CapPut(s: Stream, code: byte, data: seq<byte>)
    requires s.Valid() && |data| < 254 && s.Writeable() >= 4 + |data|
    modifies s
    ensures s.Valid() && s.getp == old(s.getp) && s.data == old(s.data) + OptionBytes(Cap(code, data))
  {
    s.Put([OPT_CAP]);
    s.Put([|data| + 2]);
    s.Put([code]);
    s.Put([|data|]);
    assert s.data == old(s.data) + [OPT_CAP, |data| + 2, code, |data|];
    s.Put(data);
  }

  method MpCapsPut(s: Stream, c: Config)
    requires s.Valid() && s.Writeable() >= 64
    modifies s
    ensures s.Valid() && s.getp == old(s.getp) && |s.data| <= |old(s.data)| + 64
    ensures s.data == old(s.data) + OptionsBytes(MpCaps(Families, c.afc))
  {
    hide MpCaps, OptionsBytes, OptionBytes;
    var i := 0;
    NoMpCaps(c.afc);
    while i < |Families|
      invariant i <= |Families| && s.Valid() && s.getp == old(s.getp)
      invariant |s.data| <= |old(s.data)| + 8 * i
      invariant s.data == old(s.data) + OptionsBytes(MpCaps(Families[..i], c.afc))
    {
      var f := Families[i];
      ghost var before := MpCaps(Families[..i], c.afc);
      MpCapsMore(Families[..i], f, c.afc);
      assert Families[..i + 1] == Families[..i] + [f];
      if f in c.afc {
        CapPut(s, MP, U16(AfiCode(f.afi)) + [0, SafiCode(f.safi)]);
        OptionsBytesConcat(before, [MpCap(f)]);
        OneOption(MpCap(f));
      } else {
        assert before + [] == before;
      }
      i := i + 1;
    }
    assert Families[..i] == Families;
  }

  lemma NoMpCaps(afc: set<Family>)
    ensures OptionsBytes([]) == [] && MpCaps([], afc) == []
  {
  }

  /** The graceful restart capability: both lengths are patched in at the end. */
  method RestartPut(s: Stream, c: Config)
    requires s.Valid() && Legal(c) && s.Writeable() >= 38
    modifies s
    ensures s.Valid() && s.getp == old(s.getp) && s.data == old(s.data) + OptionBytes(RestartCap(c))
  {
    hide RestartFamilies, RestartTimeWord;
    ghost var pre := s.data;
    var capp, rcapp := RestartHeaderPut(s, RestartTimeWord(c));
    ghost var data := U16(RestartTimeWord(c));
    if c.graceful {
      RestartFamiliesPut(s, c);
      data := data + RestartFamilies(Families, c.afc);
    }
    assert data == RestartCap(c).data;
    assert s.data == pre + ([OPT_CAP, 0, RESTART, 0] + data);
    Patched(pre, data);
    s.PutcAt(rcapp, (|s.data| - rcapp - 1) % 256);
    s.PutcAt(capp, (|s.data| - capp - 1) % 256);
  }

  method RestartHeaderPut(s: Stream, time: nat) returns (capp: nat, rcapp: nat)
    requires s.Valid() && time < 0x1_0000 && s.Writeable() >= 6
    modifies s
    ensures s.Valid() && s.getp == old(s.getp) && s.data == old(s.data) + ([OPT_CAP, 0, RESTART, 0] + U16(time))
    ensures capp == |old(s.data)| + 1 && rcapp == |old(s.data)| + 3
  {
    s.Put([OPT_CAP]);
    capp := |s.data|;
    s.Put([0]);
    s.Put([RESTART]);
    rcapp := |s.data|;
    s.Put([0]);
    s.Put(U16(time));
  }

  lemma Patched(pre: seq<byte>, data: seq<byte>)
    requires |data| < 254
    ensures (pre + ([OPT_CAP, 0, RESTART, 0] + data))[|pre| + 3 := |data|][|pre| + 1 := |data| + 2] ==
            pre + OptionBytes(Cap(RESTART, data))
  {
  }

  method RestartFamiliesPut(s: Stream, c: Config)
    requires s.Valid() && s.Writeable() >= 32
    modifies s
    ensures s.Valid() && s.getp == old(s.getp) && s.data == old(s.data) + RestartFamilies(Families, c.afc)
  {
    hide RestartFamilies;
    var i := 0;
    NoRestartFamilies(c.afc);
    while i < |Families|
      invariant i <= |Families| && s.Valid() && s.getp == old(s.getp) && |s.data| <= |old(s.data)| + 4 * i
      invariant s.data == old(s.data) + RestartFamilies(Families[..i], c.afc)
    {
      var f := Families[i];
      RestartFamiliesMore(Families[..i], f, c.afc);
      assert Families[..i + 1] == Families[..i] + [f];
      if f in c.afc { RestartFamilyPut(s, f); }
      i := i + 1;
    }
    assert Families[..i] == Families;
  }

  method RestartFamilyPut(s: Stream, f: Family)
    requires s.Valid() && s.Writeable() >= 4
    modifies s
    ensures s.Valid() && s.getp == old(s.getp) && s.data == old(s.data) + (U16(AfiCode(f.afi)) + [SafiIndex(f.safi), 0])
  {
    s.Put(U16(AfiCode(f.afi)));
    s.Put([SafiIndex(f.safi)]);
    s.Put([0]);
  }

  lemma NoRestartFamilies(afc: set<Family>)
    ensures RestartFamilies([], afc) == []
  {
  }

  /** Write one more capability after those already written. */
  method CapAppend(s: Stream, ghost pre: seq<byte>, ghost cs: seq<Cap>, code: byte, data: seq<byte>)
      returns (ghost r: seq<Cap>)
    requires s.Valid() && |data| < 254 && s.Writeable() >= 4 + |data|
    requires forall i :: 0 <= i < |cs| ==> |cs[i].data| < 254
    requires s.data == pre + OptionsBytes(cs)
    modifies s
    ensures s.Valid() && s.getp == old(s.getp) && |s.data| == |old(s.data)| + 4 + |data|
    ensures r == cs + [Cap(code, data)] && s.data == pre + OptionsBytes(r)
  {
    hide OptionsBytes, OptionBytes;
    r := cs + [Cap(code, data)];
    CapPut(s, code, data);
    OptionsBytesConcat(cs, [Cap(code, data)]);
    OneOption(Cap(code, data));
  }

  /** Route refresh, old and new, and the 4-octet AS number. */
  method FirstCapsPut(s: Stream, as4: nat) returns (ghost cs: seq<Cap>)
    requires s.Valid() && as4 < 0x1_0000_0000 && s.Writeable() >= 16
    modifies s
    ensures s.Valid() && s.getp == old(s.getp) && |s.data| == |old(s.data)| + 16
    ensures cs == [Cap(REFRESH_OLD, []), Cap(REFRESH, []), Cap(AS4, U32(as4))]
    ensures s.data == old(s.data) + OptionsBytes(cs)
  {
    hide OptionsBytes, OptionBytes;
    ghost var pre := s.data;
    NoMpCaps({});
    cs := CapAppend(s, pre, [], REFRESH_OLD, []);
    cs := CapAppend(s, pre, cs, REFRESH, []);
    cs := CapAppend(s, pre, cs, AS4, U32(as4));
  }

  lemma {:induction false} OrfCapsMore(fs: seq<Family>, f: Family, orf: map<Family, OrfMode>)
    ensures OrfCaps(fs + [f], orf) ==
            OrfCaps(fs, orf) + if f in orf then [OrfCap(f, orf[f], true), OrfCap(f, orf[f], false)] else []
  {
    hide OrfCap;
    var more := if f in orf then [OrfCap(f, orf[f], true), OrfCap(f, orf[f], false)] else [];
    if fs == [] {
      assert (fs + [f])[1..] == [] && OrfCaps([], orf) == [];
      assert more + [] == more;
    } else {
      var head := if fs[0] in orf then [OrfCap(fs[0], orf[fs[0]], true), OrfCap(fs[0], orf[fs[0]], false)] else [];
      assert (fs + [f])[1..] == fs[1..] + [f] && (fs + [f])[0] == fs[0];
      OrfCapsMore(fs[1..], f, orf);
      assert head + (OrfCaps(fs[1..], orf) + more) == head + OrfCaps(fs[1..], orf) + more;
    }
  }

  /** bgp_open_capability_orf: option, capability and entry lengths and the
      number of types are patched in once the entry is written. */
  method OrfPut(s: Stream, f: Family, m: OrfMode, legacy: bool)
    requires s.Valid() && s.Writeable() >= 11
    modifies s
    ensures s.Valid() && s.getp == old(s.getp) && s.data == old(s.data) + OptionBytes(OrfCap(f, m, legacy))
  {
    hide U16, OptionBytes, OrfCap, SafiCode, OrfModeCode;
    ghost var pre := s.data;
    var capp, orfp := OrfHeaderPut(s, if legacy then ORF_OLD else ORF);
    var numberp := OrfEntryPut(s, f, m, legacy);
    s.PutcAt(numberp, 1);
    s.PutcAt(orfp, (|s.data| - orfp - 1) % 256);
    s.PutcAt(capp, (|s.data| - capp - 1) % 256);
    OrfPatched(pre, f, m, legacy);
  }

  method OrfHeaderPut(s: Stream, code: byte) returns (capp: nat, orfp: nat)
    requires s.Valid() && s.Writeable() >= 4
    modifies s
    ensures s.Valid() && s.getp == old(s.getp) && s.data == old(s.data) + [OPT_CAP, 0, code, 0]
    ensures capp == |old(s.data)| + 1 && orfp == |old(s.data)| + 3
  {
    s.Put([OPT_CAP]);
    capp := |s.data|;
    s.Put([0]);
    s.Put([code]);
    orfp := |s.data|;
    s.Put([0]);
  }

  method OrfEntryPut(s: Stream, f: Family, m: OrfMode, legacy: bool) returns (numberp: nat)
    requires s.Valid() && s.Writeable() >= 7
    modifies s
    ensures s.Valid() && s.getp == old(s.getp) && numberp == |old(s.data)| + 4
    ensures s.data == old(s.data) + (U16(AfiCode(f.afi)) + [0, SafiCode(f.safi), 0]
                                     + [if legacy then ORF_TYPE_OLD else ORF_TYPE, OrfModeCode(m)])
  {
    s.Put(U16(AfiCode(f.afi)));
    s.Put([0]);
    s.Put([SafiCode(f.safi)]);
    numberp := |s.data|;
    s.Put([0]);
    assert s.data == old(s.data) + (U16(AfiCode(f.afi)) + [0, SafiCode(f.safi), 0]);
    s.Put([if legacy then ORF_TYPE_OLD else ORF_TYPE]);
    s.Put([OrfModeCode(m)]);
  }

  lemma OrfPatched(pre: seq<byte>, f: Family, m: OrfMode, legacy: bool)
    ensures var code := if legacy then ORF_OLD else ORF;
            var entry := U16(AfiCode(f.afi)) + [0, SafiCode(f.safi), 0]
                         + [if legacy then ORF_TYPE_OLD else ORF_TYPE, OrfModeCode(m)];
            (pre + [OPT_CAP, 0, code, 0] + entry)[|pre| + 8 := 1][|pre| + 3 := 7][|pre| + 1 := 9]
            == pre + OptionBytes(OrfCap(f, m, legacy))
  {
  }

  /** The loop over the families with route filtering. */
  method OrfCapsPut(s: Stream, c: Config)
    requires s.Valid() && s.Writeable() >= 88
    modifies s
    ensures s.Valid() && s.getp == old(s.getp) && |s.data| <= |old(s.data)| + 88
    ensures s.data == old(s.data) + OptionsBytes(OrfCaps(OrfFamilies, c.orf))
  {
    hide OrfCaps, OptionsBytes, OptionBytes, OrfCap;
    var i := 0;
    NoOrfCaps(c.orf);
    while i < |OrfFamilies|
      invariant i <= |OrfFamilies| && s.Valid() && s.getp == old(s.getp)
      invariant |s.data| <= |old(s.data)| + 22 * i
      invariant s.data == old(s.data) + OptionsBytes(OrfCaps(OrfFamilies[..i], c.orf))
    {
      var f := OrfFamilies[i];
      ghost var before := OrfCaps(OrfFamilies[..i], c.orf);
      OrfCapsMore(OrfFamilies[..i], f, c.orf);
      assert OrfFamilies[..i + 1] == OrfFamilies[..i] + [f];
      if f in c.orf {
        OrfPut(s, f, c.orf[f], true);
        OrfPut(s, f, c.orf[f], false);
        TwoOptions(before, OrfCap(f, c.orf[f], true), OrfCap(f, c.orf[f], false));
      } else {
        assert before + [] == before;
      }
      i := i + 1;
    }
    assert OrfFamilies[..i] == OrfFamilies;
  }

  lemma NoOrfCaps(orf: map<Family, OrfMode>)
    ensures OptionsBytes([]) == [] && OrfCaps([], orf) == []
  {
  }

  lemma TwoOptions(cs: seq<Cap>, c: Cap, d: Cap)
    requires (forall i :: 0 <= i < |cs| ==> |cs[i].data| < 254) && |c.data| < 254 && |d.data| < 254
    ensures OptionsBytes(cs + [c, d]) == OptionsBytes(cs) + OptionBytes(c) + OptionBytes(d)
  {
    hide OptionsBytes, OptionBytes;
    OptionsBytesConcat(cs, [c, d]);
    OptionsBytesConcat([c], [d]);
    OneOption(c);
    OneOption(d);
    assert [c, d] == [c] + [d];
  }

  method OtherCapsPut(s: Stream, c: Config)
    requires s.Valid() && Legal(c) && s.Writeable() >= 146
    modifies s
    ensures s.Valid() && s.getp == old(s.getp) && s.data == old(s.data) + OptionsBytes(OtherCaps(c))
  {
    hide OptionsBytes, OptionBytes, RestartCap, OrfCaps, DynamicCaps, U32;
    ghost var pre := s.data;
    ghost var cs := FirstCapsPut(s, SpokenAs(c));
    assert cs == FirstCaps(c);
    OrfCapsPut(s, c);
    DynamicPut(s, c);
    RestartPut(s, c);
    OtherCapsBytes(c);
  }

  method DynamicPut(s: Stream, c: Config)
    requires s.Valid() && s.Writeable() >= 4
    modifies s
    ensures s.Valid() && s.getp == old(s.getp) && |s.data| <= |old(s.data)| + 4
    ensures s.data == old(s.data) + OptionsBytes(DynamicCaps(c))
  {
    if c.dynamic {
      OneOption(Cap(DYNAMIC, []));
      CapPut(s, DYNAMIC, []);
    }
  }

  /** bgp_open_capability: the option area, preceded by its length. */
  method OpenPut(s: Stream, c: Config)
    requires s.Valid() && Legal(c) && s.Writeable() >= 211
    modifies s
    ensures s.Valid() && s.getp == old(s.getp)
    ensures |Written(c)| < 256 && s.data == old(s.data) + [|Written(c)|] + Written(c)
  {
    hide OptionsBytes, OptionBytes, MpCaps, OtherCaps, Legal;
    WrittenFits(c);
    var cp := |s.data|;
    s.Put([0]);
    if !c.sends { return; }
    MpCapsPut(s, c);
    OtherCapsPut(s, c);
    OptionsBytesConcat(MpCaps(Families, c.afc), OtherCaps(c));
    assert s.data == old(s.data) + [0] + Written(c);
    s.PutcAt(cp, (|s.data| - cp - 1) % 256);
  }

  // -------------------------------------------------------------------- parsing

  class PeerInput {
    const config: Config
    const input: Stream
    var n: Nego

    constructor (c: Config, s: Stream)
      ensures config == c && input == s && n == Fresh
    {
      config, input, n := c, s, Fresh;
    }

    method TakeMpData(length: nat)
      requires input.Valid() && 4 <= length < 256 && input.Readable() >= length
      modifies this, input
      ensures input.Valid() && input.data == old(input.data)
      ensures n == TakeMp(old(input.data[input.getp..input.getp + length]), config.afc, old(n))
    {
      ghost var data := input.data[input.getp..input.getp + length];
      var start := input.getp;
      var afi := input.Getw();
      var reserved := input.Getc();
      var safi := input.Getc();
      assert afi == FromU16(data[0], data[1]) && safi == data[3];
      n := n.(mp := true);
      match FamilyOf(afi, safi) {
        case None =>
          n := Unsupported(n, MP, input.data[start..start + length]);
        case Some(f) =>
          n := n.(recv := n.recv + {f});
          if f in config.afc {
            n := n.(nego := n.nego + {f});
          } else {
            n := Unsupported(n, MP, input.data[start..start + length]);
          }
      }
    }

    method TakeRestartData(length: nat)
      requires input.Valid() && 2 <= length && input.Readable() >= length
      modifies this, input
      ensures input.Valid() && input.data == old(input.data)
      ensures n == TakeRestart(old(input.data[input.getp..input.getp + length]), config.afc, old(n))
    {
      hide TakeRestartFamilies, WithRestartFamily;
      var end := input.getp + length;
      ghost var data := input.data[input.getp..end];
      n := Raised(n, RestartRcv);
      var w := input.Getw();
      assert w == FromU16(data[0], data[1]);
      if w >= 0x8000 { n := Raised(n, RestartBitRcv); }
      n := n.(restartTime := w % 0x1000);
      ghost var goal := TakeRestartFamilies(input.data[input.getp..end], config.afc, n);
      assert data[2..] == input.data[input.getp..end];
      while input.getp + 4 <= end
        invariant input.Valid() && input.data == old(input.data) && input.getp <= end <= |input.data|
        invariant TakeRestartFamilies(input.data[input.getp..end], config.afc, n) == goal
        decreases end - input.getp
      {
        RestartStep(input.data, input.getp, end, config.afc, n);
        var afi := input.Getw();
        var safi := input.Getc();
        var flag := input.Getc();
        n := WithRestartFamily(afi, safi, flag, config.afc, n);
      }
      RestartStep(input.data, input.getp, end, config.afc, n);
    }

    /** bgp_capability_orf_entry. */
    method TakeOrfData(length: nat, legacy: bool) returns (ok: bool)
      requires input.Valid() && 5 <= length && input.Readable() >= length
      modifies this, input
      ensures input.Valid() && input.data == old(input.data)
      ensures var r := TakeOrf(old(input.data[input.getp..input.getp + length]), legacy, old(n));
              ok == r.Go? && n == r.n
    {
      hide OrfEntries, OrfSides, OrfKept;
      var start := input.getp;
      var end := start + length;
      ghost var data := input.data[start..end];
      var afi := input.Getw();
      var reserved := input.Getc();
      var safi := input.Getc();
      var num := input.Getc();
      assert afi == FromU16(data[0], data[1]) && safi == data[3] && num == data[4];
      var family := FamilyOf(afi, safi);
      if family == None { return true; }
      var f := family.value;
      if 5 + 2 * num > length { return false; }
      SliceOf(input.data, start, end, 5, length);
      TakeOrfTypes(num, f, legacy, end);
      return true;
    }

    /** The loop over the filter types of an entry. */
    method TakeOrfTypes(num: nat, f: Family, legacy: bool, ghost end: nat)
      requires input.Valid() && input.getp + 2 * num <= end <= |input.data|
      modifies this, input
      ensures input.Valid() && input.data == old(input.data)
      ensures n == old(n).(orf := old(n).orf + OrfEntries(old(input.data[input.getp..end]), num, f, legacy))
    {
      hide OrfEntries, OrfSides, OrfKept;
      ghost var start := input.getp;
      ghost var goal := n.orf + OrfEntries(input.data[start..end], num, f, legacy);
      for i := 0 to num
        invariant input.Valid() && input.data == old(input.data) && input.getp == start + 2 * i
        invariant n == old(n).(orf := n.orf)
        invariant n.orf + OrfEntries(input.data[input.getp..end], num - i, f, legacy) == goal
      {
        OrfStep(input.data, input.getp, end, num - i, f, legacy);
        ghost var rest := OrfEntries(input.data[input.getp + 2..end], num - i - 1, f, legacy);
        var kind := input.Getc();
        var mode := input.Getc();
        var sides := if OrfKept(f) && kind == (if legacy then ORF_TYPE_OLD else ORF_TYPE)
                     then OrfSides(f, legacy, mode) else {};
        assert n.orf + (sides + rest) == n.orf + sides + rest;
        n := n.(orf := n.orf + sides);
      }
      NoOrfEntries(input.data[input.getp..end], f, legacy);
    }

    /** The switch on the capability code. */
    method TakeCapability(code: byte, length: nat) returns (ok: bool)
      requires input.Valid() && length < 256 && input.Readable() >= length
      modifies this, input
      ensures input.Valid() && input.data == old(input.data)
      ensures var r := Take(Cap(code, old(input.data[input.getp..input.getp + length])), config.afc, old(n));
              ok == r.Go? && n == r.n
    {
      hide TakeMp, TakeRestart, TakeOrf;
      var start := input.getp;
      ghost var data := input.data[start..start + length];
      if !SizeOk(code, length) { return false; }
      ok := true;
      if code == MP {
        TakeMpData(length);
      } else if code == REFRESH_OLD {
        n := Raised(n, RefreshOldRcv);
      } else if code == REFRESH {
        n := Raised(n, RefreshNewRcv);
      } else if code == ORF || code == ORF_OLD {
        ok := TakeOrfData(length, code == ORF_OLD);
      } else if code == RESTART {
        TakeRestartData(length);
      } else if code == DYNAMIC {
        n := Raised(n, DynamicRcv);
      } else if code == AS4 {
        n := Raised(n, As4Rcv);
        if length != 4 { return false; }
        var as4 := input.Getl();
        assert as4 == FromU32(data[0], data[1], data[2], data[3]);
        ok := as4 != 0;
      } else if code <= 128 {
        n := Unsupported(n, code, input.data[start..start + length]);
      }
    }

    /** bgp_capability_parse. */
    method CapabilityParse(length: nat) returns (ok: bool)
      requires input.Valid() && input.Readable() >= length
      modifies this, input
      ensures input.Valid() && input.data == old(input.data)
      ensures var r := TakeCaps(old(input.data[input.getp..input.getp + length]), config.afc, old(n));
              ok == r.Go? && n == r.n
      ensures ok ==> input.getp == old(input.getp) + length
    {
      hide TakeCaps, Take;
      var end := input.getp + length;
      ghost var goal := TakeCaps(input.data[input.getp..end], config.afc, n);
      while input.getp < end
        invariant input.Valid() && input.data == old(input.data) && input.getp <= end <= |input.data|
        invariant TakeCaps(input.data[input.getp..end], config.afc, n) == goal
        decreases end - input.getp
      {
        CapsStep(input.data, input.getp, end, config.afc, n);
        if input.getp + 2 > end { return false; }
        var code := input.Getc();
        var len := input.Getc();
        var start := input.getp;
        if start + len > end { return false; }
        ok := TakeCapability(code, len);
        if !ok { return; }
        input.getp := start + len;
      }
      assert input.data[end..end] == [];
      NoCaps(config.afc, n);
      return true;
    }

    /** bgp_open_option_parse. */
    method OptionParse(length: byte) returns (ok: bool)
      requires input.Valid()
      modifies this, input
      ensures input.Valid() && input.data == old(input.data)
      ensures var r := ParseFrom(old(input.data[input.getp..]), length, config, old(n)); ok == r.Go? && n == r.n
    {
      hide TakeOptions, TakeCaps;
      var end := input.getp + length;
      ghost var goal := TakeOptions(input.data[input.getp..], length, config.afc, n);
      while input.getp < end
        invariant input.Valid() && input.data == old(input.data)
        invariant TakeOptions(input.data[input.getp..], end - input.getp, config.afc, n) == goal
        decreases end - input.getp
      {
        OptionsStep(input.data, input.getp, end - input.getp, config.afc, n);
        if input.Readable() < 2 { return false; }
        var opt := input.Getc();
        var len := input.Getc();
        if input.Readable() < len { return false; }
        if opt != OPT_CAP { return false; }
        ok := CapabilityParse(len);
        if !ok { return; }
      }
      NoOptions(input.data[input.getp..], end - input.getp, config.afc, n);
      ok := Acceptable(config, n);
    }

    /** peek_for_as4_capability: the cursor is put back, and meeting the
        capability already marks the peer as sending it. */
    method PeekAs4(length: byte) returns (as4: nat)
      requires input.Valid()
      modifies this, input
      ensures input.Valid() && input.data == old(input.data) && input.getp == old(input.getp)
      ensures input.Readable() < length ==> as4 == 0 && n == old(n)
      ensures input.Readable() >= length ==>
                var b := input.data[input.getp..input.getp + length];
                as4 == Peek(b) && n == if PeekOptions(b).Found? then Raised(old(n), As4Rcv) else old(n)
    {
      hide PeekOptions, PeekCaps;
      if input.Readable() < length { return 0; }
      var start := input.getp;
      var end := start + length;
      ghost var goal := PeekOptions(input.data[start..end]);
      as4 := 0;
      while input.getp < end
        invariant input.Valid() && input.data == old(input.data) && input.getp <= end <= |input.data|
        invariant PeekOptions(input.data[input.getp..end]) == goal && as4 == 0 && n == old(n)
        decreases end - input.getp
      {
        PeekStep(input.data, input.getp, end);
        if input.getp + 2 > end { input.getp := start; return; }
        var opt := input.Getc();
        var len := input.Getc();
        if input.getp + len > end { input.getp := start; return; }
        if opt == OPT_CAP {
          var r := PeekOption(input.getp + len);
          if r != Passed {
            input.getp := start;
            if r.Found? {
              n := Raised(n, As4Rcv);
              as4 := r.as4;
            }
            return;
          }
        }
      }
      assert input.data[end..end] == [];
      NoPeekOptions();
      input.getp := start;
    }

    /** The inner loop of the peek. */
    method PeekOption(end: nat) returns (r: Peeked)
      requires input.Valid() && input.getp <= end <= |input.data|
      modifies input
      ensures input.Valid() && input.data == old(input.data)
      ensures r == PeekCaps(old(input.data[input.getp..end])) && (r == Passed ==> input.getp == end)
    {
      hide PeekCaps;
      ghost var goal := PeekCaps(input.data[input.getp..end]);
      while input.getp < end
        invariant input.Valid() && input.data == old(input.data) && input.getp <= end
        invariant PeekCaps(input.data[input.getp..end]) == goal
        decreases end - input.getp
      {
        PeekCapsStep(input.data, input.getp, end);
        if input.getp + 2 > end { return Stopped; }
        var code := input.Getc();
        var len := input.Getc();
        if input.getp + len > end { return Stopped; }
        if code == AS4 {
          if len != 4 { return Found(0); }
          var as4 := input.Getl();
          return Found(as4);
        }
        input.getp := input.getp + len;
      }
      assert input.data[end..end] == [];
      NoPeekCaps();
      return Passed;
    }
  }

  lemma NoOrfEntries(b: seq<byte>, f: Family, legacy: bool)
    ensures OrfEntries(b, 0, f, legacy) == {}
  {
  }

  lemma NoPeekOptions()
    ensures PeekOptions([]) == Passed
  {
  }

  lemma NoCaps(afc: set<Family>, n: Nego)
    ensures TakeCaps([], afc, n) == Go(n)
  {
  }

  lemma NoOptions(b: seq<byte>, length: int, afc: set<Family>, n: Nego)
    requires length <= 0
    ensures TakeOptions(b, length, afc, n) == Go(n)
  {
  }

  lemma NoPeekCaps()
    ensures PeekCaps([]) == Passed
  {
  }
}
