/** The capabilities of an OPEN message: what is written, what a parser makes of
    any octets, and what two speakers negotiate (bgp_open.c). */
module OpenCapability {
  import opened Lists
  import opened Wire

  datatype Afi = IP | IP6
  datatype Safi = Unicast | Multicast | MplsVpn | Encap
  datatype Family = Family(afi: Afi, safi: Safi)

  const Families: seq<Family> := [
    Family(IP, Unicast), Family(IP, Multicast), Family(IP, MplsVpn), Family(IP, Encap),
    Family(IP6, Unicast), Family(IP6, Multicast), Family(IP6, MplsVpn), Family(IP6, Encap)]

  function AfiCode(a: Afi): nat { match a case IP => 1 case IP6 => 2 }

  /** The array index of a SAFI; MPLS VPN has another code on the wire. */
  function SafiIndex(s: Safi): byte
  {
    match s case Unicast => 1 case Multicast => 2 case MplsVpn => 4 case Encap => 7
  }

  function SafiCode(s: Safi): byte { if s == MplsVpn then 128 else SafiIndex(s) }

  /** bgp_afi_safi_valid_indices. */
  function FamilyOf(afi: nat, safi: byte): Option<Family>
  {
    if afi != 1 && afi != 2 then None else
      var a := if afi == 1 then IP else IP6;
      if safi == 1 then Some(Family(a, Unicast))
      else if safi == 2 then Some(Family(a, Multicast))
      else if safi == 4 || safi == 128 then Some(Family(a, MplsVpn))
      else if safi == 7 then Some(Family(a, Encap))
      else None
  }

  lemma FamilyRoundTrip(f: Family)
    ensures FamilyOf(AfiCode(f.afi), SafiCode(f.safi)) == Some(f)
    ensures FamilyOf(AfiCode(f.afi), SafiIndex(f.safi)) == Some(f)
    ensures f in Families
  {
    var i := (if f.afi == IP then 0 else 4) +
        match f.safi case Unicast => 0 case Multicast => 1 case MplsVpn => 2 case Encap => 3;
    assert Families[i] == f;
  }

  /** Outbound route filtering: the side of it a speaker wants. */
  datatype OrfMode = Receives | Sends | Both

  function OrfModeCode(m: OrfMode): byte { match m case Receives => 1 case Sends => 2 case Both => 3 }

  /** The families route filtering can be configured for. */
  const OrfFamilies: seq<Family> := [
    Family(IP, Unicast), Family(IP, Multicast), Family(IP6, Unicast), Family(IP6, Multicast)]

  /** How a speaker is configured for one peer. */
  datatype Config = Config(
    afc: set<Family>,
    orf: map<Family, OrfMode>,
    sends: bool,            // capabilities are sent at all
    dynamic: bool, graceful: bool, startup: bool, strict: bool,
    localAs: nat, changeLocalAs: nat, restartTime: nat)

  predicate Legal(c: Config)
  {
    0 < c.localAs < 0x1_0000_0000 && c.changeLocalAs < 0x1_0000_0000 && c.restartTime < 0x1000
  }

  function SpokenAs(c: Config): nat { if c.changeLocalAs != 0 then c.changeLocalAs else c.localAs }

  // ------------------------------------------------------------------ writing

  const MP: byte := 1
  const REFRESH: byte := 2
  const ORF: byte := 3
  const RESTART: byte := 64
  const AS4: byte := 65
  const DYNAMIC: byte := 66
  const REFRESH_OLD: byte := 128
  const ORF_OLD: byte := 130
  const OPT_CAP: byte := 2
  const ORF_TYPE: byte := 64
  const ORF_TYPE_OLD: byte := 128

  datatype Cap = Cap(code: byte, data: seq<byte>)

  function MpCap(f: Family): (c: Cap)
    ensures |c.data| == 4
  {
    Cap(MP, U16(AfiCode(f.afi)) + [0, SafiCode(f.safi)])
  }

  function MpCaps(fs: seq<Family>, afc: set<Family>): (cs: seq<Cap>)
    ensures |cs| <= |fs| && forall c :: c in cs ==> |c.data| == 4
  {
    if fs == [] then []
    else (if fs[0] in afc then [MpCap(fs[0])] else []) + MpCaps(fs[1..], afc)
  }

  /** The address families of a graceful restart capability. */
  function RestartFamilies(fs: seq<Family>, afc: set<Family>): (b: seq<byte>)
    ensures |b| <= 4 * |fs|
  {
    if fs == [] then []
    else (if fs[0] in afc then U16(AfiCode(fs[0].afi)) + [SafiIndex(fs[0].safi), 0] else [])
         + RestartFamilies(fs[1..], afc)
  }

  function RestartTimeWord(c: Config): (w: nat)
    requires Legal(c)
    ensures w < 0x1_0000
  {
    if c.startup then c.restartTime + 0x8000 else c.restartTime
  }

  function RestartCap(c: Config): (r: Cap)
    requires Legal(c)
    ensures 2 <= |r.data| <= 34
  {
    Cap(RESTART, U16(RestartTimeWord(c)) + if c.graceful then RestartFamilies(Families, c.afc) else [])
  }

  /** bgp_open_capability_orf: one entry with one filter type. */
  function OrfCap(f: Family, m: OrfMode, legacy: bool): (c: Cap)
    ensures |c.data| == 7
  {
    Cap(if legacy then ORF_OLD else ORF,
        U16(AfiCode(f.afi)) + [0, SafiCode(f.safi), 1, if legacy then ORF_TYPE_OLD else ORF_TYPE, OrfModeCode(m)])
  }

  function OrfCaps(fs: seq<Family>, orf: map<Family, OrfMode>): (cs: seq<Cap>)
    ensures |cs| <= 2 * |fs| && forall i :: 0 <= i < |cs| ==> |cs[i].data| == 7
  {
    if fs == [] then []
    else (if fs[0] in orf then [OrfCap(fs[0], orf[fs[0]], true), OrfCap(fs[0], orf[fs[0]], false)] else [])
         + OrfCaps(fs[1..], orf)
  }

  function FirstCaps(c: Config): (cs: seq<Cap>)
    requires Legal(c)
    ensures |cs| == 3 && forall i :: 0 <= i < |cs| ==> |cs[i].data| <= 4
  {
    [Cap(REFRESH_OLD, []), Cap(REFRESH, []), Cap(AS4, U32(SpokenAs(c)))]
  }

  function DynamicCaps(c: Config): (cs: seq<Cap>)
    ensures |cs| <= 1 && forall i :: 0 <= i < |cs| ==> |cs[i].data| == 0
  {
    if c.dynamic then [Cap(DYNAMIC, [])] else []
  }

  /** Everything after the multiprotocol capabilities. */
  function OtherCaps(c: Config): (cs: seq<Cap>)
    requires Legal(c)
    ensures forall i :: 0 <= i < |cs| ==> |cs[i].data| <= 34
  {
    FirstCaps(c) + OrfCaps(OrfFamilies, c.orf) + DynamicCaps(c) + [RestartCap(c)]
  }

  function Caps(c: Config): (cs: seq<Cap>)
    requires Legal(c)
    ensures forall i :: 0 <= i < |cs| ==> |cs[i].data| <= 34
  {
    MpCaps(Families, c.afc) + OtherCaps(c)
  }

  /** One option parameter holding one capability. */
  function OptionBytes(c: Cap): (b: seq<byte>)
    requires |c.data| < 254
    ensures |b| == 4 + |c.data|
  {
    [OPT_CAP, |c.data| + 2, c.code, |c.data|] + c.data
  }

  function OptionsBytes(cs: seq<Cap>): (b: seq<byte>)
    requires forall i :: 0 <= i < |cs| ==> |cs[i].data| < 254
  {
    if cs == [] then [] else OptionBytes(cs[0]) + OptionsBytes(cs[1..])
  }

  lemma {:induction false} OptionsBytesConcat(a: seq<Cap>, b: seq<Cap>)
    requires forall i :: 0 <= i < |a| ==> |a[i].data| < 254
    requires forall i :: 0 <= i < |b| ==> |b[i].data| < 254
    ensures OptionsBytes(a + b) == OptionsBytes(a) + OptionsBytes(b)
  {
    if a == [] {
      assert a + b == b;
    } else {
      assert (a + b)[1..] == a[1..] + b;
      OptionsBytesConcat(a[1..], b);
    }
  }

  lemma {:induction false} OptionsBytesLength(cs: seq<Cap>, each: nat)
    requires each < 254 && forall i :: 0 <= i < |cs| ==> |cs[i].data| <= each
    ensures |OptionsBytes(cs)| <= |cs| * (4 + each)
  {
    if cs != [] { OptionsBytesLength(cs[1..], each); }
  }

  function Written(c: Config): seq<byte>
    requires Legal(c)
  {
    if c.sends then OptionsBytes(Caps(c)) else []
  }

  lemma OneOption(c: Cap)
    requires |c.data| < 254
    ensures OptionsBytes([c]) == OptionBytes(c)
  {
    assert OptionsBytes([c]) == OptionBytes(c) + OptionsBytes([]);
  }

  lemma OtherCapsBytes(c: Config)
    requires Legal(c)
    ensures OptionsBytes(OtherCaps(c)) ==
            OptionsBytes(FirstCaps(c)) + OptionsBytes(OrfCaps(OrfFamilies, c.orf)) + OptionsBytes(DynamicCaps(c))
            + OptionBytes(RestartCap(c))
  {
    hide FirstCaps, OrfCaps, DynamicCaps, RestartCap, OptionsBytes, OptionBytes;
    var first, orf, dynamic, restart := FirstCaps(c), OrfCaps(OrfFamilies, c.orf), DynamicCaps(c), [RestartCap(c)];
    OptionsBytesConcat(first, orf);
    OptionsBytesConcat(first + orf, dynamic);
    OptionsBytesConcat(first + orf + dynamic, restart);
    OneOption(RestartCap(c));
  }

  /** Every length octet fits, that of the whole option area included: at most
      218 octets, route filtering in every family it can be configured for. */
  lemma WrittenFits(c: Config)
    requires Legal(c)
    ensures |Written(c)| <= 218
  {
    hide FirstCaps, OrfCaps, DynamicCaps, RestartCap, OtherCaps, OptionBytes, OptionsBytes, MpCaps;
    var mp := MpCaps(Families, c.afc);
    OptionsBytesConcat(mp, OtherCaps(c));
    OtherCapsBytes(c);
    OptionsBytesLength(mp, 4);
    OptionsBytesLength(FirstCaps(c), 4);
    OptionsBytesLength(OrfCaps(OrfFamilies, c.orf), 7);
    OptionsBytesLength(DynamicCaps(c), 0);
  }

  // ------------------------------------------------------------------ parsing

  datatype Flag = RefreshOldRcv | RefreshNewRcv | DynamicRcv | As4Rcv | RestartRcv | RestartBitRcv

  /** A received side of route filtering for a family, in the old or new code. */
  datatype OrfRcv = OrfRcv(family: Family, legacy: bool, sends: bool)

  /** What an OPEN leaves behind at the receiver. */
  datatype Nego = Nego(
    recv: set<Family>, nego: set<Family>, flags: set<Flag>,
    restartTime: nat, restart: set<Family>, preserved: set<Family>,
    orf: set<OrfRcv>, mp: bool, error: seq<byte>)

  const Fresh := Nego({}, {}, {}, 0, {}, {}, {}, false, [])

  /** Parsing goes on or the OPEN is refused; either way with what was left
      behind so far. */
  datatype Reply = Go(n: Nego) | Refuse(n: Nego)

  function Raised(n: Nego, f: Flag): Nego { n.(flags := n.flags + {f}) }
  function Unsupported(n: Nego, code: byte, data: seq<byte>): Nego
    requires |data| < 256
  {
    n.(error := n.error + [code, |data|] + data)
  }

  function MinSize(code: byte): nat
  {
    if code == MP || code == AS4 then 4
    else if code == ORF || code == ORF_OLD then 5
    else if code == RESTART then 2
    else 0
  }

  /** The type-specific length check of the known capabilities. */
  predicate SizeOk(code: byte, length: nat)
  {
    MinSize(code) <= length && ((code == MP || code == AS4) ==> length % 4 == 0)
  }

  /** bgp_capability_mp. */
  function TakeMp(data: seq<byte>, afc: set<Family>, n: Nego): Nego
    requires 4 <= |data| < 256
  {
    var m := n.(mp := true);
    match FamilyOf(FromU16(data[0], data[1]), data[3])
    case None => Unsupported(m, MP, data)
    case Some(f) =>
      if f in afc then m.(recv := m.recv + {f}, nego := m.nego + {f})
      else Unsupported(m.(recv := m.recv + {f}), MP, data)
  }

  function TakeRestartFamilies(data: seq<byte>, afc: set<Family>, n: Nego): Nego
    decreases |data|
  {
    if |data| < 4 then n else
      var m := match FamilyOf(FromU16(data[0], data[1]), data[2])
               case None => n
               case Some(f) =>
                 if f !in afc then n
                 else n.(restart := n.restart + {f}, preserved := n.preserved + if data[3] >= 0x80 then {f} else {});
      TakeRestartFamilies(data[4..], afc, m)
  }

  /** bgp_capability_restart. */
  function TakeRestart(data: seq<byte>, afc: set<Family>, n: Nego): Nego
    requires |data| >= 2
  {
    var w := FromU16(data[0], data[1]);
    var m := Raised(n, RestartRcv);
    var m' := if w >= 0x8000 then Raised(m, RestartBitRcv) else m;
    TakeRestartFamilies(data[2..], afc, m'.(restartTime := w % 0x1000))
  }

  /** The families bgp_capability_orf_entry keeps route filtering for. */
  predicate OrfKept(f: Family)
  {
    f == Family(IP, Unicast) || f == Family(IP, Multicast) || f == Family(IP6, Unicast)
  }

  function OrfSides(f: Family, legacy: bool, mode: byte): set<OrfRcv>
  {
    (if mode == 2 || mode == 3 then {OrfRcv(f, legacy, true)} else {})
    + (if mode == 1 || mode == 3 then {OrfRcv(f, legacy, false)} else {})
  }

  /** The loop over the filter types of one ORF entry. */
  function OrfEntries(b: seq<byte>, num: nat, f: Family, legacy: bool): set<OrfRcv>
    requires 2 * num <= |b|
  {
    if num == 0 then {} else
      (if OrfKept(f) && b[0] == (if legacy then ORF_TYPE_OLD else ORF_TYPE) then OrfSides(f, legacy, b[1]) else {})
      + OrfEntries(b[2..], num - 1, f, legacy)
  }

  /** bgp_capability_orf_entry. */
  function TakeOrf(data: seq<byte>, legacy: bool, n: Nego): Reply
    requires |data| >= 5
  {
    match FamilyOf(FromU16(data[0], data[1]), data[3])
    case None => Go(n)
    case Some(f) =>
      if 5 + 2 * data[4] > |data| then Refuse(n)
      else Go(n.(orf := n.orf + OrfEntries(data[5..], data[4], f, legacy)))
  }

  /** One capability. */
  function Take(c: Cap, afc: set<Family>, n: Nego): Reply
    requires |c.data| < 256
  {
    if !SizeOk(c.code, |c.data|) then Refuse(n)
    else if c.code == MP then Go(TakeMp(c.data, afc, n))
    else if c.code == REFRESH_OLD then Go(Raised(n, RefreshOldRcv))
    else if c.code == REFRESH then Go(Raised(n, RefreshNewRcv))
    else if c.code == ORF || c.code == ORF_OLD then TakeOrf(c.data, c.code == ORF_OLD, n)
    else if c.code == RESTART then Go(TakeRestart(c.data, afc, n))
    else if c.code == DYNAMIC then Go(Raised(n, DynamicRcv))
    else if c.code == AS4 then
      if |c.data| == 4 && FromU32(c.data[0], c.data[1], c.data[2], c.data[3]) != 0
      then Go(Raised(n, As4Rcv)) else Refuse(Raised(n, As4Rcv))
    else if c.code > 128 then Go(n)
    else Go(Unsupported(n, c.code, c.data))
  }

  /** bgp_capability_parse on the octets of one option. */
  function TakeCaps(b: seq<byte>, afc: set<Family>, n: Nego): Reply
    decreases |b|
  {
    if b == [] then Go(n)
    else if |b| < 2 || 2 + b[1] > |b| then Refuse(n)
    else
      var m := Take(Cap(b[0], b[2..2 + b[1]]), afc, n);
      if m.Refuse? then m else TakeCaps(b[2 + b[1]..], afc, m.n)
  }

  /** The option loop of bgp_open_option_parse on the octets left to read, of
      which the first length (possibly none) are options. */
  function TakeOptions(b: seq<byte>, length: int, afc: set<Family>, n: Nego): Reply
    decreases |b|
  {
    if length <= 0 then Go(n)
    else if |b| < 2 || 2 + b[1] > |b| || b[0] != OPT_CAP then Refuse(n)
    else
      var m := TakeCaps(b[2..2 + b[1]], afc, n);
      if m.Refuse? then m else TakeOptions(b[2 + b[1]..], length - 2 - b[1], afc, m.n)
  }

  /** The checks after the options: strict matching, then a common family. */
  predicate Acceptable(c: Config, n: Nego)
  {
    && (c.strict ==> n.error == [] && n.nego == c.afc)
    && !(n.mp && n.nego == {})
  }

  /** bgp_open_option_parse for a receiver that has n so far. */
  function ParseFrom(b: seq<byte>, length: nat, c: Config, n: Nego): Reply
  {
    var r := TakeOptions(b, length, c.afc, n);
    if r.Go? && Acceptable(c, r.n) then r else Refuse(r.n)
  }

  function ParseOpen(b: seq<byte>, length: nat, c: Config): Reply { ParseFrom(b, length, c, Fresh) }

  /** The families in use after an OPEN that named none. */
  function Assumed(c: Config): set<Family>
  {
    set f | f in c.afc && (f.safi == Unicast || f.safi == Multicast)
  }

  /** The option handling of bgp_open_receive: the families a session uses. */
  function Session(b: seq<byte>, length: nat, c: Config): Option<set<Family>>
  {
    if length == 0 then Some(Assumed(c)) else
      match ParseOpen(b, length, c)
      case Refuse(_) => None
      case Go(n) => Some(if n.mp then n.nego else n.nego + Assumed(c))
  }

  // ------------------------------------------------------- parsing anything

  /** What holds of a receiver whatever octets it was sent: it negotiates just
      the offered families it is configured for, and keeps restart state for
      configured families only. */
  predicate Within(n: Nego, afc: set<Family>)
  {
    n.nego == n.recv * afc && n.restart <= afc && n.preserved <= n.restart && (n.recv != {} ==> n.mp)
    && (n.error == [] ==> n.recv <= afc)
  }

  lemma {:induction false} RestartWithin(data: seq<byte>, afc: set<Family>, n: Nego)
    requires Within(n, afc)
    ensures Within(TakeRestartFamilies(data, afc, n), afc) && TakeRestartFamilies(data, afc, n).error == n.error
    decreases |data|
  {
    hide FamilyOf;
    if |data| >= 4 {
      var f := FamilyOf(FromU16(data[0], data[1]), data[2]);
      var m := if f.Some? && f.value in afc
               then n.(restart := n.restart + {f.value},
                       preserved := n.preserved + if data[3] >= 0x80 then {f.value} else {})
               else n;
      RestartWithin(data[4..], afc, m);
    }
  }

  lemma TakeWithin(c: Cap, afc: set<Family>, n: Nego)
    requires |c.data| < 256 && Within(n, afc)
    ensures var m := Take(c, afc, n).n; Within(m, afc) && |m.error| <= |n.error| + 2 + |c.data|
  {
    hide TakeRestartFamilies;
    if c.code == RESTART && |c.data| >= 2 {
      var w := FromU16(c.data[0], c.data[1]);
      var m := Raised(n, RestartRcv);
      var m' := if w >= 0x8000 then Raised(m, RestartBitRcv) else m;
      RestartWithin(c.data[2..], afc, m'.(restartTime := w % 0x1000));
    }
  }

  lemma {:induction false} TakeCapsWithin(b: seq<byte>, afc: set<Family>, n: Nego)
    requires Within(n, afc)
    ensures var m := TakeCaps(b, afc, n).n; Within(m, afc) && |m.error| <= |n.error| + |b|
    decreases |b|
  {
    hide Take, Within;
    if |b| >= 2 && 2 + b[1] <= |b| {
      var c := Cap(b[0], b[2..2 + b[1]]);
      TakeWithin(c, afc, n);
      var m := Take(c, afc, n);
      if m.Go? { TakeCapsWithin(b[2 + b[1]..], afc, m.n); }
    }
  }

  lemma {:induction false} TakeOptionsWithin(b: seq<byte>, length: int, afc: set<Family>, n: Nego)
    requires Within(n, afc)
    ensures var m := TakeOptions(b, length, afc, n).n; Within(m, afc) && |m.error| <= |n.error| + |b|
    decreases |b|
  {
    hide TakeCaps, Within;
    if length > 0 && |b| >= 2 && 2 + b[1] <= |b| {
      var o := b[2..2 + b[1]];
      TakeCapsWithin(o, afc, n);
      var m := TakeCaps(o, afc, n);
      if m.Go? { TakeOptionsWithin(b[2 + b[1]..], length - 2 - b[1], afc, m.n); }
    }
  }

  /** Whatever a peer sends, accepted or refused, no more is negotiated than the
      receiver is configured for, and the error data sent back is no longer than
      what was read. An accepted OPEN has a common family whenever any was
      offered, and just the configured ones if the receiver is strict. */
  lemma ParsedWithin(b: seq<byte>, length: nat, c: Config)
    ensures var r := ParseOpen(b, length, c);
            && Within(r.n, c.afc) && |r.n.error| <= |b|
            && (r.Go? ==> (r.n.mp ==> r.n.nego != {}) && (c.strict ==> r.n.recv == c.afc))
  {
    hide TakeOptions;
    TakeOptionsWithin(b, length, c.afc, Fresh);
  }

  // -------------------------------------------------- parsing what was written

  function TakeAll(cs: seq<Cap>, afc: set<Family>, n: Nego): Reply
    requires forall i :: 0 <= i < |cs| ==> |cs[i].data| < 254
  {
    if cs == [] then Go(n) else
      var m := Take(cs[0], afc, n);
      if m.Refuse? then m else TakeAll(cs[1..], afc, m.n)
  }

  lemma TakeOne(c: Cap, rest: seq<byte>, length: int, afc: set<Family>, n: Nego)
    requires |c.data| < 254 && length > 0
    ensures TakeOptions(OptionBytes(c) + rest, length, afc, n) ==
            var m := Take(c, afc, n);
            if m.Refuse? then m else TakeOptions(rest, length - |OptionBytes(c)|, afc, m.n)
  {
    var b := OptionBytes(c) + rest;
    var o := b[2..2 + b[1]];
    assert o == [c.code, |c.data|] + c.data;
    assert o[2..2 + o[1]] == c.data && o[2 + o[1]..] == [];
    assert b[2 + b[1]..] == rest;
    var m := Take(c, afc, n);
    if m.Go? { assert TakeCaps([], afc, m.n) == m; }
  }

  /** Options as this writer lays them out parse into their capabilities in
      order, whatever follows them. */
  lemma {:induction false} TakeWritten(cs: seq<Cap>, rest: seq<byte>, afc: set<Family>, n: Nego)
    requires forall i :: 0 <= i < |cs| ==> |cs[i].data| < 254
    ensures TakeOptions(OptionsBytes(cs) + rest, |OptionsBytes(cs)|, afc, n) == TakeAll(cs, afc, n)
    decreases |cs|
  {
    hide Take;
    if cs != [] {
      var tail := OptionsBytes(cs[1..]);
      assert OptionsBytes(cs) + rest == OptionBytes(cs[0]) + (tail + rest);
      TakeOne(cs[0], tail + rest, |OptionsBytes(cs)|, afc, n);
      var m := Take(cs[0], afc, n);
      if m.Go? { TakeWritten(cs[1..], rest, afc, m.n); }
    }
  }

  lemma {:induction false} TakeAllConcat(a: seq<Cap>, b: seq<Cap>, afc: set<Family>, n: Nego)
    requires forall i :: 0 <= i < |a| ==> |a[i].data| < 254
    requires forall i :: 0 <= i < |b| ==> |b[i].data| < 254
    ensures TakeAll(a + b, afc, n) == var m := TakeAll(a, afc, n); if m.Refuse? then m else TakeAll(b, afc, m.n)
    decreases |a|
  {
    hide Take;
    if a == [] {
      assert a + b == b;
    } else {
      assert (a + b)[1..] == a[1..] + b;
      var m := Take(a[0], afc, n);
      if m.Go? { TakeAllConcat(a[1..], b, afc, m.n); }
    }
  }

  lemma TakeMpCap(f: Family, afc: set<Family>, n: Nego)
    ensures Take(MpCap(f), afc, n) == Go(TakeMp(MpCap(f).data, afc, n))
    ensures var m := TakeMp(MpCap(f).data, afc, n);
            && m.mp && m.recv == n.recv + {f} && m.nego == n.nego + ({f} * afc)
            && (m.error == [] <==> n.error == [] && f in afc)
            && m.flags == n.flags && m.restartTime == n.restartTime && m.restart == n.restart
            && m.preserved == n.preserved && m.orf == n.orf
  {
    FamilyRoundTrip(f);
    var d := MpCap(f).data;
    assert d[3] == SafiCode(f.safi);
    assert FromU16(d[0], d[1]) == AfiCode(f.afi);
  }

  function Among(fs: seq<Family>, a: set<Family>): set<Family> { set f | f in fs && f in a }

  lemma {:induction false} TakeMpCaps(fs: seq<Family>, a: set<Family>, b: set<Family>, n: Nego)
    ensures var r := TakeAll(MpCaps(fs, a), b, n);
            && r.Go?
            && (r.n.mp <==> n.mp || Among(fs, a) != {})
            && r.n.recv == n.recv + Among(fs, a)
            && r.n.nego == n.nego + Among(fs, a) * b
            && (r.n.error == [] <==> n.error == [] && Among(fs, a) <= b)
            && r.n.flags == n.flags && r.n.restartTime == n.restartTime
            && r.n.restart == n.restart && r.n.preserved == n.preserved && r.n.orf == n.orf
  {
    hide Take, TakeMp, MpCap;
    if fs != [] {
      var f, rest := fs[0], MpCaps(fs[1..], a);
      if f in a {
        assert MpCaps(fs, a)[1..] == rest;
        TakeMpCap(f, b, n);
        TakeMpCaps(fs[1..], a, b, TakeMp(MpCap(f).data, b, n));
        assert Among(fs, a) == {f} + Among(fs[1..], a);
        assert f in Among(fs, a);
      } else {
        assert MpCaps(fs, a) == rest;
        TakeMpCaps(fs[1..], a, b, n);
        assert Among(fs, a) == Among(fs[1..], a);
      }
    }
  }

  lemma {:induction false} TakeRestartWritten(fs: seq<Family>, a: set<Family>, b: set<Family>, n: Nego)
    ensures TakeRestartFamilies(RestartFamilies(fs, a), b, n) == n.(restart := n.restart + Among(fs, a) * b)
  {
    if fs == [] {
      assert Among(fs, a) == {};
    } else {
      var f, rest := fs[0], RestartFamilies(fs[1..], a);
      if f in a {
        var d := RestartFamilies(fs, a);
        assert d == U16(AfiCode(f.afi)) + [SafiIndex(f.safi), 0] + rest;
        assert d[2] == SafiIndex(f.safi) && d[3] == 0 && d[4..] == rest;
        assert FromU16(d[0], d[1]) == AfiCode(f.afi);
        FamilyRoundTrip(f);
        var m := if f in b then n.(restart := n.restart + {f}) else n;
        assert n.preserved + {} == n.preserved;
        assert TakeRestartFamilies(d, b, n) == TakeRestartFamilies(rest, b, m);
        TakeRestartWritten(fs[1..], a, b, m);
        assert m.restart + Among(fs[1..], a) * b == n.restart + Among(fs, a) * b;
      } else {
        assert RestartFamilies(fs, a) == rest;
        TakeRestartWritten(fs[1..], a, b, n);
        assert Among(fs, a) == Among(fs[1..], a);
      }
    }
  }

  lemma AmongAll(a: set<Family>)
    ensures Among(Families, a) == a
  {
    forall f | f in a ensures f in Families { FamilyRoundTrip(f); }
  }
}
