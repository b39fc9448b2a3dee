/** What an OPEN comes to, octet by octet and family by family, without the
    parser's own terms (bgp_open.c and the end of bgp_open_receive). */
module OpenLaws {
  import opened Lists
  import opened Wire
  import opened OpenCapability
  import opened OpenNegotiation

  // ------------------------------------------------------------ silent speakers

  /** After an OPEN without capabilities a family is in use exactly when it is
      configured and neither an MPLS VPN nor an Encap one. */
  lemma SilentSession(a: Config, b: Config, rest: seq<byte>)
    requires Legal(a) && !a.sends
    ensures var s := Session(Written(a) + rest, |Written(a)|, b);
            s.Some? && forall f :: f in s.value <==> f in b.afc && f.safi != MplsVpn && f.safi != Encap
  {
  }

  /** The same after capabilities among which no family was, unless the receiver
      insists on its own. */
  lemma NoFamilyOffered(a: Config, b: Config, rest: seq<byte>)
    requires Legal(a) && a.sends && a.afc == {}
    ensures var s := Session(Written(a) + rest, |Written(a)|, b);
            && (s.None? <==> b.strict && b.afc != {})
            && (s.Some? ==> forall f :: f in s.value <==> f in b.afc && f.safi != MplsVpn && f.safi != Encap)
  {
    hide Session, Written;
    SessionAfter(a, b, rest);
  }

  predicate PlainFamilies(c: Config) { forall f :: f in c.afc ==> f.safi == Unicast || f.safi == Multicast }

  /** A receiver of plain families uses all of them, and nobody else does. */
  lemma SilentUsesAll(a: Config, b: Config, rest: seq<byte>)
    requires Legal(a) && !a.sends
    ensures Session(Written(a) + rest, |Written(a)|, b) == Some(b.afc) <==> PlainFamilies(b)
  {
    hide Session, Written;
    SilentSession(a, b, rest);
    var s := Session(Written(a) + rest, |Written(a)|, b).value;
    if PlainFamilies(b) { assert s == b.afc; }
  }

  /** Two silent speakers of the same plain families both end with those. */
  lemma SilentSpeakers(a: Config, b: Config, restA: seq<byte>, restB: seq<byte>)
    requires Legal(a) && !a.sends && Legal(b) && !b.sends
    requires a.afc == b.afc && PlainFamilies(a)
    ensures Session(Written(a) + restA, |Written(a)|, b) == Some(a.afc)
    ensures Session(Written(b) + restB, |Written(b)|, a) == Some(a.afc)
  {
    hide Session, Written;
    SilentUsesAll(a, b, restA);
    SilentUsesAll(b, a, restB);
  }

  // ------------------------------------------------------------ octets written

  /** The octets of the options, family by family. */
  lemma OfferOctets(f: Family)
    ensures OptionBytes(MpCap(f)) == [2, 6, 1, 4, 0, if f.afi == IP then 1 else 2, 0,
                                      match f.safi
                                      case Unicast => 1 case Multicast => 2 case MplsVpn => 128 case Encap => 7]
  {
  }

  /** The octets of route filtering, in the old code and the new. */
  lemma FilterOctets(f: Family, m: OrfMode)
    ensures var afi := if f.afi == IP then 1 else 2;
            var mode := match m case Receives => 1 case Sends => 2 case Both => 3;
            f.safi == Unicast || f.safi == Multicast ==>
              var safi := if f.safi == Unicast then 1 else 2;
              && OptionBytes(OrfCap(f, m, true)) == [2, 9, 130, 7, 0, afi, 0, safi, 1, 128, mode]
              && OptionBytes(OrfCap(f, m, false)) == [2, 9, 3, 7, 0, afi, 0, safi, 1, 64, mode]
  {
  }

  /** An OPEN of a speaker without families: route refresh in both codes, the AS
      number in four octets, dynamic capability, graceful restart. */
  lemma PlainOctets(c: Config)
    requires Legal(c) && c.sends && c.afc == {} && c.orf == map[]
    ensures Written(c) ==
            [2, 2, 128, 0, 2, 2, 2, 0, 2, 6, 65, 4]
            + U32(if c.changeLocalAs != 0 then c.changeLocalAs else c.localAs)
            + (if c.dynamic then [2, 2, 66, 0] else [])
            + [2, 4, 64, 2] + U16(c.restartTime + if c.startup then 32768 else 0)
  {
    hide OptionsBytes, OptionBytes, MpCaps, OrfCaps, OtherCaps, FirstCaps, DynamicCaps, RestartCap, U16, U32;
    NothingOffered(Families);
    NothingFiltered(OrfFamilies);
    assert MpCaps(Families, c.afc) + OtherCaps(c) == OtherCaps(c);
    OtherCapsBytes(c);
    FirstOctets(c);
    LastOctets(c);
    NoOption();
  }

  lemma FirstOctets(c: Config)
    requires Legal(c)
    ensures OptionsBytes(FirstCaps(c)) ==
            [2, 2, 128, 0, 2, 2, 2, 0, 2, 6, 65, 4]
            + U32(if c.changeLocalAs != 0 then c.changeLocalAs else c.localAs)
  {
    hide OptionsBytes, U32;
    ThreeOptions(FirstCaps(c));
  }

  lemma LastOctets(c: Config)
    requires Legal(c) && c.afc == {}
    ensures OptionsBytes(DynamicCaps(c)) == if c.dynamic then [2, 2, 66, 0] else []
    ensures OptionBytes(RestartCap(c)) == [2, 4, 64, 2] + U16(c.restartTime + if c.startup then 32768 else 0)
  {
    hide OptionsBytes, U16, RestartFamilies;
    NothingRestarted(Families);
    NoOption();
    if c.dynamic { OneOption(Cap(DYNAMIC, [])); }
  }

  lemma NoOption()
    ensures OptionsBytes([]) == []
  {
  }

  lemma ThreeOptions(cs: seq<Cap>)
    requires |cs| == 3 && forall i :: 0 <= i < |cs| ==> |cs[i].data| < 254
    ensures OptionsBytes(cs) == OptionBytes(cs[0]) + OptionBytes(cs[1]) + OptionBytes(cs[2])
  {
    hide OptionsBytes, OptionBytes;
    OptionsBytesConcat([cs[0]], [cs[1]]);
    OptionsBytesConcat([cs[0], cs[1]], [cs[2]]);
    OneOption(cs[0]);
    OneOption(cs[1]);
    OneOption(cs[2]);
    assert [cs[0], cs[1]] == [cs[0]] + [cs[1]];
    assert cs == [cs[0], cs[1]] + [cs[2]];
  }

  lemma {:induction false} NothingOffered(fs: seq<Family>)
    ensures MpCaps(fs, {}) == []
  {
    if fs != [] { NothingOffered(fs[1..]); }
  }

  lemma {:induction false} NothingFiltered(fs: seq<Family>)
    ensures OrfCaps(fs, map[]) == []
  {
    if fs != [] { NothingFiltered(fs[1..]); }
  }

  lemma {:induction false} NothingRestarted(fs: seq<Family>)
    ensures RestartFamilies(fs, {}) == []
  {
    if fs != [] { NothingRestarted(fs[1..]); }
  }

  /** The families offered are in the options in the order of their codes. */
  lemma {:induction false} OffersInOrder(fs: seq<Family>, afc: set<Family>)
    ensures |MpCaps(fs, afc)| == |Chosen(fs, afc)|
    ensures forall i :: 0 <= i < |MpCaps(fs, afc)| ==> MpCaps(fs, afc)[i] == MpCap(Chosen(fs, afc)[i])
  {
    if fs != [] { OffersInOrder(fs[1..], afc); }
  }

  function Chosen(fs: seq<Family>, afc: set<Family>): seq<Family>
  {
    if fs == [] then [] else (if fs[0] in afc then [fs[0]] else []) + Chosen(fs[1..], afc)
  }

  // -------------------------------------------------------- what is understood

  /** Route filtering is heard for the configured families but multicast IPv6,
      in both codes, each on the sides its mode names. */
  lemma FilteringHeard(a: Config, b: Config, rest: seq<byte>, r: OrfRcv)
    requires Legal(a) && a.sends
    ensures var t := TakeOptions(Written(a) + rest, |Written(a)|, b.afc, Fresh);
            && t.Go?
            && (r in t.n.orf <==>
                  && r.family in a.orf
                  && r.family in {Family(IP, Unicast), Family(IP, Multicast), Family(IP6, Unicast)}
                  && (a.orf[r.family] == Both || (r.sends <==> a.orf[r.family] == Sends)))
  {
    hide TakeOptions, Written;
    OpenHeard(a, b, rest);
  }

  /** A family of a restart capability with its flags octet. */
  datatype Restarting = Restarting(family: Family, flags: byte)

  function RestartEntries(es: seq<Restarting>): seq<byte>
  {
    if es == [] then []
    else [0, AfiCode(es[0].family.afi), SafiIndex(es[0].family.safi), es[0].flags] + RestartEntries(es[1..])
  }

  /** Exactly the configured families named restart, and of them exactly those
      with the highest flag bit kept their forwarding state. */
  lemma {:induction false} RestartUnderstood(es: seq<Restarting>, afc: set<Family>, n: Nego, f: Family)
    ensures var r := TakeRestartFamilies(RestartEntries(es), afc, n);
            && (f in r.restart <==> f in n.restart || (f in afc && exists e :: e in es && e.family == f))
            && (f in r.preserved <==>
                  f in n.preserved || (f in afc && exists e :: e in es && e.family == f && e.flags >= 128))
            && r == n.(restart := r.restart, preserved := r.preserved)
  {
    if es != [] {
      var e, b := es[0], RestartEntries(es);
      assert b[4..] == RestartEntries(es[1..]);
      FamilyRoundTrip(e.family);
      var m := if e.family !in afc then n else n.(restart := n.restart + {e.family},
        preserved := n.preserved + if e.flags >= 128 then {e.family} else {});
      RestartUnderstood(es[1..], afc, m, f);
      assert TakeRestartFamilies(b, afc, n) == TakeRestartFamilies(RestartEntries(es[1..]), afc, m);
      assert forall x :: x in es <==> x == e || x in es[1..];
    }
  }

  /** A whole restart capability: the restart bit, twelve bits of time and the
      entries. */
  lemma RestartTaken(bits: nat, time: nat, es: seq<Restarting>, afc: set<Family>, n: Nego)
    requires bits < 16 && time < 4096 && 2 + |RestartEntries(es)| < 256
    ensures var r := Take(Cap(64, U16(bits * 4096 + time) + RestartEntries(es)), afc, n);
            && r.Go? && r.n.restartTime == time && RestartRcv in r.n.flags
            && (RestartBitRcv in r.n.flags <==> RestartBitRcv in n.flags || bits >= 8)
            && (forall f :: f in r.n.restart <==>
                  f in n.restart || (f in afc && exists e :: e in es && e.family == f))
            && (forall f :: f in r.n.preserved <==>
                  f in n.preserved || (f in afc && exists e :: e in es && e.family == f && e.flags >= 128))
  {
    hide TakeRestartFamilies, RestartEntries;
    var w := bits * 4096 + time;
    var d := U16(w) + RestartEntries(es);
    assert d[2..] == RestartEntries(es);
    assert FromU16(d[0], d[1]) == w;
    assert w % 4096 == time && (w >= 32768 <==> bits >= 8);
    var m := Raised(n, RestartRcv);
    var m' := (if w >= 32768 then Raised(m, RestartBitRcv) else m).(restartTime := time);
    assert Take(Cap(64, d), afc, n) == Go(TakeRestartFamilies(d[2..], afc, m'));
    RestartUnderstood(es, afc, m', Family(IP, Unicast));
    forall f { RestartUnderstood(es, afc, m', f); }
  }

  predicate KnownCode(code: byte) { code in {1, 2, 3, 64, 65, 66, 128, 130} }

  /** A capability nobody knows is never refused; it is recorded for a
      notification, but above 128 leaves no trace. */
  lemma UnknownCapability(c: Cap, afc: set<Family>, n: Nego)
    requires |c.data| < 256 && !KnownCode(c.code)
    ensures Take(c, afc, n) == Go(if c.code > 128 then n else n.(error := n.error + [c.code, |c.data|] + c.data))
  {
  }

  /** A multiprotocol offer is taken up exactly when it names a configured
      family, and is otherwise recorded for a notification. */
  lemma OfferTaken(afi: nat, reserved: byte, safi: byte, afc: set<Family>, n: Nego)
    requires afi < 65536
    ensures var c := Cap(1, U16(afi) + [reserved, safi]);
            var r := Take(c, afc, n);
            && r.Go? && r.n.mp
            && (forall f :: f in r.n.nego <==> f in n.nego || (f in afc && Names(f, afi, safi)))
            && (forall f :: f in r.n.recv <==> f in n.recv || Names(f, afi, safi))
            && (r.n.error == n.error <==> exists f :: f in afc && Names(f, afi, safi))
            && (r.n.error == n.error || r.n.error == n.error + [1, 4] + c.data)
  {
    var d := U16(afi) + [reserved, safi];
    assert FromU16(d[0], d[1]) == afi;
    forall f ensures Names(f, afi, safi) <==> FamilyOf(afi, safi) == Some(f) { }
    if FamilyOf(afi, safi).Some? { assert Names(FamilyOf(afi, safi).value, afi, safi); }
  }

  /** The code points of IANA's registries, MPLS VPN also by its array index. */
  predicate Names(f: Family, afi: nat, safi: byte)
  {
    && afi == (match f.afi case IP => 1 case IP6 => 2)
    && match f.safi
       case Unicast => safi == 1
       case Multicast => safi == 2
       case MplsVpn => safi == 128 || safi == 4
       case Encap => safi == 7
  }
}
