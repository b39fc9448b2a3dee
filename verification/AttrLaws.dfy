/** What each path attribute comes to, told from its octets alone: the layout of
    a stored value, the flags a type must have, and what a malformed one costs
    (bgp_attr.c). */
module AttrLaws {
  import opened Lists
  import opened Wire
  import opened AsPath
  import opened AsPathCodec
  import opened AttrParse
  import opened AttrUpdate
  import As4

  // ------------------------------------------------------------------- layouts

  /** The header of an attribute: flags, type, and a length of one octet, or of
      two in network order when the fourth flag bit is set. */
  lemma HeaderOctets(t: Tlv)
    requires Encodable(t)
    ensures var b, n := TlvBytes(t), |t.value|;
            && b[0] == t.octet && b[1] == t.kind
            && if t.octet / 16 % 2 == 1 then n < 65536 && |b| == n + 4 && b[2..4] == U16(n) && b[4..] == t.value
               else n < 256 && |b| == n + 3 && b[2] == n && b[3..] == t.value
  {
    hide U16;
  }

  function ReachLayout(afi: nat, safi: byte, nexthop: seq<byte>, snpa: byte, nlri: seq<byte>): seq<byte>
    requires afi < 65536 && |nexthop| < 256
  {
    U16(afi) + [safi, |nexthop|] + nexthop + [snpa] + nlri
  }

  predicate NonTransitiveOctet(o: byte) { 128 <= o < 160 }

  /** Reachable routes are stored exactly as laid out: family, next hop, one
      ignored octet and then the routes. */
  lemma ReachStored(o: byte, afi: nat, safi: byte, nexthop: seq<byte>, snpa: byte, nlri: seq<byte>, peer: Peer)
    requires NonTransitiveOctet(o) && afi < 65536 && |nexthop| in {4, 12, 16, 24, 32, 48} && nlri != []
    ensures WorthOf(Tlv(o, 14, ReachLayout(afi, safi, nexthop, snpa, nlri)), peer) ==
            Store(Reach(afi, safi, nexthop, nlri))
  {
    hide ReachLayout, Malformed, U16, FromU16;
    LayoutRead(afi, safi, nexthop, snpa, nlri);
  }

  lemma LayoutRead(afi: nat, safi: byte, nexthop: seq<byte>, snpa: byte, nlri: seq<byte>)
    requires afi < 65536 && |nexthop| < 256
    ensures var v, n := ReachLayout(afi, safi, nexthop, snpa, nlri), |nexthop|;
            && |v| == 5 + n + |nlri| && FromU16(v[0], v[1]) == afi && v[2] == safi && v[3] == n
            && v[4..4 + n] == nexthop && v[5 + n..] == nlri
  {
    var head := U16(afi) + [safi, |nexthop|];
    Behind(head, nexthop, [snpa] + nlri);
    Behind(head + nexthop + [snpa], nlri, []);
    assert ReachLayout(afi, safi, nexthop, snpa, nlri) == head + nexthop + ([snpa] + nlri);
    assert ReachLayout(afi, safi, nexthop, snpa, nlri) == head + nexthop + [snpa] + nlri + [];
  }

  lemma Behind(a: seq<byte>, b: seq<byte>, c: seq<byte>)
    ensures (a + b + c)[|a|..|a| + |b|] == b
  {
  }

  /** Nothing else is stored under that type. */
  lemma ReachOnly(t: Tlv, peer: Peer)
    requires t.kind == 14 && WorthOf(t, peer).Store?
    ensures var w := WorthOf(t, peer).value;
            && w.Reach? && NonTransitiveOctet(t.octet)
            && w.afi < 65536 && |w.nexthop| in {4, 12, 16, 24, 32, 48} && w.nlri != []
            && exists snpa: byte :: t.value == ReachLayout(w.afi, w.safi, w.nexthop, snpa, w.nlri)
  {
    var v := t.value;
    ReachWorthOnly(t, peer);
    var n: nat := v[3];
    U16Back(v[0], v[1]);
    assert v == U16(FromU16(v[0], v[1])) + [v[2], n] + v[4..4 + n] + [v[4 + n]] + v[5 + n..];
    assert v == ReachLayout(FromU16(v[0], v[1]), v[2], v[4..4 + n], v[4 + n], v[5 + n..]);
  }

  lemma ReachWorthOnly(t: Tlv, peer: Peer)
    requires t.kind == 14 && WorthOf(t, peer).Store?
    ensures NonTransitiveOctet(t.octet) && ReachWorth(t.value).Store? && WorthOf(t, peer) == ReachWorth(t.value)
  {
  }

  /** Unreachable routes likewise; there may be none. */
  lemma UnreachStored(o: byte, afi: nat, safi: byte, nlri: seq<byte>, peer: Peer)
    requires NonTransitiveOctet(o) && afi < 65536
    ensures WorthOf(Tlv(o, 15, U16(afi) + [safi] + nlri), peer) == Store(Unreach(afi, safi, nlri))
  {
    var v := U16(afi) + [safi] + nlri;
    assert v[3..] == nlri;
    assert FromU16(v[0], v[1]) == afi;
  }

  lemma UnreachOnly(t: Tlv, peer: Peer)
    requires t.kind == 15 && WorthOf(t, peer).Store?
    ensures var w := WorthOf(t, peer).value;
            && w.Unreach? && NonTransitiveOctet(t.octet)
            && w.afi < 65536 && t.value == U16(w.afi) + [w.safi] + w.nlri
  {
    var v := t.value;
    UnreachWorthOnly(t, peer);
    U16Back(v[0], v[1]);
    assert v == U16(FromU16(v[0], v[1])) + [v[2]] + v[3..];
  }

  lemma UnreachWorthOnly(t: Tlv, peer: Peer)
    requires t.kind == 15 && WorthOf(t, peer).Store?
    ensures NonTransitiveOctet(t.octet) && UnreachWorth(t.value).Store? && WorthOf(t, peer) == UnreachWorth(t.value)
  {
  }

  predicate WellKnownOctet(o: byte) { 64 <= o < 96 }
  predicate TransitiveOctet(o: byte) { 192 <= o }

  /** Which flags octets a type may come with: the lower five bits never matter,
      and the Partial bit only to those that are not optional and transitive. */
  lemma FlagsLaw(t: Tlv)
    ensures t.kind in {1, 2, 3, 5, 6} ==> (FlagsOk(t) <==> WellKnownOctet(t.octet))
    ensures t.kind in {4, 9, 10, 14, 15} ==> (FlagsOk(t) <==> NonTransitiveOctet(t.octet))
    ensures t.kind in {7, 8, 16, 17, 18, 32} ==> (FlagsOk(t) <==> TransitiveOctet(t.octet))
    ensures t.kind !in {1, 2, 3, 4, 5, 6, 7, 8, 9, 10, 14, 15, 16, 17, 18, 32} ==> FlagsOk(t)
  {
  }

  /** What wrong flags cost. */
  lemma WrongFlags(t: Tlv, peer: Peer)
    requires (t.kind in {1, 2, 3, 5, 6} && !WellKnownOctet(t.octet))
          || (t.kind in {4, 9, 10, 14, 15} && !NonTransitiveOctet(t.octet))
          || (t.kind in {7, 8, 16, 17, 18, 32} && !TransitiveOctet(t.octet))
    ensures WorthOf(t, peer) == if peer.sort == Ebgp && t.kind in {6, 7, 18} then LeftAside else Fatal
  {
    FlagsLaw(t);
    assert !FlagsOk(t);
  }

  // -------------------------------------------------- contents, type by type

  /** ORIGIN is one octet of three values. */
  lemma OriginLaw(o: byte, v: seq<byte>, peer: Peer)
    requires WellKnownOctet(o)
    ensures WorthOf(Tlv(o, 1, v), peer) == if v in {[0], [1], [2]} then Store(Number(v[0])) else Fatal
  {
    if |v| == 1 { assert v == [v[0]]; }
  }

  /** NEXT_HOP is four octets and, unless allowed, none of 0/8, 127/8, 224/3. */
  lemma NexthopLaw(o: byte, v: seq<byte>, peer: Peer)
    requires WellKnownOctet(o)
    ensures WorthOf(Tlv(o, 3, v), peer) ==
            if |v| == 4 && (peer.martians || (v[0] != 0 && v[0] != 127 && v[0] < 224))
            then Store(Number(FromU32(v[0], v[1], v[2], v[3]))) else Fatal
  {
    if |v| == 4 { AddressOctet(v[0], v[1], v[2], v[3]); }
  }

  lemma AddressOctet(a: byte, b: byte, c: byte, d: byte)
    ensures Martian(FromU32(a, b, c, d)) <==> a == 0 || a == 127 || a >= 224
  {
  }

  /** MULTI_EXIT_DISC and ORIGINATOR_ID are a number of four octets. */
  lemma NumberLaw(o: byte, kind: byte, v: seq<byte>, peer: Peer)
    requires NonTransitiveOctet(o) && kind in {4, 9}
    ensures WorthOf(Tlv(o, kind, v), peer) ==
            if |v| == 4 then Store(Number(FromU32(v[0], v[1], v[2], v[3]))) else Fatal
  {
  }

  /** LOCAL_PREF too, but from an external peer it is dropped. */
  lemma LocalPrefLaw(o: byte, v: seq<byte>, peer: Peer)
    requires WellKnownOctet(o)
    ensures WorthOf(Tlv(o, 5, v), peer) ==
            if |v| != 4 then Fatal
            else if peer.sort == Ebgp then LeftAside
            else Store(Number(FromU32(v[0], v[1], v[2], v[3])))
  {
  }

  /** ATOMIC_AGGREGATE is empty. */
  lemma AtomicLaw(o: byte, v: seq<byte>, peer: Peer)
    requires WellKnownOctet(o)
    ensures WorthOf(Tlv(o, 6, v), peer) ==
            if v == [] then Store(Present) else if peer.sort == Ebgp then LeftAside else Fatal
  {
  }

  /** An aggregator is a number, of two octets only in the AGGREGATOR of a
      2-octet speaker, and an address. */
  lemma AggregatorLaw(o: byte, kind: byte, asn: Asn, addr: nat, peer: Peer)
    requires TransitiveOctet(o) && kind in {7, 18} && addr < 0x1_0000_0000
    ensures kind == 18 || peer.as4 ==>
              WorthOf(Tlv(o, kind, U32(asn) + U32(addr)), peer) == Store(AggregatedBy(asn, addr))
    ensures kind == 7 && !peer.as4 && asn < 65536 ==>
              WorthOf(Tlv(o, kind, U16(asn) + U32(addr)), peer) == Store(AggregatedBy(asn, addr))
  {
    hide WorthOf, AggregatorWorth, U16, U32, TransitiveOctet;
    AggregatorKind(Tlv(o, kind, U32(asn) + U32(addr)), peer);
    if asn < 65536 { AggregatorKind(Tlv(o, kind, U16(asn) + U32(addr)), peer); }
    if kind == 18 || peer.as4 { FourOctets(Tlv(o, kind, U32(asn) + U32(addr)), asn, addr, peer); }
    if asn < 65536 { TwoOctets(Tlv(o, kind, U16(asn) + U32(addr)), asn, addr, peer); }
  }

  lemma AggregatorKind(t: Tlv, peer: Peer)
    requires t.kind in {7, 18} && TransitiveOctet(t.octet)
    ensures WorthOf(t, peer) == AggregatorWorth(t, t.kind == 18 || peer.as4, peer)
  {
    hide AggregatorWorth, Malformed, FlagsOk, TransitiveOctet;
    FlagsLaw(t);
  }

  lemma FourOctets(t: Tlv, asn: Asn, addr: nat, peer: Peer)
    requires addr < 0x1_0000_0000 && t.value == U32(asn) + U32(addr)
    ensures AggregatorWorth(t, true, peer) == Store(AggregatedBy(asn, addr))
  {
    hide Malformed;
    var v := t.value;
    assert v[..4] == U32(asn) && v[4..] == U32(addr);
  }

  lemma TwoOctets(t: Tlv, asn: Asn, addr: nat, peer: Peer)
    requires addr < 0x1_0000_0000 && asn < 65536 && t.value == U16(asn) + U32(addr)
    ensures AggregatorWorth(t, false, peer) == Store(AggregatedBy(asn, addr))
  {
    hide Malformed;
    assert t.value[2..] == U32(addr);
  }

  lemma AggregatorLength(t: Tlv, peer: Peer)
    requires t.kind in {7, 18} && TransitiveOctet(t.octet)
    ensures WorthOf(t, peer).Store? <==> |t.value| == if t.kind == 18 || peer.as4 then 8 else 6
    ensures !WorthOf(t, peer).Store? ==> WorthOf(t, peer) == if peer.sort == Ebgp then LeftAside else Fatal
  {
  }

  /** The community attributes are non-empty lists of 4, 8 or 12 octets each; an
      empty one is passed over, and what a broken one costs depends on where it
      was broken. */
  lemma ListLaw(t: Tlv, peer: Peer)
    requires t.kind in {8, 16, 32} && TransitiveOctet(t.octet)
    ensures var entry := if t.kind == 8 then 4 else if t.kind == 16 then 8 else 12;
            WorthOf(t, peer) ==
            if t.value == [] then LeftAside
            else if |t.value| % entry == 0 then Store(Octets(t.value))
            else if t.kind == 32 && t.octet >= 224 && peer.sort == Ebgp then Withdrawn
            else Fatal
  {
  }

  /** CLUSTER_LIST is a list of 4 octets each, possibly none. */
  lemma ClusterLaw(o: byte, v: seq<byte>, peer: Peer)
    requires NonTransitiveOctet(o)
    ensures WorthOf(Tlv(o, 10, v), peer) == if |v| % 4 == 0 then Store(Octets(v)) else Fatal
  {
  }

  /** A path is stored as parsed; AS4_PATH has four octets whoever sent it, and a
      broken one marked Partial costs an external peer only the routes. */
  lemma PathLaw(t: Tlv, peer: Peer)
    requires (t.kind == 2 && WellKnownOctet(t.octet)) || (t.kind == 17 && TransitiveOctet(t.octet))
    ensures var p := Parse(t.value, |t.value|, t.kind == 17 || peer.as4);
            WorthOf(t, peer) ==
            if p.Some? then Store(PathOf(p.value))
            else if t.kind == 17 && t.octet >= 224 && peer.sort == Ebgp then Withdrawn
            else Fatal
  {
    hide Parse;
  }

  // ------------------------------------------------------------------- tunnels

  predicate ShortSubs(subs: seq<SubTlv>) { forall s :: s in subs ==> |s.value| < 256 }

  function FlatSubs(subs: seq<SubTlv>): seq<byte>
    requires ShortSubs(subs)
  {
    if subs == [] then [] else [subs[0].kind, |subs[0].value|] + subs[0].value + FlatSubs(subs[1..])
  }

  /** A list of sub-TLVs is read exactly when the octets are its layout and its
      last one is not too short for the loop to look at. */
  lemma {:induction false} SubsExactly(v: seq<byte>, subs: seq<SubTlv>)
    ensures SubTlvs(v) == Some(subs) <==>
            ShortSubs(subs) && v == FlatSubs(subs) && (subs == [] || |subs[|subs| - 1].value| >= 2)
    decreases |v|
  {
    if |v| >= 4 && 2 + v[1] <= |v| {
      var s, rest := SubTlv(v[0], v[2..2 + v[1]]), v[2 + v[1]..];
      assert v == [s.kind, |s.value|] + s.value + rest;
      if SubTlvs(v) == Some(subs) {
        assert subs == [s] + subs[1..];
        SubsExactly(rest, subs[1..]);
      } else if subs != [] && ShortSubs(subs) && v == FlatSubs(subs) {
        assert subs == [subs[0]] + subs[1..];
        SubsSame(v, subs);
        SubsExactly(rest, subs[1..]);
        if rest != [] { LastSub(subs); }
      }
    } else {
      ShortLayout(v, subs);
    }
  }

  lemma SubsSame(v: seq<byte>, subs: seq<SubTlv>)
    requires |v| >= 2 && subs != [] && ShortSubs(subs) && v == FlatSubs(subs)
    ensures 2 + v[1] <= |v| && subs[0] == SubTlv(v[0], v[2..2 + v[1]])
    ensures ShortSubs(subs[1..]) && v[2 + v[1]..] == FlatSubs(subs[1..])
  {
  }

  lemma LastSub(subs: seq<SubTlv>)
    requires |subs| >= 2
    ensures subs[1..][|subs[1..]| - 1] == subs[|subs| - 1]
  {
  }

  /** What the loop cannot read is no layout with a last value it looks at. */
  lemma ShortLayout(v: seq<byte>, subs: seq<SubTlv>)
    requires |v| < 4 || 2 + v[1] > |v|
    ensures subs != [] && ShortSubs(subs) && v == FlatSubs(subs) ==> |subs[|subs| - 1].value| < 2
    ensures v == [] ==> FlatSubs([]) == v
  {
    if subs != [] && ShortSubs(subs) && v == FlatSubs(subs) {
      SubsSame(v, subs);
      if |subs| >= 2 { FlatLast(subs); }
    }
  }

  lemma {:induction false} FlatLast(subs: seq<SubTlv>)
    requires subs != [] && ShortSubs(subs)
    ensures |FlatSubs(subs)| >= 2 + |subs[|subs| - 1].value|
  {
    if |subs| >= 2 {
      LastSub(subs);
      FlatLast(subs[1..]);
    }
  }

  /** The tunnel attribute: four octets nobody looks at, and sub-TLVs. */
  lemma TunnelLaw(t: Tlv, subs: seq<SubTlv>, peer: Peer)
    requires t.kind == 23
    ensures WorthOf(t, peer) == Tunnel(subs) <==>
            && TransitiveOctet(t.octet) && |t.value| >= 4
            && ShortSubs(subs) && t.value[4..] == FlatSubs(subs)
            && (subs == [] || |subs[|subs| - 1].value| >= 2)
    ensures WorthOf(t, peer).Tunnel? || WorthOf(t, peer) == Fatal
  {
    hide SubTlvs, FlatSubs;
    if |t.value| >= 4 { SubsExactly(t.value[4..], subs); }
  }

  /** The loop stops before a last sub-TLV of one octet and calls it left over. */
  lemma ShortLastSubRefused(o: byte, kind: byte, x: byte, peer: Peer)
    requires TransitiveOctet(o)
    ensures WorthOf(Tlv(o, 23, [0, 1, 0, 3, kind, 1, x]), peer) == Fatal
  {
    assert [0, 1, 0, 3, kind, 1, x][4..] == [kind, 1, x];
  }

  // -------------------------------------------------------------- unrecognised

  predicate Recognised(kind: byte)
  {
    1 <= kind <= 10 || 14 <= kind <= 18 || kind == 23 || kind == 32
  }

  /** A type nobody knows is passed on if transitive, left aside if optional, and
      otherwise ends the session. */
  lemma UnknownLaw(t: Tlv, peer: Peer)
    requires !Recognised(t.kind)
    ensures WorthOf(t, peer) == if t.octet >= 192 then Carried else if t.octet >= 128 then LeftAside else Fatal
  {
  }

  /** What is passed on can be split again: the same attribute with the Partial
      bit set and no other bit changed. */
  lemma CarriedSplits(a: Attrs, t: Tlv, ts: seq<Tlv>)
    requires Encodable(t) && (forall u :: u in ts ==> Encodable(u)) && a.transit == Flatten(ts)
    ensures var o := if t.octet % 64 < 32 then t.octet + 32 else t.octet;
            o < 256 && Split(Applied(a, t, Carried).transit) == Some(ts + [t.(octet := o)])
  {
    hide Flatten, Split, TlvBytes, Encodable, Partial, Extended;
    MarkedBytes(t);
    var u := MarkedTlv(t);
    FlattenConcat(ts, [u]);
    OneTlv(u);
    SplitFlatten(ts + [u]);
  }

  lemma MarkedBytes(t: Tlv)
    requires Encodable(t)
    ensures var u := MarkedTlv(t);
            && u == t.(octet := if t.octet % 64 < 32 then t.octet + 32 else t.octet)
            && Encodable(u) && TlvBytes(t)[0 := u.octet] == TlvBytes(u)
  {
    hide U16, Extended, Partial;
    MarkedBits(t.octet);
  }

  lemma MarkedBits(o: byte)
    ensures MarkedPartial(o) == if o % 64 < 32 then o + 32 else o
    ensures var p := MarkedPartial(o); (Extended(p) <==> Extended(o)) && Partial(p)
  {
    hide Partial, Extended;
    HalfBits(o);
    HalfBits(o + 32);
    BitTests(o);
    BitTests(MarkedPartial(o));
  }

  lemma HalfBits(o: nat)
    ensures o % 64 == o % 32 + if o / 32 % 2 == 1 then 32 else 0
    ensures (o + 32) % 32 == o % 32 && (o + 32) / 32 == o / 32 + 1
  {
    if o % 64 < 32 { assert o / 32 == 2 * (o / 64); } else { assert o / 32 == 2 * (o / 64) + 1; }
  }

  lemma BitTests(o: byte)
    ensures (Partial(o) <==> o % 64 >= 32) && (Extended(o) <==> o % 32 >= 16)
  {
  }

  lemma OneTlv(t: Tlv)
    requires Encodable(t)
    ensures Flatten([t]) == TlvBytes(t)
  {
    hide TlvBytes;
    assert Flatten([t]) == TlvBytes(t) + Flatten([]);
  }

  lemma {:induction false} FlattenConcat(ts: seq<Tlv>, us: seq<Tlv>)
    requires (forall t :: t in ts ==> Encodable(t)) && (forall u :: u in us ==> Encodable(u))
    ensures Flatten(ts + us) == Flatten(ts) + Flatten(us)
  {
    hide TlvBytes;
    if ts == [] {
      assert ts + us == us;
    } else {
      assert (ts + us)[1..] == ts[1..] + us;
      FlattenConcat(ts[1..], us);
    }
  }

  function MarkedTlv(t: Tlv): Tlv { t.(octet := MarkedPartial(t.octet)) }

  /** The unrecognised transitive attributes of an area, in their order. */
  function Passing(ts: seq<Tlv>): seq<Tlv>
  {
    if ts == [] then []
    else (if !Recognised(ts[0].kind) && ts[0].octet >= 192 then [MarkedTlv(ts[0])] else []) + Passing(ts[1..])
  }

  /** The octets passed on from a whole area are those attributes and no others. */
  lemma {:induction false} TransitExactly(ts: seq<Tlv>, a: Attrs, us: seq<Tlv>, peer: Peer)
    requires (forall t :: t in ts ==> Encodable(t)) && (forall u :: u in us ==> Encodable(u))
    requires Split(a.transit) == Some(us) && Flatten(us) == a.transit
    ensures Split(Collected(ts, a, peer).transit) == Some(us + Passing(ts))
    decreases |ts|
  {
    hide WorthOf, Split, Flatten, Encodable;
    if ts == [] {
      assert us + [] == us;
    } else {
      var t := ts[0];
      var next := Applied(a, t, WorthOf(t, peer));
      CarriedExactly(t, peer);
      if WorthOf(t, peer) == Carried {
        CarriedSplits(a, t, us);
        MarkedBits(t.octet);
        var now := us + [MarkedTlv(t)];
        SplitExact(next.transit);
        TransitExactly(ts[1..], next, now, peer);
        assert now + Passing(ts[1..]) == us + ([MarkedTlv(t)] + Passing(ts[1..]));
      } else {
        TransitExactly(ts[1..], next, us, peer);
        assert Passing(ts) == Passing(ts[1..]);
      }
    }
  }

  /** Whatever was parsed, what is passed on is cut into exactly those. */
  lemma TransitPassedOn(b: seq<byte>, peer: Peer)
    requires ParseAttrs(b, peer).Done?
    ensures Split(b).Some? && Split(ParseAttrs(b, peer).attrs.transit) == Some(Passing(Split(b).value))
  {
    hide Loop, Split, WorthOf, Collected, Complete, PathOk, Prepended, Typed, Acceptable, Passing, Munged;
    LoopAccepts(b, {}, Empty, peer);
    EmptyTyped();
    LoopTyped(b, {}, Empty, peer);
    MungeTouches(Loop(b, {}, Empty, peer).attrs, peer);
    var ts := Split(b).value;
    NothingSplits();
    TransitExactly(ts, Empty, [], peer);
    assert [] + Passing(ts) == Passing(ts);
  }

  lemma NothingSplits()
    ensures Split([]) == Some([]) && Flatten([]) == []
  {
  }

  lemma CarriedExactly(t: Tlv, peer: Peer)
    ensures WorthOf(t, peer) == Carried <==> !Recognised(t.kind) && t.octet >= 192
  {
    hide Parse, SubTlvs;
  }

  // ------------------------------------------------------------------ the path

  /** The path checks, told hop by hop for a path off the wire: a confederation
      peer's starts inside the confederation, an external one's has no
      confederation in it and, if that is enforced, its number in front. */
  lemma PathChecked(p: Path, peer: Peer)
    requires WireForm(p)
    ensures PathOk(p, peer) <==>
            match peer.sort
            case Ibgp => true
            case Confed => p != [] && p[0].kind in {AsConfedSequence, AsConfedSet}
            case Ebgp =>
              && (forall seg :: seg in p ==> seg.kind in {AsSequence, AsSet})
              && (peer.enforceFirst ==> Meaning(p) != [] && Meaning(p)[0] == One(peer.asn))
  {
    if peer.sort == Ebgp {
      NoConfedKind(p);
      if ConfedFree(p) { FirstMeans(p, peer.asn); }
    }
  }

  lemma NoConfedKind(p: Path)
    ensures ConfedFree(p) <==> forall seg :: seg in p ==> seg.kind in {AsSequence, AsSet}
  {
    if forall seg :: seg in p ==> seg.kind in {AsSequence, AsSet} {
      forall i | 0 <= i < |p| ensures !IsConfedKind(p[i].kind) { assert p[i] in p; }
    }
  }

  lemma FirstMeans(p: Path, a: Asn)
    requires WireForm(p) && ConfedFree(p)
    ensures FirstIs(p, a) <==> Meaning(p) != [] && Meaning(p)[0] == One(a)
  {
    hide Normal, FitsSegments;
    if p != [] {
      assert p == [p[0]] + p[1..];
      MeaningCons(p[0], p[1..]);
      FirstAsMeans(p[0]);
    }
  }

  lemma FirstAsMeans(seg: Segment)
    requires seg.asns != []
    ensures SegmentMeaning(seg) != []
    ensures seg.kind == AsSequence ==> SegmentMeaning(seg)[0] == One(seg.asns[0])
    ensures seg.kind != AsSequence ==> !SegmentMeaning(seg)[0].One?
  {
  }

  /** What bgp_attr_parse stores as the path: the one described by the message,
      which passed the checks, behind the number lent by local-as. */
  lemma PathStored(b: seq<byte>, peer: Peer)
    requires ParseAttrs(b, peer).Done?
    ensures Split(b).Some?
    ensures var s, ts := ParseAttrs(b, peer).attrs.stored, Split(b).value;
            && (AS_PATH in s <==> Carries(ts, AS_PATH, peer))
            && (AS_PATH in s ==>
                  && PathOk(PathIn(ts, peer), peer)
                  && s[AS_PATH] == PathOf(Prepended(PathIn(ts, peer), peer)))
  {
    hide Loop, Split, WorthOf, Collected, Munged, Carries, PathIn, Complete, Mandatory, PathOk, Prepended, Typed,
         Acceptable;
    LoopAccepts(b, {}, Empty, peer);
    EmptyTyped();
    LoopTyped(b, {}, Empty, peer);
    AcceptedDistinct(Split(b).value, peer);
    MergedIsDescribed(Split(b).value, peer);
  }

  lemma AcceptedDistinct(ts: seq<Tlv>, peer: Peer)
    requires Acceptable(ts, {}, peer)
    ensures Distinct(ts)
  {
  }

  /** The aggregator a 2-octet speaker's message comes to: AS4_AGGREGATOR only
      where AGGREGATOR names 23456, its number alone where there is none, and
      otherwise what AGGREGATOR says. Nothing changes for a 4-octet speaker. */
  lemma AggregatorSettled(a: Attrs, peer: Peer)
    requires Typed(a)
    ensures peer.as4 || AS_PATH !in a.stored ==> Munged(a, peer) == a
    ensures !peer.as4 && AS_PATH in a.stored ==>
              var s, m := a.stored, Munged(a, peer).stored;
              && (AGGREGATOR in m <==> AGGREGATOR in s || AS4_AGGREGATOR in s)
              && (AGGREGATOR in m ==>
                    m[AGGREGATOR] ==
                    if AS4_AGGREGATOR !in s || (AGGREGATOR in s && s[AGGREGATOR].asn != 23456) then s[AGGREGATOR]
                    else if AGGREGATOR in s then s[AS4_AGGREGATOR]
                    else AggregatedBy(s[AS4_AGGREGATOR].asn, 0))
  {
    hide As4.Reconcile;
  }

  // ----------------------------------------------------------- what is written

  /** Some number of the path needs more than two octets. */
  predicate Wide(p: Path) { exists i :: 0 <= i < |p| && exists a :: a in p[i].asns && a > 65535 }

  lemma WideIsAs4(p: Path)
    ensures As4.HasAs4(p) <==> Wide(p)
  {
  }

  /** Which attributes go out with a route, in ascending order of type: AS4_PATH
      and AS4_AGGREGATOR only to a 2-octet speaker, and only when some number
      does not fit. */
  lemma TypesWritten(r: Route, peer: Peer)
    requires Sendable(r)
    ensures Split(Sending(r, peer)).Some?
    ensures var ts := Split(Sending(r, peer)).value;
            && (forall i, j :: 0 <= i < j < |ts| ==> ts[i].kind < ts[j].kind)
            && (forall k: byte :: (exists t :: t in ts && t.kind == k) <==> Writes(r, peer, k))
  {
    hide Candidates, Split, AttrUpdate.Chosen, Flatten, WorthOf, Sendable, Writes, InSlots;
    var cs := Candidates(r, peer.sort, peer.as4);
    CandidatesEncodable(r, peer);
    var ts := AttrUpdate.Chosen(cs);
    SplitFlatten(ts);
    ExpectedDiffer(cs, Worths(r, peer), peer);
    ChosenExact(cs);
    CandidateSlots(r, peer);
    SlotsAscend(cs);
    ChosenAscend(cs);
    forall k: byte ensures (exists t :: t in ts && t.kind == k) <==> Writes(r, peer, k) {
      SlotWritten(r, peer, cs, k);
      if t :| t in ts && t.kind == k { assert Some(t) in cs; }
      if t :| Some(t) in cs && t.kind == k { assert t in ts; }
    }
  }

  predicate Writes(r: Route, peer: Peer, k: byte)
  {
    || k == 1 || k == 2 || k == 3
    || (k == 4 && r.med.Some?)
    || (k == 5 && peer.sort != Ebgp)
    || (k == 6 && r.atomic)
    || (k == 7 && r.aggregator.Some?)
    || (k == 17 && !peer.as4 && Wide(r.path))
    || (k == 18 && !peer.as4 && r.aggregator.Some? && r.aggregator.value.asn > 65535)
  }

  /** Each place of the list holds its own type or nothing. */
  predicate InSlots(r: Route, peer: Peer, cs: seq<Option<Tlv>>)
  {
    |cs| == |Kinds| && forall i :: 0 <= i < |cs| ==>
      (cs[i].Some? <==> Writes(r, peer, Kinds[i])) && (cs[i].Some? ==> cs[i].value.kind == Kinds[i])
  }

  lemma CandidateSlots(r: Route, peer: Peer)
    requires Sendable(r)
    ensures InSlots(r, peer, Candidates(r, peer.sort, peer.as4))
  {
    hide PathBytes, AggregatorBytes, Sendable, U32, Wide, As4.HasAs4, As4.Stripped, WorthOf;
    WideIsAs4(r.path);
  }

  lemma SlotWritten(r: Route, peer: Peer, cs: seq<Option<Tlv>>, k: byte)
    requires InSlots(r, peer, cs)
    ensures (exists t :: Some(t) in cs && t.kind == k) <==> Writes(r, peer, k)
  {
    if t :| Some(t) in cs && t.kind == k {
      var i :| 0 <= i < |cs| && cs[i] == Some(t);
    }
    if Writes(r, peer, k) {
      var i := SlotOf(k);
      assert Kinds[i] == k && cs[i].Some?;
      assert Some(cs[i].value) in cs;
    }
  }

  function SlotOf(k: byte): nat { if 1 <= k <= 7 then k - 1 else if k == 17 then 7 else 8 }

  predicate InOrder(cs: seq<Option<Tlv>>)
  {
    forall i, j :: 0 <= i < j < |cs| && cs[i].Some? && cs[j].Some? ==> cs[i].value.kind < cs[j].value.kind
  }

  lemma SlotsAscend(cs: seq<Option<Tlv>>)
    requires |cs| == |Kinds| && forall i :: 0 <= i < |cs| && cs[i].Some? ==> cs[i].value.kind == Kinds[i]
    ensures InOrder(cs)
  {
    forall i, j | 0 <= i < j < |cs| ensures Kinds[i] < Kinds[j] { }
  }

  lemma {:induction false} ChosenAscend(cs: seq<Option<Tlv>>)
    requires InOrder(cs) && KindsDiffer(cs)
    ensures forall i, j :: 0 <= i < j < |AttrUpdate.Chosen(cs)| ==>
              AttrUpdate.Chosen(cs)[i].kind < AttrUpdate.Chosen(cs)[j].kind
  {
    if cs != [] {
      var rest := AttrUpdate.Chosen(cs[1..]);
      assert InOrder(cs[1..]) && KindsDiffer(cs[1..]);
      ChosenAscend(cs[1..]);
      ChosenExact(cs[1..]);
      if cs[0].Some? {
        forall j | 0 <= j < |rest| ensures cs[0].value.kind < rest[j].kind {
          assert rest[j] in rest;
          var i :| 0 <= i < |cs[1..]| && cs[1..][i] == Some(rest[j]);
          assert cs[i + 1] == Some(rest[j]);
        }
      }
    }
  }
}
