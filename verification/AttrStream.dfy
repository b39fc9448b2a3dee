/** bgp_attr_parse on its input stream: every attribute parser moves the read
    cursor, the loop checks where it ended up, and an unrecognised attribute is
    marked Partial in place before it is kept. */
module AttrStream {
  import opened Lists
  import opened Wire
  import opened AsPath
  import opened AsPathChain
  import opened AsPathCodec
  import opened AsPathStream
  import opened AttrParse
  import As4

  /** The attribute whose value starts at the cursor. */
  ghost function Here(s: Stream, octet: byte, kind: byte, length: nat): Tlv
    requires s.Valid() && length <= s.Readable()
    reads s
  {
    Tlv(octet, kind, s.data[s.getp..s.getp + length])
  }

  /** bgp_attr_malformed: when parsing may go on, the rest of the value is skipped. */
  method Refuse(s: Stream, octet: byte, kind: byte, end: nat, peer: Peer) returns (w: Worth)
    requires s.Valid() && s.getp <= end <= |s.data|
    modifies s
    ensures s.Valid() && s.data == old(s.data) && s.getp <= end && (Kept(w) ==> s.getp == end)
    ensures forall v :: w == Malformed(Tlv(octet, kind, v), peer)
  {
    w := Malformed(Tlv(octet, kind, []), peer);
    if peer.sort == Ebgp { s.getp := end; }
  }

  method OriginGet(s: Stream, octet: byte, kind: byte, length: nat, peer: Peer) returns (w: Worth)
    requires s.Valid() && length <= s.Readable()
    modifies s
    ensures s.Valid() && s.data == old(s.data) && s.getp <= old(s.getp) + length
    ensures Kept(w) ==> s.getp == old(s.getp) + length
    ensures w == OriginWorth(old(Here(s, octet, kind, length)), peer)
  {
    var end := s.getp + length;
    if length == 1 {
      var origin := s.Getc();
      if origin <= 2 { return Store(Number(origin)); }
    }
    w := Refuse(s, octet, kind, end, peer);
  }

  method NexthopGet(s: Stream, octet: byte, kind: byte, length: nat, peer: Peer) returns (w: Worth)
    requires s.Valid() && length <= s.Readable()
    modifies s
    ensures s.Valid() && s.data == old(s.data) && s.getp <= old(s.getp) + length
    ensures Kept(w) ==> s.getp == old(s.getp) + length
    ensures w == NexthopWorth(old(Here(s, octet, kind, length)), peer)
  {
    var end := s.getp + length;
    if length == 4 {
      var addr := s.Getl();
      if peer.martians || !Martian(addr) { return Store(Number(addr)); }
    }
    w := Refuse(s, octet, kind, end, peer);
  }

  method NumberGet(s: Stream, octet: byte, kind: byte, length: nat, peer: Peer) returns (w: Worth)
    requires s.Valid() && length <= s.Readable()
    modifies s
    ensures s.Valid() && s.data == old(s.data) && s.getp <= old(s.getp) + length
    ensures Kept(w) ==> s.getp == old(s.getp) + length
    ensures w == NumberWorth(old(Here(s, octet, kind, length)), peer)
  {
    var end := s.getp + length;
    if length != 4 {
      w := Refuse(s, octet, kind, end, peer);
    } else if kind == LOCAL_PREF && peer.sort == Ebgp {
      s.getp := s.getp + length;
      w := LeftAside;
    } else {
      var n := s.Getl();
      w := Store(Number(n));
    }
  }

  method AtomicGet(s: Stream, octet: byte, kind: byte, length: nat, peer: Peer) returns (w: Worth)
    requires s.Valid() && length <= s.Readable()
    modifies s
    ensures s.Valid() && s.data == old(s.data) && s.getp <= old(s.getp) + length
    ensures Kept(w) ==> s.getp == old(s.getp) + length
    ensures var t := old(Here(s, octet, kind, length)); w == StoreOr(t.value == [], Present, t, peer)
  {
    if length == 0 { return Store(Present); }
    w := Refuse(s, octet, kind, s.getp + length, peer);
  }

  lemma ParseOwn(readable: seq<byte>, length: nat, use32bit: bool)
    requires length <= |readable|
    ensures Parse(readable, length, use32bit) == Parse(readable[..length], length, use32bit)
  {
    if length >= 2 { assert readable[..length][..length] == readable[..length]; }
  }

  method PathGet(s: Stream, octet: byte, kind: byte, length: nat, use32bit: bool, peer: Peer) returns (w: Worth)
    requires s.Valid() && length <= s.Readable()
    modifies s
    ensures s.Valid() && s.data == old(s.data) && s.getp <= old(s.getp) + length
    ensures Kept(w) ==> s.getp == old(s.getp) + length
    ensures w == PathWorth(old(Here(s, octet, kind, length)), use32bit, peer)
  {
    hide Parse, Malformed;
    var start := s.getp;
    ParseOwn(Unread(s), length, use32bit);
    assert Unread(s)[..length] == s.data[start..start + length];
    var p := SegmentsParse(s, length, use32bit);
    if p.Some? { return Store(PathOf(p.value)); }
    w := Refuse(s, octet, kind, start + length, peer);
  }

  method AggregatorGet(s: Stream, octet: byte, kind: byte, length: nat, use32bit: bool, peer: Peer) returns (w: Worth)
    requires s.Valid() && length <= s.Readable()
    modifies s
    ensures s.Valid() && s.data == old(s.data) && s.getp <= old(s.getp) + length
    ensures Kept(w) ==> s.getp == old(s.getp) + length
    ensures w == AggregatorWorth(old(Here(s, octet, kind, length)), use32bit, peer)
  {
    var end := s.getp + length;
    if length != (if use32bit then 8 else 6) {
      w := Refuse(s, octet, kind, end, peer);
      return;
    }
    ghost var v := s.data[s.getp..end];
    var asn: Asn;
    if use32bit {
      asn := s.Getl();
      assert asn == Word(v[..4]);
    } else {
      asn := s.Getw();
    }
    var addr := s.Getl();
    assert addr == Word(if use32bit then v[4..] else v[2..]);
    w := Store(AggregatedBy(asn, addr));
  }

  method ListGet(s: Stream, octet: byte, kind: byte, length: nat, entry: nat, peer: Peer) returns (w: Worth)
    requires s.Valid() && length <= s.Readable() && entry > 0
    modifies s
    ensures s.Valid() && s.data == old(s.data) && s.getp <= old(s.getp) + length
    ensures Kept(w) ==> s.getp == old(s.getp) + length
    ensures w == ListWorth(old(Here(s, octet, kind, length)), entry, peer)
  {
    if length == 0 { return LeftAside; }
    var start := s.getp;
    s.getp := start + length;
    if length % entry == 0 { return Store(Octets(s.data[start..start + length])); }
    w := Refuse(s, octet, kind, start + length, peer);
  }

  method ClusterGet(s: Stream, octet: byte, kind: byte, length: nat, peer: Peer) returns (w: Worth)
    requires s.Valid() && length <= s.Readable()
    modifies s
    ensures s.Valid() && s.data == old(s.data) && s.getp <= old(s.getp) + length
    ensures Kept(w) ==> s.getp == old(s.getp) + length
    ensures var t := old(Here(s, octet, kind, length)); w == StoreOr(|t.value| % 4 == 0, Octets(t.value), t, peer)
  {
    var start := s.getp;
    if length % 4 != 0 {
      w := Refuse(s, octet, kind, start + length, peer);
      return;
    }
    w := Store(Octets(s.data[start..start + length]));
    s.getp := start + length;
  }

  /** bgp_mp_reach_parse. */
  method ReachGet(s: Stream, length: nat) returns (w: Worth)
    requires s.Valid() && length <= s.Readable()
    modifies s
    ensures s.Valid() && s.data == old(s.data) && s.getp <= old(s.getp) + length
    ensures Kept(w) ==> s.getp == old(s.getp) + length
    ensures w == ReachWorth(old(s.data[s.getp..s.getp + length]))
  {
    var start, end := s.getp, s.getp + length;
    ghost var v := s.data[start..end];
    if length < 5 { return Fatal; }
    var afi := s.Getw();
    var safi := s.Getc();
    var n := s.Getc();
    assert afi == FromU16(v[0], v[1]) && safi == v[2] && n == v[3];
    if end - s.getp < n || !NexthopLength(n) { return Fatal; }
    var nexthop := s.data[s.getp..s.getp + n];
    s.getp := s.getp + n;
    if end == s.getp { return Fatal; }
    var snpa := s.Getc();
    if end == s.getp { return Fatal; }
    SliceOf(s.data, start, end, 4, 4 + (n as nat));
    SliceOf(s.data, start, end, 5 + (n as nat), length);
    w := Store(Reach(afi, safi, nexthop, s.data[s.getp..end]));
    s.getp := end;
  }

  /** bgp_mp_unreach_parse. */
  method UnreachGet(s: Stream, length: nat) returns (w: Worth)
    requires s.Valid() && length <= s.Readable()
    modifies s
    ensures s.Valid() && s.data == old(s.data) && s.getp <= old(s.getp) + length
    ensures Kept(w) ==> s.getp == old(s.getp) + length
    ensures w == UnreachWorth(old(s.data[s.getp..s.getp + length]))
  {
    var end := s.getp + length;
    ghost var v := s.data[s.getp..end];
    if length < 3 { return Fatal; }
    var afi := s.Getw();
    var safi := s.Getc();
    assert v[3..] == s.data[s.getp..end];
    w := Store(Unreach(afi, safi, s.data[s.getp..end]));
    s.getp := end;
  }

  function Following(head: seq<SubTlv>, r: Option<seq<SubTlv>>): Option<seq<SubTlv>>
  {
    match r case None => None case Some(tail) => Some(head + tail)
  }

  lemma SubTlvsStep(d: seq<byte>, p: nat, end: nat, head: seq<SubTlv>)
    requires p + 4 <= end <= |d|
    ensures Following(head, SubTlvs(d[p..end])) ==
            if p + 2 + d[p + 1] > end then None
            else Following(head + [SubTlv(d[p], d[p + 2..p + 2 + d[p + 1]])], SubTlvs(d[p + 2 + d[p + 1]..end]))
  {
    var v := d[p..end];
    var n: nat := d[p + 1];
    if p + 2 + n <= end {
      SliceOf(d, p, end, 2, 2 + n);
      SliceOf(d, p, end, 2 + n, end - p);
      var r := SubTlvs(v[2 + n..]);
      if r.Some? {
        var sub := SubTlv(d[p], d[p + 2..p + 2 + n]);
        assert head + ([sub] + r.value) == head + [sub] + r.value;
      }
    }
  }

  /** bgp_attr_encap. */
  method EncapGet(s: Stream, octet: byte, kind: byte, length: nat) returns (w: Worth)
    requires s.Valid() && length <= s.Readable()
    modifies s
    ensures s.Valid() && s.data == old(s.data) && s.getp <= old(s.getp) + length
    ensures Kept(w) ==> s.getp == old(s.getp) + length
    ensures w == EncapWorth(old(Here(s, octet, kind, length)))
  {
    hide SubTlvs, Transitive, Optional;
    var end := s.getp + length;
    if !Transitive(octet) || !Optional(octet) || length < 4 { return Fatal; }
    ghost var v := s.data[s.getp..end];
    var tunnel := s.Getw();
    var inner := s.Getw();
    var left := length - 4;
    var subs: seq<SubTlv> := [];
    assert v[4..] == s.data[s.getp..end];
    ghost var goal := SubTlvs(v[4..]);
    if goal.Some? { assert [] + goal.value == goal.value; }
    while left >= 4
      invariant s.Valid() && s.data == old(s.data) && 0 <= left && s.getp + left == end <= |s.data|
      invariant Following(subs, SubTlvs(s.data[s.getp..end])) == goal
    {
      SubTlvsStep(s.data, s.getp, end, subs);
      var kind' := s.Getc();
      var n := s.Getc();
      left := left - 2;
      if n > left { return Fatal; }
      subs := subs + [SubTlv(kind', s.data[s.getp..s.getp + n])];
      s.getp := s.getp + n;
      left := left - n;
    }
    SubTlvsEnd(s.data[s.getp..end], subs);
    if left != 0 { return Fatal; }
    w := Tunnel(subs);
  }

  lemma SubTlvsEnd(v: seq<byte>, subs: seq<SubTlv>)
    requires |v| < 4
    ensures Following(subs, SubTlvs(v)) == if v == [] then Some(subs) else None
  {
    assert subs + [] == subs;
  }

  /** bgp_attr_unknown: a transitive attribute is marked Partial where it stands
      and kept as it then stands. */
  method UnknownGet(s: Stream, start: nat, octet: byte, kind: byte, length: nat, peer: Peer)
    returns (w: Worth, carried: seq<byte>)
    requires s.Valid() && length <= s.Readable() && start < s.getp && s.data[start] == octet
    modifies s
    ensures s.Valid() && s.getp <= old(s.getp) + length
    ensures Kept(w) ==> s.getp == old(s.getp) + length
    ensures w == UnknownWorth(old(Here(s, octet, kind, length)), peer)
    ensures s.data == if w == Carried then old(s.data)[start := MarkedPartial(octet)] else old(s.data)
    ensures w == Carried ==> carried == s.data[start..old(s.getp) + length]
  {
    carried := [];
    var end := s.getp + length;
    s.getp := end;
    if !Optional(octet) {
      w := Refuse(s, octet, kind, end, peer);
    } else if !Transitive(octet) {
      w := LeftAside;
    } else {
      s.PutcAt(start, MarkedPartial(octet));
      carried := s.data[start..end];
      w := Carried;
    }
  }

  /** The switch of the loop: whatever the type, an attribute that is kept has
      been read to its end exactly, and none is read past it. */
  method ValueGet(s: Stream, start: nat, octet: byte, kind: byte, length: nat, peer: Peer)
    returns (w: Worth, carried: seq<byte>)
    requires s.Valid() && length <= s.Readable() && start < s.getp && s.data[start] == octet
    modifies s
    ensures s.Valid() && s.getp <= old(s.getp) + length
    ensures Kept(w) ==> s.getp == old(s.getp) + length
    ensures w == WorthOf(old(Here(s, octet, kind, length)), peer)
    ensures s.data == if w == Carried then old(s.data)[start := MarkedPartial(octet)] else old(s.data)
    ensures w == Carried ==> carried == s.data[start..old(s.getp) + length]
  {
    hide OriginWorth, PathWorth, NexthopWorth, NumberWorth, AggregatorWorth, ListWorth, StoreOr, ReachWorth,
         UnreachWorth, EncapWorth, UnknownWorth, Malformed;
    carried := [];
    ghost var t := Here(s, octet, kind, length);
    if !FlagsOk(Tlv(octet, kind, [])) {
      w := Refuse(s, octet, kind, s.getp + length, peer);
      assert w == Malformed(t, peer);
      assert w != Carried by { NeverCarried(t, peer); }
      return;
    }
    if kind == AS_PATH || kind == AS4_PATH {
      w := PathGet(s, octet, kind, length, kind == AS4_PATH || peer.as4, peer);
    } else if kind == AGGREGATOR || kind == AS4_AGGREGATOR {
      w := AggregatorGet(s, octet, kind, length, kind == AS4_AGGREGATOR || peer.as4, peer);
    } else if kind == COMMUNITIES || kind == EXT_COMMUNITIES || kind == LARGE_COMMUNITIES {
      var entry := if kind == COMMUNITIES then 4 else if kind == EXT_COMMUNITIES then 8 else 12;
      w := ListGet(s, octet, kind, length, entry, peer);
    } else if kind == ORIGIN || kind == NEXT_HOP || kind == MED || kind == ORIGINATOR_ID || kind == LOCAL_PREF
              || kind == ATOMIC_AGGREGATE || kind == CLUSTER_LIST {
      w := PlainGet(s, octet, kind, length, peer);
    } else if kind == MP_REACH_NLRI {
      w := ReachGet(s, length);
    } else if kind == MP_UNREACH_NLRI {
      w := UnreachGet(s, length);
    } else if kind == ENCAP {
      w := EncapGet(s, octet, kind, length);
    } else {
      w, carried := UnknownGet(s, start, octet, kind, length, peer);
      return;
    }
    assert w != Carried by { KnownNeverCarried(t, peer); }
  }

  method PlainGet(s: Stream, octet: byte, kind: byte, length: nat, peer: Peer) returns (w: Worth)
    requires s.Valid() && length <= s.Readable() && FlagsOk(Tlv(octet, kind, []))
    requires kind == ORIGIN || kind == NEXT_HOP || kind == MED || kind == ORIGINATOR_ID || kind == LOCAL_PREF
             || kind == ATOMIC_AGGREGATE || kind == CLUSTER_LIST
    modifies s
    ensures s.Valid() && s.data == old(s.data) && s.getp <= old(s.getp) + length
    ensures Kept(w) ==> s.getp == old(s.getp) + length
    ensures w == WorthOf(old(Here(s, octet, kind, length)), peer)
  {
    hide OriginWorth, NexthopWorth, NumberWorth, StoreOr, Malformed;
    if kind == ORIGIN {
      w := OriginGet(s, octet, kind, length, peer);
    } else if kind == NEXT_HOP {
      w := NexthopGet(s, octet, kind, length, peer);
    } else if kind == ATOMIC_AGGREGATE {
      w := AtomicGet(s, octet, kind, length, peer);
    } else if kind == CLUSTER_LIST {
      w := ClusterGet(s, octet, kind, length, peer);
    } else {
      w := NumberGet(s, octet, kind, length, peer);
    }
  }

  lemma NeverCarried(t: Tlv, peer: Peer)
    ensures Malformed(t, peer) != Carried
  {
  }

  lemma KnownNeverCarried(t: Tlv, peer: Peer)
    requires FlagsOk(t)
    requires t.kind in Known
    ensures WorthOf(t, peer) != Carried
  {
  }

  const Known: set<byte> := {ORIGIN, AS_PATH, NEXT_HOP, MED, LOCAL_PREF, ATOMIC_AGGREGATE, AGGREGATOR, COMMUNITIES,
                             ORIGINATOR_ID, CLUSTER_LIST, MP_REACH_NLRI, MP_UNREACH_NLRI, EXT_COMMUNITIES,
                             AS4_PATH, AS4_AGGREGATOR, ENCAP, LARGE_COMMUNITIES}

  // ------------------------------------------------------------------ the loop

  datatype Heading = Heading(octet: byte, kind: byte, length: nat)

  /** Flag, type and length of the attribute at the cursor, with end as the end
      of the area. */
  method HeadGet(s: Stream, end: nat) returns (h: Option<Heading>)
    requires s.Valid() && s.getp < end <= |s.data|
    modifies s
    ensures s.Valid() && s.data == old(s.data) && s.getp <= end
    ensures var t := Head(old(s.data[s.getp..end]));
            && (h.Some? && s.getp + h.value.length <= end <==> t.Some?)
            && (t.Some? ==> && h.value == Heading(t.value.octet, t.value.kind, |t.value.value|)
                            && t.value.value == s.data[s.getp..s.getp + h.value.length]
                            && Encodable(t.value) && s.getp + h.value.length == old(s.getp) + |TlvBytes(t.value)|)
    ensures h.Some? ==> old(s.getp) < s.getp && s.data[old(s.getp)] == h.value.octet
  {
    ghost var start := s.getp;
    ghost var b := s.data[start..end];
    HeadExact(b);
    if end - s.getp < 3 { return None; }
    var octet := s.Getc();
    var kind := s.Getc();
    assert octet == b[0] && kind == b[1];
    if Extended(octet) && end - s.getp < 2 { return None; }
    var length: nat := 0;
    if Extended(octet) {
      length := s.Getw();
      assert length == FromU16(b[2], b[3]);
    } else {
      length := s.Getc();
      assert length == b[2];
    }
    h := Some(Heading(octet, kind, length));
    if s.getp + length <= end {
      SliceOf(s.data, start, end, s.getp - start, s.getp - start + length);
    }
  }

  lemma LoopStep(d: seq<byte>, p: nat, end: nat, seen: set<byte>, a: Attrs, peer: Peer)
    requires p < end <= |d|
    ensures var t := Head(d[p..end]);
            t.Some? ==> Encodable(t.value) && p + |TlvBytes(t.value)| <= end
    ensures var t := Head(d[p..end]);
            Loop(d[p..end], seen, a, peer) ==
            if t == None || t.value.kind in seen || WorthOf(t.value, peer) == Fatal then Failed
            else if WorthOf(t.value, peer) == Withdrawn then Withdraw
            else
              var b := Applied(a, t.value, WorthOf(t.value, peer));
              Loop(d[p + |TlvBytes(t.value)|..end], seen + {t.value.kind}, b, peer)
    ensures var t := Head(d[p..end]); t.Some? ==> d[p..p + |TlvBytes(t.value)|] == TlvBytes(t.value)
  {
    hide Head, WorthOf, Applied, TlvBytes;
    var b := d[p..end];
    HeadExact(b);
    if Head(b).Some? {
      var n := |TlvBytes(Head(b).value)|;
      SliceOf(d, p, end, n, end - p);
      SliceOf(d, p, end, 0, n);
      assert b[0..n] == b[..n];
    }
  }

  /** The attribute as it is kept, given what its value came to. */
  method Keep(a: Attrs, ghost t: Tlv, kind: byte, w: Worth, carried: seq<byte>) returns (r: Attrs)
    requires Encodable(t) && t.kind == kind && (w == Carried ==> carried == TlvBytes(t)[0 := MarkedPartial(t.octet)])
    ensures r == Applied(a, t, w)
  {
    match w {
      case Store(v) => r := a.(stored := a.stored[kind := v]);
      case Carried => r := a.(transit := a.transit + carried);
      case Tunnel(subs) => r := a.(tunnel := a.tunnel + subs);
      case _ => r := a;
    }
  }

  /** One turn of the loop. The cursor is where the attribute ends, so the check
      that follows in the original never fails. */
  method OneGet(s: Stream, end: nat, seen: set<byte>, a: Attrs, peer: Peer) returns (r: Result, kind: byte)
    requires s.Valid() && s.getp < end <= |s.data|
    modifies s
    ensures s.Valid() && s.getp <= end && |s.data| == |old(s.data)| && s.data[s.getp..] == old(s.data)[s.getp..]
    ensures !r.Done? ==> r == Loop(old(s.data[s.getp..end]), seen, a, peer)
    ensures r.Done? ==> && old(s.getp) < s.getp
                        && Loop(old(s.data[s.getp..end]), seen, a, peer) ==
                            Loop(s.data[s.getp..end], seen + {kind}, r.attrs, peer)
  {
    hide Loop, Head, WorthOf, TlvBytes, MarkedPartial, Applied, Encodable;
    var start := s.getp;
    ghost var d := s.data;
    ghost var t := Head(d[start..end]);
    LoopStep(d, start, end, seen, a, peer);
    kind := 0;
    var h := HeadGet(s, end);
    if h == None { return Failed, kind; }
    kind := h.value.kind;
    if s.getp + h.value.length > end || kind in seen { return Failed, kind; }
    var w, carried := ValueGet(s, start, h.value.octet, kind, h.value.length, peer);
    if w == Fatal { return Failed, kind; }
    if w == Withdrawn { return Withdraw, kind; }
    assert s.getp == start + |TlvBytes(t.value)|;
    if w == Carried { CarriedBytes(d, start, s.getp, MarkedPartial(h.value.octet)); }
    var a' := Keep(a, t.value, kind, w, carried);
    r := Done(a');
    assert s.data[s.getp..end] == d[s.getp..end];
  }

  lemma CarriedBytes(d: seq<byte>, start: nat, end: nat, o: byte)
    requires start < end <= |d|
    ensures d[start := o][start..end] == d[start..end][0 := o]
    ensures d[start := o][end..] == d[end..]
  {
  }

  lemma SameTail(d: seq<byte>, e: seq<byte>, p: nat, q: nat)
    requires p <= q <= |d| == |e| && d[p..] == e[p..]
    ensures d[q..] == e[q..]
  {
    assert d[q..] == d[p..][q - p..] && e[q..] == e[p..][q - p..];
  }

  lemma NothingLeft(seen: set<byte>, a: Attrs, peer: Peer)
    ensures Loop([], seen, a, peer) == Done(a)
  {
  }

  /** The loop of bgp_attr_parse over exactly size octets. */
  method LoopGet(s: Stream, size: nat, peer: Peer) returns (r: Result)
    requires s.Valid() && size <= s.Readable()
    modifies s
    ensures s.Valid() && s.getp <= old(s.getp) + size
    ensures r == Loop(old(s.data[s.getp..s.getp + size]), {}, Empty, peer)
    ensures r.Done? ==> s.getp == old(s.getp) + size
    ensures |s.data| == |old(s.data)| && s.data[old(s.getp) + size..] == old(s.data[s.getp + size..])
  {
    hide Loop, Head, WorthOf, TlvBytes, MarkedPartial, Kept;
    var end := s.getp + size;
    var seen: set<byte> := {};
    var a := Empty;
    ghost var goal := Loop(s.data[s.getp..end], {}, Empty, peer);
    while s.getp < end
      invariant s.Valid() && old(s.getp) <= s.getp <= end <= |s.data|
      invariant |s.data| == |old(s.data)| && s.data[s.getp..] == old(s.data)[s.getp..]
      invariant Loop(s.data[s.getp..end], seen, a, peer) == goal
      decreases end - s.getp
    {
      var kind;
      ghost var before, at := s.data, s.getp;
      r, kind := OneGet(s, end, seen, a, peer);
      SameTail(before, old(s.data), at, end);
      SameTail(s.data, before, s.getp, end);
      if !r.Done? { return; }
      seen, a := seen + {kind}, r.attrs;
    }
    NothingLeft(seen, a, peer);
    assert s.data[end..end] == [];
    r := Done(a);
  }

  /** bgp_attr_munge_as4_attrs. */
  method MungeAs4(a: Attrs, peer: Peer) returns (r: Attrs)
    requires Typed(a)
    ensures r == Munged(a, peer)
  {
    hide As4.Reconcile;
    r := a;
    if AS_PATH !in a.stored || peer.as4 { return; }
    var ignore := false;
    if AS4_AGGREGATOR in a.stored {
      if AGGREGATOR in a.stored {
        if a.stored[AGGREGATOR].asn != BGP_AS_TRANS {
          ignore := true;
        } else {
          r := r.(stored := r.stored[AGGREGATOR := a.stored[AS4_AGGREGATOR]]);
        }
      } else {
        r := r.(stored := r.stored[AGGREGATOR := AggregatedBy(a.stored[AS4_AGGREGATOR].asn, 0)]);
      }
    }
    if !ignore && AS4_PATH in a.stored {
      var aspath := new Chain(a.stored[AS_PATH].path);
      var as4path := new Chain(a.stored[AS4_PATH].path);
      var merged := As4.ReconcileAs4(aspath, as4path);
      r := r.(stored := r.stored[AS_PATH := PathOf(merged.segments)]);
    }
  }

  /** aspath_confed_check. */
  method ConfedCheck(p: Path) returns (found: bool)
    ensures found <==> !ConfedFree(p)
  {
    var i := 0;
    while i < |p|
      invariant i <= |p| && forall k :: 0 <= k < i ==> !IsConfedKind(p[k].kind)
    {
      if p[i].kind == AsConfedSequence || p[i].kind == AsConfedSet { return true; }
      i := i + 1;
    }
    return false;
  }

  /** The refusals of bgp_attr_aspath_check. */
  method PathCheck(p: Path, peer: Peer) returns (ok: bool)
    ensures ok == PathOk(p, peer)
  {
    if peer.sort == Confed && !LeftConfed(p) { return false; }
    if peer.sort == Ebgp {
      var found := ConfedCheck(p);
      if found { return false; }
      if peer.enforceFirst && !FirstIs(p, peer.asn) { return false; }
    }
    return true;
  }

  /** What follows the loop: mandatory attributes, the AS4 merge, the checks of
      the merged path and the local-as prepend. */
  method Finish(a: Attrs, peer: Peer) returns (r: Result)
    requires Typed(a)
    ensures r == Concluded(a, peer)
  {
    hide Munged, PathOk, Prepended;
    if !Complete(a, peer) { return Failed; }
    var m := MungeAs4(a, peer);
    if AS_PATH in m.stored {
      var ok := PathCheck(m.stored[AS_PATH].path, peer);
      if !ok { return Failed; }
      m := m.(stored := m.stored[AS_PATH := PathOf(Prepended(m.stored[AS_PATH].path, peer))]);
    }
    r := Done(m);
  }

  /** bgp_attr_parse: on success exactly size octets are consumed, and in no
      case is the cursor moved beyond them. */
  method AttrsGet(s: Stream, size: nat, peer: Peer) returns (r: Result)
    requires s.Valid() && size <= s.Readable()
    modifies s
    ensures s.Valid() && s.getp <= old(s.getp) + size
    ensures |s.data| == |old(s.data)| && s.data[old(s.getp) + size..] == old(s.data[s.getp + size..])
    ensures r == ParseAttrs(old(s.data[s.getp..s.getp + size]), peer)
    ensures r.Done? ==> s.getp == old(s.getp) + size
  {
    hide Loop, Concluded;
    LoopTyped(s.data[s.getp..s.getp + size], {}, Empty, peer);
    r := LoopGet(s, size, peer);
    if r.Done? { r := Finish(r.attrs, peer); }
  }
}
