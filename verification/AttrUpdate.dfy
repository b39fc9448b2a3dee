/** A route's attributes from bgp_packet_attribute through bgp_attr_parse: what
    one speaker writes for an IPv4 unicast route is what the other one stores. */
module AttrUpdate {
  import opened Lists
  import opened Wire
  import opened AsPath
  import opened AsPathCodec
  import opened AttrParse
  import As4

  datatype Aggregator = Aggregator(asn: Asn, addr: nat)

  datatype Route = Route(
    origin: byte, path: Path, nexthop: nat,
    med: Option<nat>, localPref: nat, atomic: bool, aggregator: Option<Aggregator>)

  predicate IsWord(n: nat) { n < 0x1_0000_0000 }

  /** Routes that can be written: attributes in range, a path in the form stored
      paths have, and encodings that fit a 16-bit length. */
  predicate Sendable(r: Route)
  {
    && r.origin <= 2 && IsWord(r.nexthop) && !Martian(r.nexthop) && IsWord(r.localPref)
    && (r.med.Some? ==> IsWord(r.med.value)) && (r.aggregator.Some? ==> IsWord(r.aggregator.value.addr))
    && WireForm(r.path) && |PathBytes(r.path, true)| < 0x1_0000 && |PathBytes(r.path, false)| < 0x1_0000
    && |PathBytes(As4.Stripped(r.path), true)| < 0x1_0000
  }

  function AggregatorBytes(g: Aggregator, use32bit: bool): seq<byte>
    requires IsWord(g.addr)
  {
    AsnBytes(g.asn, use32bit) + U32(g.addr)
  }

  /** The attributes bgp_packet_attribute writes, in its order. */
  function Candidates(r: Route, sort: Sort, as4: bool): (cs: seq<Option<Tlv>>)
    requires Sendable(r)
  {
    [ Some(Tlv(0x40, ORIGIN, [r.origin])),
      Some(Tlv(0x50, AS_PATH, PathBytes(r.path, as4))),
      Some(Tlv(0x40, NEXT_HOP, U32(r.nexthop))),
      if r.med.Some? then Some(Tlv(0x80, MED, U32(r.med.value))) else None,
      if sort != Ebgp then Some(Tlv(0x40, LOCAL_PREF, U32(r.localPref))) else None,
      if r.atomic then Some(Tlv(0x40, ATOMIC_AGGREGATE, [])) else None,
      if r.aggregator.Some? then Some(Tlv(0xC0, AGGREGATOR, AggregatorBytes(r.aggregator.value, as4))) else None,
      if !as4 && As4.HasAs4(r.path) then Some(Tlv(0xD0, AS4_PATH, PathBytes(As4.Stripped(r.path), true))) else None,
      if !as4 && r.aggregator.Some? && r.aggregator.value.asn > BGP_AS_MAX
      then Some(Tlv(0xC0, AS4_AGGREGATOR, AggregatorBytes(r.aggregator.value, true))) else None ]
  }

  const Kinds: seq<byte> := [
    ORIGIN, AS_PATH, NEXT_HOP, MED, LOCAL_PREF, ATOMIC_AGGREGATE, AGGREGATOR, AS4_PATH, AS4_AGGREGATOR]

  function Chosen(cs: seq<Option<Tlv>>): seq<Tlv>
  {
    if cs == [] then [] else (if cs[0].Some? then [cs[0].value] else []) + Chosen(cs[1..])
  }

  predicate KindsDiffer(cs: seq<Option<Tlv>>)
  {
    forall i, j :: 0 <= i < j < |cs| && cs[i].Some? && cs[j].Some? ==> cs[i].value.kind != cs[j].value.kind
  }

  lemma {:induction false} ChosenExact(cs: seq<Option<Tlv>>)
    requires KindsDiffer(cs)
    ensures Distinct(Chosen(cs)) && forall t :: t in Chosen(cs) <==> Some(t) in cs
  {
    if cs != [] {
      var rest := Chosen(cs[1..]);
      ChosenExact(cs[1..]);
      assert cs == [cs[0]] + cs[1..];
      if cs[0].Some? {
        forall u | u in rest ensures u.kind != cs[0].value.kind {
          assert Some(u) in cs[1..];
          var i :| 0 <= i < |cs| - 1 && cs[1..][i] == Some(u);
          assert cs[i + 1] == Some(u);
        }
        DistinctCons(cs[0].value, rest);
      } else {
        assert Chosen(cs) == rest;
      }
    }
  }

  /** What each attribute of a route is worth to the receiver. */
  function Worths(r: Route, peer: Peer): seq<Value>
  {
    [ Number(r.origin),
      PathOf(if peer.as4 then r.path else Normalise(SentPath(r.path, false))),
      Number(r.nexthop),
      Number(if r.med.Some? then r.med.value else 0),
      Number(r.localPref),
      Present,
      if r.aggregator.Some?
      then AggregatedBy(Sent(r.aggregator.value.asn, peer.as4), r.aggregator.value.addr) else Present,
      PathOf(As4.Stripped(r.path)),
      if r.aggregator.Some? then AggregatedBy(r.aggregator.value.asn, r.aggregator.value.addr) else Present ]
  }

  lemma AggregatorWorths(g: Aggregator, use32bit: bool, t: Tlv, peer: Peer)
    requires IsWord(g.addr) && t.value == AggregatorBytes(g, use32bit)
    ensures AggregatorWorth(t, use32bit, peer) == Store(AggregatedBy(Sent(g.asn, use32bit), g.addr))
  {
    var v := t.value;
    if use32bit {
      assert v[..4] == U32(g.asn) && v[4..] == U32(g.addr);
    } else {
      assert v[2..] == U32(g.addr);
    }
  }

  lemma PathWorths(r: Route, peer: Peer)
    requires Sendable(r)
    ensures PathWorth(Tlv(0x50, AS_PATH, PathBytes(r.path, peer.as4)), peer.as4, peer) == Store(Worths(r, peer)[1])
    ensures PathWorth(Tlv(0xD0, AS4_PATH, PathBytes(As4.Stripped(r.path), true)), true, peer) ==
            Store(Worths(r, peer)[7])
  {
    hide Parse, PathBytes, WireForm, As4.Stripped;
    As4.ParseSent16(r.path);
    As4.ParseSent32(r.path);
    As4.StrippedSuffix(r.path);
    As4.WireFormSuffix(r.path, |r.path| - |As4.Stripped(r.path)|);
    As4.ParseSent32(As4.Stripped(r.path));
  }

  lemma SimpleWorths(r: Route, peer: Peer)
    requires Sendable(r)
    ensures WorthOf(Tlv(0x40, ORIGIN, [r.origin]), peer) == Store(Number(r.origin))
    ensures WorthOf(Tlv(0x40, NEXT_HOP, U32(r.nexthop)), peer) == Store(Number(r.nexthop))
    ensures r.med.Some? ==> WorthOf(Tlv(0x80, MED, U32(r.med.value)), peer) == Store(Number(r.med.value))
    ensures peer.sort != Ebgp ==> WorthOf(Tlv(0x40, LOCAL_PREF, U32(r.localPref)), peer) == Store(Number(r.localPref))
    ensures WorthOf(Tlv(0x40, ATOMIC_AGGREGATE, []), peer) == Store(Present)
  {
    hide PathWorth, AggregatorWorth, ListWorth, ReachWorth, UnreachWorth, EncapWorth, UnknownWorth, Malformed,
         PathBytes, WireForm;
  }

  lemma KindWorths(peer: Peer, v: seq<byte>)
    ensures WorthOf(Tlv(0x50, AS_PATH, v), peer) == PathWorth(Tlv(0x50, AS_PATH, v), peer.as4, peer)
    ensures WorthOf(Tlv(0xD0, AS4_PATH, v), peer) == PathWorth(Tlv(0xD0, AS4_PATH, v), true, peer)
    ensures WorthOf(Tlv(0xC0, AGGREGATOR, v), peer) == AggregatorWorth(Tlv(0xC0, AGGREGATOR, v), peer.as4, peer)
    ensures WorthOf(Tlv(0xC0, AS4_AGGREGATOR, v), peer) == AggregatorWorth(Tlv(0xC0, AS4_AGGREGATOR, v), true, peer)
  {
    hide PathWorth, AggregatorWorth, Malformed;
  }

  predicate AsExpected(c: Option<Tlv>, kind: byte, v: Value, peer: Peer)
  {
    c.Some? ==> Encodable(c.value) && c.value.kind == kind && WorthOf(c.value, peer) == Store(v)
  }

  lemma CandidateWorths(r: Route, peer: Peer)
    requires Sendable(r)
    ensures forall i :: 0 <= i < 9 ==>
            AsExpected(Candidates(r, peer.sort, peer.as4)[i], Kinds[i], Worths(r, peer)[i], peer)
  {
    hide WorthOf, PathWorth, AggregatorWorth, PathBytes, AggregatorBytes, Normalise, SentPath, WireForm, As4.Stripped;
    var cs := Candidates(r, peer.sort, peer.as4);
    SimpleWorths(r, peer);
    PathWorths(r, peer);
    KindWorths(peer, PathBytes(r.path, peer.as4));
    KindWorths(peer, PathBytes(As4.Stripped(r.path), true));
    if r.aggregator.Some? {
      var g := r.aggregator.value;
      AggregatorSizes(g);
      KindWorths(peer, AggregatorBytes(g, peer.as4));
      KindWorths(peer, AggregatorBytes(g, true));
      AggregatorWorths(g, peer.as4, Tlv(0xC0, AGGREGATOR, AggregatorBytes(g, peer.as4)), peer);
      AggregatorWorths(g, true, Tlv(0xC0, AS4_AGGREGATOR, AggregatorBytes(g, true)), peer);
    }
  }

  lemma AggregatorSizes(g: Aggregator)
    requires IsWord(g.addr)
    ensures |AggregatorBytes(g, true)| == 8 && |AggregatorBytes(g, false)| == 6
  {
  }

  // ------------------------------------------------------ what gets collected

  predicate AllExpected(cs: seq<Option<Tlv>>, vs: seq<Value>, peer: Peer)
  {
    |cs| == |vs| == |Kinds| && forall i :: 0 <= i < |cs| ==> AsExpected(cs[i], Kinds[i], vs[i], peer)
  }

  lemma ExpectedDiffer(cs: seq<Option<Tlv>>, vs: seq<Value>, peer: Peer)
    requires AllExpected(cs, vs, peer)
    ensures KindsDiffer(cs)
  {
    hide WorthOf;
    forall i, j | 0 <= i < j < |cs| && cs[i].Some? && cs[j].Some? ensures cs[i].value.kind != cs[j].value.kind {
      assert AsExpected(cs[i], Kinds[i], vs[i], peer) && AsExpected(cs[j], Kinds[j], vs[j], peer);
      assert Kinds[i] < Kinds[j];
    }
  }

  lemma ExpectedAcceptable(cs: seq<Option<Tlv>>, vs: seq<Value>, peer: Peer)
    requires AllExpected(cs, vs, peer)
    ensures forall t :: t in Chosen(cs) ==> Encodable(t) && WorthOf(t, peer).Store?
    ensures Acceptable(Chosen(cs), {}, peer)
  {
    hide WorthOf, Chosen;
    ExpectedDiffer(cs, vs, peer);
    ChosenExact(cs);
    forall t | t in Chosen(cs) ensures Encodable(t) && WorthOf(t, peer).Store? {
      assert Some(t) in cs;
      var i :| 0 <= i < |cs| && cs[i] == Some(t);
      assert AsExpected(cs[i], Kinds[i], vs[i], peer);
    }
  }

  /** Stored under the i-th type is the i-th value, if it was sent. */
  lemma StoredAt(cs: seq<Option<Tlv>>, vs: seq<Value>, peer: Peer, i: nat)
    requires AllExpected(cs, vs, peer) && i < |cs|
    requires forall t :: t in Chosen(cs) ==> Encodable(t)
    ensures var s := Collected(Chosen(cs), Empty, peer).stored;
            (Kinds[i] in s <==> cs[i].Some?) && (cs[i].Some? ==> s[Kinds[i]] == vs[i])
  {
    hide WorthOf, Chosen, Collected;
    ExpectedDiffer(cs, vs, peer);
    ChosenExact(cs);
    var ts := Chosen(cs);
    assert AsExpected(cs[i], Kinds[i], vs[i], peer);
    if cs[i].Some? {
      assert cs[i].value in ts;
      var j :| 0 <= j < |ts| && ts[j] == cs[i].value;
      CollectedAt(ts, Empty, peer, j);
    } else {
      forall t | t in ts ensures t.kind != Kinds[i] {
        assert Some(t) in cs;
        var j :| 0 <= j < |cs| && cs[j] == Some(t);
        assert AsExpected(cs[j], Kinds[j], vs[j], peer);
        KindsApart(i, j);
      }
      CollectedElse(ts, Empty, peer, Kinds[i]);
    }
  }

  lemma KindsApart(i: nat, j: nat)
    requires i < |Kinds| && j < |Kinds| && i != j
    ensures Kinds[i] != Kinds[j]
  {
  }

  lemma {:induction false} NothingAside(ts: seq<Tlv>, a: Attrs, peer: Peer)
    requires forall t :: t in ts ==> Encodable(t) && WorthOf(t, peer).Store?
    ensures Collected(ts, a, peer).transit == a.transit && Collected(ts, a, peer).tunnel == a.tunnel
    decreases |ts|
  {
    hide WorthOf;
    if ts != [] {
      assert ts[0] in ts;
      NothingAside(ts[1..], Applied(a, ts[0], WorthOf(ts[0], peer)), peer);
    }
  }

  // --------------------------------------------------------------- end to end

  /** The octets of a route's attributes as sent to a peer. */
  function Sending(r: Route, peer: Peer): (b: seq<byte>)
    requires Sendable(r)
  {
    CandidatesEncodable(r, peer);
    Flatten(Chosen(Candidates(r, peer.sort, peer.as4)))
  }

  lemma CandidatesEncodable(r: Route, peer: Peer)
    requires Sendable(r)
    ensures var cs := Candidates(r, peer.sort, peer.as4);
            && AllExpected(cs, Worths(r, peer), peer)
            && (forall t :: t in Chosen(cs) ==> Encodable(t) && WorthOf(t, peer).Store?)
            && Acceptable(Chosen(cs), {}, peer)
  {
    hide Candidates, Worths, Chosen, Acceptable, AsExpected, WorthOf;
    CandidateWorths(r, peer);
    CandidateCount(r, peer);
    ExpectedAcceptable(Candidates(r, peer.sort, peer.as4), Worths(r, peer), peer);
  }

  lemma CandidateCount(r: Route, peer: Peer)
    requires Sendable(r)
    ensures |Candidates(r, peer.sort, peer.as4)| == |Worths(r, peer)| == |Kinds|
  {
  }

  /** A route received with path p: the very attributes that were sent,
      LOCAL_PREF only inside the AS, and nothing that was not sent. */
  predicate Received(a: Attrs, r: Route, p: Path, peer: Peer)
  {
    var s := a.stored;
    && ORIGIN in s && s[ORIGIN] == Number(r.origin)
    && AS_PATH in s && s[AS_PATH] == PathOf(p)
    && NEXT_HOP in s && s[NEXT_HOP] == Number(r.nexthop)
    && (MED in s <==> r.med.Some?) && (r.med.Some? ==> s[MED] == Number(r.med.value))
    && (LOCAL_PREF in s <==> peer.sort != Ebgp) && (peer.sort != Ebgp ==> s[LOCAL_PREF] == Number(r.localPref))
    && (ATOMIC_AGGREGATE in s <==> r.atomic)
    && (AGGREGATOR in s <==> r.aggregator.Some?)
    && (r.aggregator.Some? ==> s[AGGREGATOR] == AggregatedBy(r.aggregator.value.asn, r.aggregator.value.addr))
    && a.transit == [] && a.tunnel == []
  }

  /** What the loop has collected, before the AS4 attributes are merged in. */
  predicate Collecting(a: Attrs, cs: seq<Option<Tlv>>, vs: seq<Value>)
  {
    && |cs| == |vs| == |Kinds| && a.transit == [] && a.tunnel == []
    && forall i :: 0 <= i < |Kinds| ==>
        (Kinds[i] in a.stored <==> cs[i].Some?) && (cs[i].Some? ==> a.stored[Kinds[i]] == vs[i])
  }

  lemma SentCollected(r: Route, peer: Peer)
    requires Sendable(r)
    ensures var l := Loop(Sending(r, peer), {}, Empty, peer);
            l.Done? && Collecting(l.attrs, Candidates(r, peer.sort, peer.as4), Worths(r, peer))
  {
    hide Candidates, Worths, Chosen, Loop, Split, Flatten, Acceptable, AllExpected, Collected, WorthOf;
    CandidatesEncodable(r, peer);
    CandidateCount(r, peer);
    var cs, vs := Candidates(r, peer.sort, peer.as4), Worths(r, peer);
    SplitFlatten(Chosen(cs));
    LoopAccepts(Sending(r, peer), {}, Empty, peer);
    NothingAside(Chosen(cs), Empty, peer);
    forall i | 0 <= i < |Kinds|
      ensures var s := Collected(Chosen(cs), Empty, peer).stored;
              (Kinds[i] in s <==> cs[i].Some?) && (cs[i].Some? ==> s[Kinds[i]] == vs[i])
    {
      StoredAt(cs, vs, peer, i);
    }
  }

  /** The path that arrives: as sent to a 4-octet speaker, and to a 2-octet one
      except for wide numbers of a confederation in front. */
  function Arriving(p: Path, as4: bool): Path { if as4 then p else As4.Received16(p) }

  /** Wide numbers go with confederation segments only in front. */
  predicate Recoverable(p: Path, as4: bool) { as4 || !As4.HasAs4(p) || ConfedFree(As4.Stripped(p)) }

  lemma PathMerged(p: Path)
    requires WireForm(p) && Recoverable(p, false)
    ensures As4.HasAs4(p) ==> As4.Reconcile(Normalise(SentPath(p, false)), As4.Stripped(p)) == As4.Received16(p)
    ensures !As4.HasAs4(p) ==> Normalise(SentPath(p, false)) == As4.Received16(p)
  {
    hide Normalise, SentPath, As4.Reconcile;
    if As4.HasAs4(p) {
      As4.ConfedPathMerged(p);
    } else {
      As4.SentFits(p);
      NormalFixed(p);
    }
  }

  ghost predicate Untouched(a: Attrs, b: Attrs)
  {
    && a.transit == b.transit && a.tunnel == b.tunnel
    && forall k :: k != AS_PATH && k != AGGREGATOR ==>
         (k in a.stored <==> k in b.stored) && (k in a.stored ==> a.stored[k] == b.stored[k])
  }

  lemma MungeTouches(a: Attrs, peer: Peer)
    requires Typed(a)
    ensures Untouched(a, Munged(a, peer))
  {
    hide As4.Reconcile;
  }

  /** The plain attributes of a collected route. */
  lemma PlainReceived(a: Attrs, r: Route, peer: Peer)
    requires Sendable(r) && Collecting(a, Candidates(r, peer.sort, peer.as4), Worths(r, peer))
    ensures var s := a.stored;
      && ORIGIN in s && s[ORIGIN] == Number(r.origin) && AS_PATH in s
      && NEXT_HOP in s && s[NEXT_HOP] == Number(r.nexthop)
      && (MED in s <==> r.med.Some?) && (r.med.Some? ==> s[MED] == Number(r.med.value))
      && (LOCAL_PREF in s <==> peer.sort != Ebgp) && (peer.sort != Ebgp ==> s[LOCAL_PREF] == Number(r.localPref))
      && (ATOMIC_AGGREGATE in s <==> r.atomic)
  {
    hide PathBytes, WireForm, As4.Stripped, Normalise, SentPath, As4.HasAs4, AggregatorBytes;
    assert Kinds[0] == ORIGIN && Kinds[1] == AS_PATH && Kinds[2] == NEXT_HOP;
    assert Kinds[3] == MED && Kinds[4] == LOCAL_PREF && Kinds[5] == ATOMIC_AGGREGATE;
  }

  /** The attributes with an AS4 form, merged. */
  lemma As4Received(a: Attrs, r: Route, peer: Peer)
    requires Sendable(r) && Recoverable(r.path, peer.as4)
    requires Typed(a) && Collecting(a, Candidates(r, peer.sort, peer.as4), Worths(r, peer))
    ensures var s := Munged(a, peer).stored;
      && AS_PATH in s && s[AS_PATH] == PathOf(Arriving(r.path, peer.as4))
      && (AGGREGATOR in s <==> r.aggregator.Some?)
      && (r.aggregator.Some? ==> s[AGGREGATOR] == AggregatedBy(r.aggregator.value.asn, r.aggregator.value.addr))
  {
    hide PathBytes, Normalise, SentPath, WireForm, As4.Stripped, As4.Reconcile, As4.HasAs4, As4.Received16,
         AggregatorBytes;
    if !peer.as4 { PathMerged(r.path); }
    assert Kinds[1] == AS_PATH && Kinds[6] == AGGREGATOR && Kinds[7] == AS4_PATH && Kinds[8] == AS4_AGGREGATOR;
  }

  lemma MergedReceived(a: Attrs, r: Route, peer: Peer)
    requires Sendable(r) && Recoverable(r.path, peer.as4)
    requires Typed(a) && Collecting(a, Candidates(r, peer.sort, peer.as4), Worths(r, peer))
    ensures Complete(a, peer) && Received(Munged(a, peer), r, Arriving(r.path, peer.as4), peer)
  {
    hide Sendable, Candidates, Worths, Munged, Typed, Arriving, Recoverable;
    PlainReceived(a, r, peer);
    As4Received(a, r, peer);
    MungeTouches(a, peer);
  }

  lemma OtherPath(a: Attrs, r: Route, p: Path, q: Path, peer: Peer)
    requires Received(a, r, p, peer)
    ensures AS_PATH in a.stored && a.stored[AS_PATH] == PathOf(p)
    ensures Received(a.(stored := a.stored[AS_PATH := PathOf(q)]), r, q, peer)
  {
  }

  /** A written route is accepted exactly when its path is one the peer may send,
      and then every attribute arrives intact: to a 4-octet speaker directly, to
      a 2-octet speaker by way of AS_TRANS, AS4_PATH and AS4_AGGREGATOR. */
  lemma RouteSurvives(r: Route, peer: Peer)
    requires Sendable(r) && Recoverable(r.path, peer.as4)
    ensures var u := ParseAttrs(Sending(r, peer), peer);
            var p := Arriving(r.path, peer.as4);
            (u.Done? <==> PathOk(p, peer)) && (u.Done? ==> Received(u.attrs, r, Prepended(p, peer), peer))
  {
    hide Sending, Loop, Collecting, Complete, Munged, Arriving, Recoverable, PathOk, Prepended, Received;
    SentCollected(r, peer);
    LoopTyped(Sending(r, peer), {}, Empty, peer);
    var a := Loop(Sending(r, peer), {}, Empty, peer).attrs;
    MergedReceived(a, r, peer);
    var p := Arriving(r.path, peer.as4);
    OtherPath(Munged(a, peer), r, p, Prepended(p, peer), peer);
  }

  // ------------------------------------------------------------- both speakers

  /** What the sender consults about itself and the peer. */
  datatype Sender = Sender(
    localAs: Asn, changeLocalAs: Option<Asn>, replaceAs: bool, confedId: Option<Asn>,
    transparent: bool,        // PEER_FLAG_AS_PATH_UNCHANGED
    rsClient: bool)           // PEER_FLAG_RSERVER_CLIENT

  predicate Prepends(p: Path, sort: Sort, s: Sender) { sort == Ebgp && (!s.transparent || p == []) && !s.rsClient }

  /** The number the peer knows the sender by. */
  function KnownAs(s: Sender): Asn
  {
    if s.confedId.Some? then s.confedId.value else if s.changeLocalAs.Some? then s.changeLocalAs.value else s.localAs
  }

  /** aspath_add_confed_seq. */
  function AddConfedSeq(p: Path, a: Asn): Path
  {
    if p != [] && p[0].kind == AsConfedSequence then [Segment(AsConfedSequence, [a] + p[0].asns)] + p[1..]
    else if p != [] && p[0].asns == [] then [Segment(AsConfedSequence, [a])] + p[1..]
    else [Segment(AsConfedSequence, [a])] + p
  }

  /** The path bgp_packet_attribute sends in place of the stored one. */
  function Outgoing(p: Path, sort: Sort, s: Sender): Path
  {
    if Prepends(p, sort, s) then
      if s.confedId.Some? then As4.AddSeq(As4.Stripped(p), s.confedId.value)
      else if s.changeLocalAs.Some? then
        As4.AddSeq(if s.replaceAs then p else As4.AddSeq(p, s.localAs), s.changeLocalAs.value)
      else As4.AddSeq(p, s.localAs)
    else if sort == Confed then AddConfedSeq(p, s.localAs)
    else p
  }

  /** To an external peer that knows the sender by its number: no confederation
      segment goes out, and if the first number is enforced it is put there. */
  predicate MaySend(p: Path, s: Sender, peer: Peer)
  {
    peer.sort == Ebgp ==>
      && ConfedFree(if Prepends(p, Ebgp, s) && s.confedId.Some? then As4.Stripped(p) else p)
      && (peer.enforceFirst ==> Prepends(p, Ebgp, s) && peer.asn == KnownAs(s))
  }

  lemma AddSeqOk(p: Path, a: Asn)
    requires ConfedFree(p)
    ensures ConfedFree(As4.AddSeq(p, a)) && FirstIs(As4.AddSeq(p, a), a)
  {
    var r := As4.AddSeq(p, a);
    assert forall i :: 1 <= i < |r| ==> r[i] == if |r| == |p| then p[i] else p[i - 1];
  }

  /** What the sender puts out is what the peer may be sent: to a confederation
      member always, inside the AS always, outside it when no confederation
      segment is left and the own number is in front or not enforced. */
  lemma OutgoingOk(p: Path, s: Sender, peer: Peer)
    requires MaySend(p, s, peer)
    ensures PathOk(Outgoing(p, peer.sort, s), peer)
  {
    hide As4.AddSeq, As4.Stripped;
    if Prepends(p, peer.sort, s) {
      if s.confedId.Some? {
        AddSeqOk(As4.Stripped(p), s.confedId.value);
      } else {
        AddSeqOk(p, s.localAs);
        if s.changeLocalAs.Some? {
          AddSeqOk(p, s.changeLocalAs.value);
          AddSeqOk(As4.AddSeq(p, s.localAs), s.changeLocalAs.value);
        }
      }
    }
  }

  /** The numbers an external peer sees in front of the stored path. */
  function OwnNumbers(s: Sender): seq<Asn>
  {
    if s.confedId.Some? then [s.confedId.value]
    else if s.changeLocalAs.None? then [s.localAs]
    else if s.replaceAs then [s.changeLocalAs.value]
    else [s.changeLocalAs.value, s.localAs]
  }

  function Ones(a: seq<Asn>): seq<Hop> { seq(|a|, i requires 0 <= i < |a| => One(a[i])) }

  /** A confederation sequence in front joined by one number, or a new one. */
  function JoinedRun(m: seq<Hop>, a: Asn): seq<Hop>
  {
    if m != [] && m[0].ConfedRun? then [ConfedRun([a] + m[0].run)] + m[1..] else [ConfedRun([a])] + m
  }

  /** The hops a peer is told for a stored path. */
  function ToldHops(p: Path, sort: Sort, s: Sender): seq<Hop>
  {
    match sort
    case Ibgp => Meaning(p)
    case Confed => JoinedRun(Meaning(p), s.localAs)
    case Ebgp =>
      if s.rsClient || (s.transparent && p != []) then Meaning(p)
      else Ones(OwnNumbers(s)) + Meaning(if s.confedId.Some? then As4.Stripped(p) else p)
  }

  lemma AddSeqMeaning(p: Path, a: Asn)
    requires WireForm(p)
    ensures Meaning(As4.AddSeq(p, a)) == [One(a)] + Meaning(p) && WireForm(As4.AddSeq(p, a))
  {
    hide Meaning, Normalise, WireForm;
    As4.AddSeqWireForm(p, a);
    As4.AddSeqNormalises(p, a);
    var front := [Segment(AsSequence, [a])];
    NormaliseMeaning(front + p);
    MeaningConcat(front, p);
    OneNumber(a);
  }

  lemma OneNumber(a: Asn)
    ensures Meaning([Segment(AsSequence, [a])]) == [One(a)]
  {
    assert Meaning([Segment(AsSequence, [a])]) == SegmentMeaning(Segment(AsSequence, [a])) + Meaning([]);
  }

  lemma AddConfedMeaning(p: Path, a: Asn)
    requires WireForm(p)
    ensures Meaning(AddConfedSeq(p, a)) == JoinedRun(Meaning(p), a)
  {
    hide Meaning, SegmentMeaning;
    var run := Segment(AsConfedSequence, [a]);
    MeaningCons(run, p);
    As4.SegmentMeaningPlain(run);
    if p != [] {
      assert p[0].asns != [];
      assert p == [p[0]] + p[1..];
      MeaningCons(p[0], p[1..]);
      As4.SegmentMeaningPlain(p[0]);
      FirstHop(p[0]);
      if p[0].kind == AsConfedSequence {
        var grown := Segment(AsConfedSequence, [a] + p[0].asns);
        MeaningCons(grown, p[1..]);
        As4.SegmentMeaningPlain(grown);
      }
    } else {
      NoHops();
    }
  }

  lemma FirstHop(seg: Segment)
    requires seg.asns != []
    ensures SegmentMeaning(seg) != [] && (SegmentMeaning(seg)[0].ConfedRun? <==> seg.kind == AsConfedSequence)
  {
  }

  lemma NoHops()
    ensures Meaning([]) == []
  {
  }

  /** What goes out in place of a stored path, said in hops: the sender's numbers
      and then the whole stored path, to an external peer without the
      confederation in front; the own number in the confederation run to a
      confederation peer; the path itself to any other. */
  lemma OutgoingMeaning(p: Path, sort: Sort, s: Sender)
    requires WireForm(p)
    ensures Meaning(Outgoing(p, sort, s)) == ToldHops(p, sort, s)
  {
    hide Meaning, As4.AddSeq, As4.Stripped, AddConfedSeq, WireForm;
    if Prepends(p, sort, s) {
      As4.StrippedSuffix(p);
      As4.WireFormSuffix(p, |p| - |As4.Stripped(p)|);
      if s.confedId.Some? {
        AddSeqMeaning(As4.Stripped(p), s.confedId.value);
      } else {
        AddSeqMeaning(p, s.localAs);
        if s.changeLocalAs.Some? {
          var c := s.changeLocalAs.value;
          AddSeqMeaning(p, c);
          AddSeqMeaning(As4.AddSeq(p, s.localAs), c);
          assert [One(c)] + ([One(s.localAs)] + Meaning(p)) == Ones([c, s.localAs]) + Meaning(p);
        }
      }
    } else if sort == Confed {
      AddConfedMeaning(p, s.localAs);
    }
  }

  /** The confederation in front is all that is left out. */
  lemma StrippedLaw(p: Path)
    ensures p == As4.ConfedFront(p) + As4.Stripped(p)
    ensures forall seg :: seg in As4.ConfedFront(p) ==> IsConfedKind(seg.kind)
    ensures p == [] || p[0].kind != AsConfedSequence ==> As4.ConfedFront(p) == []
    ensures p != [] && p[0].kind == AsConfedSequence ==>
              As4.Stripped(p) == [] || !IsConfedKind(As4.Stripped(p)[0].kind)
  {
    As4.StrippedSuffix(p);
    if p != [] && p[0].kind == AsConfedSequence { AfterConfedsLaw(p); }
  }

  lemma {:induction false} AfterConfedsLaw(p: Path)
    ensures var r := As4.AfterConfeds(p);
            && (r == [] || !IsConfedKind(r[0].kind))
            && (forall i :: 0 <= i < |p| - |r| ==> IsConfedKind(p[i].kind))
  {
    if p != [] && IsConfedKind(p[0].kind) {
      AfterConfedsLaw(p[1..]);
      assert forall i :: 0 < i < |p| ==> p[i] == p[1..][i - 1];
    }
  }

  /** The number a receiver with a local-as puts in front itself. */
  function Lent(peer: Peer): seq<Asn> { if peer.prepend.Some? then [peer.prepend.value] else [] }

  lemma PrependedMeaning(p: Path, peer: Peer)
    requires WireForm(p)
    ensures Meaning(Prepended(p, peer)) == Ones(Lent(peer)) + Meaning(p)
  {
    hide Meaning, WireForm;
    if peer.prepend.Some? {
      AddSeqMeaning(p, peer.prepend.value);
      assert Ones([peer.prepend.value]) == [One(peer.prepend.value)];
    } else {
      assert Ones([]) + Meaning(p) == Meaning(p);
    }
  }

  /** From the sender's table to the peer's: accepted, with every attribute, and
      the path as the sender put it out. */
  lemma RouteDelivered(r: Route, s: Sender, peer: Peer)
    requires var out := Outgoing(r.path, peer.sort, s);
             && Sendable(r.(path := out)) && MaySend(r.path, s, peer)
             && (peer.as4 || (As4.Fits16(As4.ConfedFront(out)) && ConfedFree(As4.Stripped(out))))
    ensures var out := Outgoing(r.path, peer.sort, s);
            var u := ParseAttrs(Sending(r.(path := out), peer), peer);
            && u.Done? && Received(u.attrs, r, Prepended(out, peer), peer)
            && (WireForm(r.path) ==>
                  Meaning(u.attrs.stored[AS_PATH].path) == Ones(Lent(peer)) + ToldHops(r.path, peer.sort, s))
  {
    hide Sending, Outgoing, PathOk, Prepended, As4.Received16, As4.Stripped, MaySend, Meaning, ToldHops, WireForm;
    if WireForm(r.path) { OutgoingMeaning(r.path, peer.sort, s); }
    PrependedMeaning(Outgoing(r.path, peer.sort, s), peer);
    OutgoingOk(r.path, s, peer);
    var out := Outgoing(r.path, peer.sort, s);
    if !peer.as4 { As4.ConfedPathMerged(out); }
    RouteSurvives(r.(path := out), peer);
  }

  /** An AS4_AGGREGATOR that comes without AGGREGATOR gives the number but not
      the address. */
  lemma LoneAs4AggregatorLosesAddress(asn: Asn, addr: nat, p: Path, peer: Peer)
    requires addr != 0 && !peer.as4
    ensures var a := Attrs(map[AS_PATH := PathOf(p), AS4_AGGREGATOR := AggregatedBy(asn, addr)], [], []);
            var m := Munged(a, peer).stored;
            AGGREGATOR in m && m[AGGREGATOR].asn == asn && m[AGGREGATOR] != AggregatedBy(asn, addr)
  {
  }

  /** For a 2-octet peer: the aggregator is AS4_AGGREGATOR as sent exactly when
      AGGREGATOR names AS_TRANS (or the address sent was zero anyway). */
  lemma As4AggregatorTaken(a: Attrs, peer: Peer)
    requires Typed(a) && AS_PATH in a.stored && AS4_AGGREGATOR in a.stored && !peer.as4
    requires AGGREGATOR in a.stored ==> a.stored[AGGREGATOR] != a.stored[AS4_AGGREGATOR]
    ensures var m := Munged(a, peer).stored;
            (AGGREGATOR in m && m[AGGREGATOR] == a.stored[AS4_AGGREGATOR]) <==>
              if AGGREGATOR in a.stored then a.stored[AGGREGATOR].asn == BGP_AS_TRANS
              else a.stored[AS4_AGGREGATOR].addr == 0
  {
    hide As4.Reconcile;
  }
}
