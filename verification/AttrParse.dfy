/** The path-attribute loop of bgp_attr.c: what an attribute area splits into,
    what each attribute is worth, and what the whole area yields. */
module AttrParse {
  import opened Lists
  import opened Wire
  import opened AsPath
  import opened AsPathCodec
  import As4

  // ---------------------------------------------------------------- attributes

  const ORIGIN: byte := 1
  const AS_PATH: byte := 2
  const NEXT_HOP: byte := 3
  const MED: byte := 4
  const LOCAL_PREF: byte := 5
  const ATOMIC_AGGREGATE: byte := 6
  const AGGREGATOR: byte := 7
  const COMMUNITIES: byte := 8
  const ORIGINATOR_ID: byte := 9
  const CLUSTER_LIST: byte := 10
  const MP_REACH_NLRI: byte := 14
  const MP_UNREACH_NLRI: byte := 15
  const EXT_COMMUNITIES: byte := 16
  const AS4_PATH: byte := 17
  const AS4_AGGREGATOR: byte := 18
  const ENCAP: byte := 23
  const LARGE_COMMUNITIES: byte := 32

  /** The four flag bits; the lower bits of the octet are ignored. */
  predicate Optional(o: byte) { o >= 128 }
  predicate Transitive(o: byte) { o % 128 >= 64 }
  predicate Partial(o: byte) { o % 64 >= 32 }
  predicate Extended(o: byte) { o % 32 >= 16 }

  datatype Tlv = Tlv(octet: byte, kind: byte, value: seq<byte>)

  predicate Encodable(t: Tlv) { |t.value| < if Extended(t.octet) then 0x1_0000 else 0x100 }

  function Header(t: Tlv): seq<byte>
    requires Encodable(t)
  {
    [t.octet, t.kind] + if Extended(t.octet) then U16(|t.value|) else [|t.value|]
  }

  function TlvBytes(t: Tlv): (b: seq<byte>)
    requires Encodable(t)
    ensures |b| >= 3 && b[0] == t.octet
  {
    Header(t) + t.value
  }

  function Flatten(ts: seq<Tlv>): seq<byte>
    requires forall t :: t in ts ==> Encodable(t)
  {
    if ts == [] then [] else TlvBytes(ts[0]) + Flatten(ts[1..])
  }

  /** The attribute at the front, if its header and value are all there. */
  function Head(b: seq<byte>): Option<Tlv>
  {
    if |b| < 3 || (Extended(b[0]) && |b| < 4) then None else
      var h: nat := if Extended(b[0]) then 4 else 3;
      var length: nat := if Extended(b[0]) then FromU16(b[2], b[3]) else b[2];
      if h + length > |b| then None else Some(Tlv(b[0], b[1], b[h..h + length]))
  }

  lemma HeadExact(b: seq<byte>)
    ensures var t := Head(b);
            t.Some? ==> Encodable(t.value) && TlvBytes(t.value) <= b
  {
    hide Extended, U16, FromU16;
    var r := Head(b);
    if r.Some? {
      var t := r.value;
      if Extended(b[0]) {
        U16Back(b[2], b[3]);
        assert b[..4] == Header(t);
        assert b[..4 + |t.value|] == b[..4] + b[4..4 + |t.value|];
      } else {
        assert b[..3] == Header(t);
        assert b[..3 + |t.value|] == b[..3] + b[3..3 + |t.value|];
      }
    }
  }

  lemma HeadOf(t: Tlv, rest: seq<byte>)
    requires Encodable(t)
    ensures Head(TlvBytes(t) + rest) == Some(t)
  {
    var b := TlvBytes(t) + rest;
    var h := |Header(t)|;
    assert b[h..h + |t.value|] == t.value;
  }

  /** An attribute area cut into its attributes. */
  function Split(b: seq<byte>): Option<seq<Tlv>>
    decreases |b|
  {
    if b == [] then Some([]) else
      match Head(b)
      case None => None
      case Some(t) =>
        HeadExact(b);
        match Split(b[|TlvBytes(t)|..])
        case None => None
        case Some(ts) => Some([t] + ts)
  }

  /** Splitting and laying out are inverse: a split area is consumed exactly,
      attribute by attribute. */
  lemma {:induction false} SplitExact(b: seq<byte>)
    ensures var r := Split(b); r.Some? ==> (forall t :: t in r.value ==> Encodable(t)) && Flatten(r.value) == b
    decreases |b|
  {
    hide Head, TlvBytes;
    if b != [] && Split(b).Some? {
      var t := Head(b).value;
      HeadExact(b);
      var rest := b[|TlvBytes(t)|..];
      SplitExact(rest);
      var ts := Split(b).value;
      assert ts[1..] == Split(rest).value;
      assert b == TlvBytes(t) + rest;
    }
  }

  lemma {:induction false} SplitFlatten(ts: seq<Tlv>)
    requires forall t :: t in ts ==> Encodable(t)
    ensures Split(Flatten(ts)) == Some(ts)
  {
    hide Head, TlvBytes;
    if ts != [] {
      var rest := Flatten(ts[1..]);
      HeadOf(ts[0], rest);
      SplitFlatten(ts[1..]);
      assert (TlvBytes(ts[0]) + rest)[|TlvBytes(ts[0])|..] == rest;
      assert [ts[0]] + ts[1..] == ts;
    }
  }

  // ------------------------------------------------------------ one attribute

  datatype Sort = Ebgp | Ibgp | Confed

  /** What the parser consults about the peer. */
  datatype Peer = Peer(
    sort: Sort, as4: bool, restart: bool, martians: bool,
    asn: Asn,                 // the peer's AS number
    enforceFirst: bool,       // BGP_FLAG_ENFORCE_FIRST_AS
    prepend: Option<Asn>)     // change_local_as, unless no-prepend

  datatype SubTlv = SubTlv(kind: byte, value: seq<byte>)

  datatype Value =
    | Number(n: nat)
    | PathOf(path: Path)
    | Present
    | AggregatedBy(asn: Asn, addr: nat)
    | Octets(octets: seq<byte>)
    | Reach(afi: nat, safi: byte, nexthop: seq<byte>, nlri: seq<byte>)
    | Unreach(afi: nat, safi: byte, nlri: seq<byte>)

  /** What an attribute comes to: stored under its flag, left aside, carried on
      unrecognised, kept as tunnel information, or refused. */
  datatype Worth = Store(value: Value) | LeftAside | Carried | Tunnel(subs: seq<SubTlv>) | Fatal | Withdrawn

  predicate Kept(w: Worth) { !w.Fatal? && !w.Withdrawn? }

  /** bgp_attr_malformed. */
  function Malformed(t: Tlv, peer: Peer): (w: Worth)
    ensures w.Fatal? || w.Withdrawn? || w.LeftAside?
  {
    if peer.sort != Ebgp then Fatal
    else if t.kind == AS4_AGGREGATOR || t.kind == AGGREGATOR || t.kind == ATOMIC_AGGREGATE then LeftAside
    else if 1 <= t.kind <= 5 || t.kind == COMMUNITIES || t.kind == ORIGINATOR_ID || t.kind == CLUSTER_LIST
            || t.kind == MP_REACH_NLRI || t.kind == MP_UNREACH_NLRI || t.kind == EXT_COMMUNITIES then Fatal
    else if Transitive(t.octet) && Optional(t.octet) && Partial(t.octet) then Withdrawn
    else Fatal
  }

  predicate WantsOptional(kind: byte)
  {
    kind == MED || 7 <= kind <= 10 || 14 <= kind <= 18 || kind == LARGE_COMMUNITIES
  }

  predicate WantsTransitive(kind: byte)
  {
    (1 <= kind <= 8 && kind != MED) || 16 <= kind <= 18 || kind == LARGE_COMMUNITIES
  }

  /** bgp_attr_flag_invalid, negated. */
  predicate FlagsOk(t: Tlv)
  {
    var o := t.octet;
    if !WantsOptional(t.kind) && !WantsTransitive(t.kind) then true
    else if !Optional(o) && !Transitive(o) then false
    else if Partial(o) && !Optional(o) then false
    else if Partial(o) && Optional(o) && !Transitive(o) then false
    else Optional(o) == WantsOptional(t.kind) && Transitive(o) == WantsTransitive(t.kind)
         && (Partial(o) ==> Optional(o) && Transitive(o))
  }

  function Word(v: seq<byte>): nat
    requires |v| == 4
  {
    FromU32(v[0], v[1], v[2], v[3])
  }

  predicate Martian(addr: nat) { addr < 0x0100_0000 || 0x7f00_0000 <= addr < 0x8000_0000 || 0xe000_0000 <= addr }

  function StoreOr(ok: bool, v: Value, t: Tlv, peer: Peer): Worth { if ok then Store(v) else Malformed(t, peer) }

  /** A list attribute: nothing is stored for an empty one. */
  function ListWorth(t: Tlv, entry: nat, peer: Peer): Worth
    requires entry > 0
  {
    if t.value == [] then LeftAside else StoreOr(|t.value| % entry == 0, Octets(t.value), t, peer)
  }

  function PathWorth(t: Tlv, use32bit: bool, peer: Peer): Worth
  {
    match Parse(t.value, |t.value|, use32bit)
    case None => Malformed(t, peer)
    case Some(p) => Store(PathOf(p))
  }

  function AggregatorWorth(t: Tlv, use32bit: bool, peer: Peer): Worth
  {
    var v := t.value;
    if |v| != (if use32bit then 8 else 6) then Malformed(t, peer)
    else if use32bit then Store(AggregatedBy(Word(v[..4]), Word(v[4..])))
    else Store(AggregatedBy(FromU16(v[0], v[1]), Word(v[2..])))
  }

  predicate NexthopLength(n: nat) { n == 4 || n == 12 || n == 16 || n == 24 || n == 32 || n == 48 }

  /** bgp_mp_reach_parse. */
  function ReachWorth(v: seq<byte>): Worth
  {
    if |v| < 5 then Fatal else
      var n: nat := v[3];
      if |v| - 4 < n || !NexthopLength(n) || |v| - 4 - n < 2 then Fatal
      else Store(Reach(FromU16(v[0], v[1]), v[2], v[4..4 + n], v[5 + n..]))
  }

  /** bgp_mp_unreach_parse. */
  function UnreachWorth(v: seq<byte>): Worth
  {
    if |v| < 3 then Fatal else Store(Unreach(FromU16(v[0], v[1]), v[2], v[3..]))
  }

  /** The sub-TLVs of a tunnel attribute; less than four octets end the list and
      must be none. */
  function SubTlvs(v: seq<byte>): Option<seq<SubTlv>>
    decreases |v|
  {
    if |v| < 4 then if v == [] then Some([]) else None
    else if 2 + v[1] > |v| then None
    else
      match SubTlvs(v[2 + v[1]..])
      case None => None
      case Some(subs) => Some([SubTlv(v[0], v[2..2 + v[1]])] + subs)
  }

  /** bgp_attr_encap. */
  function EncapWorth(t: Tlv): Worth
  {
    if !Transitive(t.octet) || !Optional(t.octet) || |t.value| < 4 then Fatal else
      match SubTlvs(t.value[4..])
      case None => Fatal
      case Some(subs) => Tunnel(subs)
  }

  /** bgp_attr_unknown. */
  function UnknownWorth(t: Tlv, peer: Peer): Worth
  {
    if !Optional(t.octet) then Malformed(t, peer) else if !Transitive(t.octet) then LeftAside else Carried
  }

  /** bgp_attr_origin. */
  function OriginWorth(t: Tlv, peer: Peer): Worth
  {
    if |t.value| != 1 then Malformed(t, peer) else StoreOr(t.value[0] <= 2, Number(t.value[0]), t, peer)
  }

  /** bgp_attr_nexthop. */
  function NexthopWorth(t: Tlv, peer: Peer): Worth
  {
    if |t.value| != 4 then Malformed(t, peer)
    else StoreOr(peer.martians || !Martian(Word(t.value)), Number(Word(t.value)), t, peer)
  }

  /** bgp_attr_med, bgp_attr_originator_id and bgp_attr_local_pref, the last of
      which an external peer's value is ignored for. */
  function NumberWorth(t: Tlv, peer: Peer): Worth
  {
    if |t.value| != 4 then Malformed(t, peer)
    else if t.kind == LOCAL_PREF && peer.sort == Ebgp then LeftAside
    else Store(Number(Word(t.value)))
  }

  /** The switch on the attribute type, after the check of its flags. */
  function WorthOf(t: Tlv, peer: Peer): Worth
  {
    if !FlagsOk(t) then Malformed(t, peer)
    else if t.kind == ORIGIN then OriginWorth(t, peer)
    else if t.kind == AS_PATH then PathWorth(t, peer.as4, peer)
    else if t.kind == AS4_PATH then PathWorth(t, true, peer)
    else if t.kind == NEXT_HOP then NexthopWorth(t, peer)
    else if t.kind == MED || t.kind == ORIGINATOR_ID || t.kind == LOCAL_PREF then NumberWorth(t, peer)
    else if t.kind == ATOMIC_AGGREGATE then StoreOr(t.value == [], Present, t, peer)
    else if t.kind == AGGREGATOR then AggregatorWorth(t, peer.as4, peer)
    else if t.kind == AS4_AGGREGATOR then AggregatorWorth(t, true, peer)
    else if t.kind == COMMUNITIES then ListWorth(t, 4, peer)
    else if t.kind == EXT_COMMUNITIES then ListWorth(t, 8, peer)
    else if t.kind == LARGE_COMMUNITIES then ListWorth(t, 12, peer)
    else if t.kind == CLUSTER_LIST then StoreOr(|t.value| % 4 == 0, Octets(t.value), t, peer)
    else if t.kind == MP_REACH_NLRI then ReachWorth(t.value)
    else if t.kind == MP_UNREACH_NLRI then UnreachWorth(t.value)
    else if t.kind == ENCAP then EncapWorth(t)
    else UnknownWorth(t, peer)
  }

  // ---------------------------------------------------------------- the loop

  /** struct attr as far as attributes go: what is stored under which flag, the
      unrecognised attributes to pass on, and the tunnel sub-TLVs. */
  datatype Attrs = Attrs(stored: map<byte, Value>, transit: seq<byte>, tunnel: seq<SubTlv>)

  const Empty := Attrs(map[], [], [])

  function MarkedPartial(o: byte): byte { if Partial(o) then o else o + 32 }

  function Applied(a: Attrs, t: Tlv, w: Worth): Attrs
    requires Encodable(t)
  {
    match w
    case Store(v) => a.(stored := a.stored[t.kind := v])
    case Carried => a.(transit := a.transit + TlvBytes(t)[0 := MarkedPartial(t.octet)])
    case Tunnel(subs) => a.(tunnel := a.tunnel + subs)
    case _ => a
  }

  datatype Result = Done(attrs: Attrs) | Failed | Withdraw

  /** The loop of bgp_attr_parse from the octets left on. */
  function Loop(b: seq<byte>, seen: set<byte>, a: Attrs, peer: Peer): Result
    decreases |b|
  {
    if b == [] then Done(a) else
      match Head(b)
      case None => Failed
      case Some(t) =>
        HeadExact(b);
        var w := WorthOf(t, peer);
        if t.kind in seen || w == Fatal then Failed
        else if w == Withdrawn then Withdraw
        else Loop(b[|TlvBytes(t)|..], seen + {t.kind}, Applied(a, t, w), peer)
  }

  predicate Distinct(ts: seq<Tlv>) { forall i, j :: 0 <= i < j < |ts| ==> ts[i].kind != ts[j].kind }

  function Collected(ts: seq<Tlv>, a: Attrs, peer: Peer): Attrs
    requires forall t :: t in ts ==> Encodable(t)
  {
    if ts == [] then a else Collected(ts[1..], Applied(a, ts[0], WorthOf(ts[0], peer)), peer)
  }

  predicate Acceptable(ts: seq<Tlv>, seen: set<byte>, peer: Peer)
  {
    && Distinct(ts)
    && (forall t :: t in ts ==> t.kind !in seen)
    && (forall t :: t in ts ==> Kept(WorthOf(t, peer)))
  }

  lemma DistinctCons(t: Tlv, ts: seq<Tlv>)
    ensures Distinct([t] + ts) <==> Distinct(ts) && forall u :: u in ts ==> u.kind != t.kind
  {
    var all := [t] + ts;
    if Distinct(all) {
      forall i, j | 0 <= i < j < |ts| ensures ts[i].kind != ts[j].kind {
        assert all[i + 1].kind != all[j + 1].kind;
      }
      forall u | u in ts ensures u.kind != t.kind {
        var i :| 0 <= i < |ts| && ts[i] == u;
        assert all[0].kind != all[i + 1].kind;
      }
    }
  }

  lemma AcceptableCons(t: Tlv, ts: seq<Tlv>, seen: set<byte>, peer: Peer)
    ensures Acceptable([t] + ts, seen, peer) <==>
            t.kind !in seen && Kept(WorthOf(t, peer)) && Acceptable(ts, seen + {t.kind}, peer)
  {
    hide WorthOf, Distinct, Kept;
    var all := [t] + ts;
    assert forall u :: u in all <==> u == t || u in ts;
    DistinctCons(t, ts);
  }

  /** The loop accepts an area exactly when it splits into attributes of
      pairwise different types, each acceptable by itself, and then it has
      collected them all. */
  lemma {:induction false} LoopAccepts(b: seq<byte>, seen: set<byte>, a: Attrs, peer: Peer)
    ensures Loop(b, seen, a, peer).Done? <==> Split(b).Some? && Acceptable(Split(b).value, seen, peer)
    ensures Loop(b, seen, a, peer).Done? ==>
              && (forall t :: t in Split(b).value ==> Encodable(t))
              && Loop(b, seen, a, peer) == Done(Collected(Split(b).value, a, peer))
    decreases |b|
  {
    hide Head, WorthOf, Acceptable, Applied, TlvBytes;
    SplitExact(b);
    if b == [] {
      NothingAcceptable(seen, peer);
    } else if Head(b).Some? {
      var t := Head(b).value;
      HeadExact(b);
      var rest := b[|TlvBytes(t)|..];
      LoopAccepts(rest, seen + {t.kind}, Applied(a, t, WorthOf(t, peer)), peer);
      if Split(rest).Some? {
        var ts := Split(b).value;
        AcceptableCons(t, Split(rest).value, seen, peer);
        assert ts[1..] == Split(rest).value;
      }
    }
  }

  lemma NothingAcceptable(seen: set<byte>, peer: Peer)
    ensures Acceptable([], seen, peer)
  {
  }

  // ------------------------------------------------ order does not matter

  /** What a collection holds under each type, read off its attributes. */
  lemma {:induction false} CollectedAt(ts: seq<Tlv>, a: Attrs, peer: Peer, i: nat)
    requires (forall t :: t in ts ==> Encodable(t)) && Distinct(ts) && i < |ts| && WorthOf(ts[i], peer).Store?
    ensures var s := Collected(ts, a, peer).stored; ts[i].kind in s && s[ts[i].kind] == WorthOf(ts[i], peer).value
    decreases |ts|
  {
    hide WorthOf, TlvBytes;
    assert ts == [ts[0]] + ts[1..];
    DistinctCons(ts[0], ts[1..]);
    var next := Applied(a, ts[0], WorthOf(ts[0], peer));
    if i == 0 {
      CollectedElse(ts[1..], next, peer, ts[0].kind);
    } else {
      CollectedAt(ts[1..], next, peer, i - 1);
    }
  }

  /** Types of which nothing is stored keep what they had. */
  lemma {:induction false} CollectedElse(ts: seq<Tlv>, a: Attrs, peer: Peer, k: byte)
    requires forall t :: t in ts ==> Encodable(t)
    requires forall t :: t in ts ==> t.kind != k || !WorthOf(t, peer).Store?
    ensures var s := Collected(ts, a, peer).stored; (k in s <==> k in a.stored) && (k in s ==> s[k] == a.stored[k])
    decreases |ts|
  {
    hide WorthOf, TlvBytes;
    if ts != [] {
      assert ts[0] in ts && forall t :: t in ts[1..] ==> t in ts;
      CollectedElse(ts[1..], Applied(a, ts[0], WorthOf(ts[0], peer)), peer, k);
    }
  }

  /** us is ts in another order: p gives the places, q undoes p. */
  predicate Reordered(ts: seq<Tlv>, us: seq<Tlv>, p: seq<nat>, q: seq<nat>)
  {
    && |p| == |q| == |ts| == |us|
    && (forall i :: 0 <= i < |p| ==> p[i] < |ts| && q[p[i]] == i && us[i] == ts[p[i]])
    && (forall i :: 0 <= i < |q| ==> q[i] < |ts| && p[q[i]] == i && ts[i] == us[q[i]])
  }

  lemma ReorderedAcceptable(ts: seq<Tlv>, us: seq<Tlv>, p: seq<nat>, q: seq<nat>, peer: Peer)
    requires Reordered(ts, us, p, q) && Acceptable(ts, {}, peer)
    ensures Acceptable(us, {}, peer)
    ensures forall t :: t in us ==> t in ts
  {
    hide WorthOf;
    forall i, j | 0 <= i < j < |us| ensures us[i].kind != us[j].kind {
      assert p[i] != p[j] && us[i] == ts[p[i]] && us[j] == ts[p[j]];
    }
    forall t | t in us ensures t in ts {
      var i :| 0 <= i < |us| && us[i] == t;
      assert t == ts[p[i]];
    }
  }

  /** Two areas with the same attributes in different orders are both accepted
      or both not, and store the same. */
  lemma OrderDoesNotMatter(b: seq<byte>, c: seq<byte>, peer: Peer, p: seq<nat>, q: seq<nat>)
    requires Split(b).Some? && Split(c).Some? && Reordered(Split(b).value, Split(c).value, p, q)
    ensures Loop(b, {}, Empty, peer).Done? <==> Loop(c, {}, Empty, peer).Done?
    ensures Loop(b, {}, Empty, peer).Done? ==>
              Loop(b, {}, Empty, peer).attrs.stored == Loop(c, {}, Empty, peer).attrs.stored
  {
    hide Loop, Split, WorthOf, Acceptable, Collected;
    var ts, us := Split(b).value, Split(c).value;
    LoopAccepts(b, {}, Empty, peer);
    LoopAccepts(c, {}, Empty, peer);
    assert Reordered(us, ts, q, p);
    if Acceptable(ts, {}, peer) { ReorderedAcceptable(ts, us, p, q, peer); }
    if Acceptable(us, {}, peer) { ReorderedAcceptable(us, ts, q, p, peer); }
    if Acceptable(ts, {}, peer) {
      SameStored(ts, us, peer);
    }
  }

  lemma SameStored(ts: seq<Tlv>, us: seq<Tlv>, peer: Peer)
    requires Acceptable(ts, {}, peer) && Acceptable(us, {}, peer)
    requires (forall t :: t in ts ==> Encodable(t)) && (forall t :: t in ts <==> t in us)
    ensures Collected(ts, Empty, peer).stored == Collected(us, Empty, peer).stored
  {
    hide WorthOf, Collected;
    var s, r := Collected(ts, Empty, peer).stored, Collected(us, Empty, peer).stored;
    forall k: byte ensures (k in s <==> k in r) && (k in s ==> s[k] == r[k]) {
      if i :| 0 <= i < |ts| && ts[i].kind == k && WorthOf(ts[i], peer).Store? {
        CollectedAt(ts, Empty, peer, i);
        assert ts[i] in us;
        var j :| 0 <= j < |us| && us[j] == ts[i];
        CollectedAt(us, Empty, peer, j);
      } else {
        CollectedElse(ts, Empty, peer, k);
        CollectedElse(us, Empty, peer, k);
      }
    }
  }

  // --------------------------------------------------------- after the loop

  /** bgp_attr_check: the types still missing. */
  predicate Complete(a: Attrs, peer: Peer)
  {
    || (peer.restart && a.stored == map[])
    || a.stored.Keys == {MP_UNREACH_NLRI}
    || (&& ORIGIN in a.stored && AS_PATH in a.stored
        && (NEXT_HOP in a.stored || MP_REACH_NLRI in a.stored)
        && (peer.sort == Ibgp ==> LOCAL_PREF in a.stored))
  }

  /** Values sit under the types they belong to. */
  predicate Typed(a: Attrs)
  {
    && (AS_PATH in a.stored ==> a.stored[AS_PATH].PathOf?)
    && (AS4_PATH in a.stored ==> a.stored[AS4_PATH].PathOf?)
    && (AGGREGATOR in a.stored ==> a.stored[AGGREGATOR].AggregatedBy?)
    && (AS4_AGGREGATOR in a.stored ==> a.stored[AS4_AGGREGATOR].AggregatedBy?)
  }

  /** A 2-octet aggregator makes AS4_AGGREGATOR and AS4_PATH stale. */
  predicate StaleAs4(a: Attrs)
    requires Typed(a)
  {
    AS4_AGGREGATOR in a.stored && AGGREGATOR in a.stored && a.stored[AGGREGATOR].asn != BGP_AS_TRANS
  }

  /** The aggregator bgp_attr_munge_as4_attrs settles on; an AS4_AGGREGATOR
      alone lends its number but not its address. */
  function MungedAggregator(a: Attrs): Attrs
    requires Typed(a)
  {
    if AS4_AGGREGATOR !in a.stored || StaleAs4(a) then a
    else if AGGREGATOR in a.stored then a.(stored := a.stored[AGGREGATOR := a.stored[AS4_AGGREGATOR]])
    else a.(stored := a.stored[AGGREGATOR := AggregatedBy(a.stored[AS4_AGGREGATOR].asn, 0)])
  }

  /** bgp_attr_munge_as4_attrs. */
  function Munged(a: Attrs, peer: Peer): (r: Attrs)
    requires Typed(a)
    ensures Typed(r) && (AS_PATH in r.stored <==> AS_PATH in a.stored)
  {
    if AS_PATH !in a.stored || peer.as4 then a
    else if AS4_PATH !in a.stored || StaleAs4(a) then MungedAggregator(a)
    else
      var path := As4.Reconcile(a.stored[AS_PATH].path, a.stored[AS4_PATH].path);
      var m := MungedAggregator(a);
      m.(stored := m.stored[AS_PATH := PathOf(path)])
  }

  lemma {:induction false} LoopTyped(b: seq<byte>, seen: set<byte>, a: Attrs, peer: Peer)
    requires Typed(a)
    ensures Loop(b, seen, a, peer).Done? ==> Typed(Loop(b, seen, a, peer).attrs)
    decreases |b|
  {
    hide Head, TlvBytes, WorthOf;
    if b != [] && Head(b).Some? {
      var t := Head(b).value;
      HeadExact(b);
      WorthTyped(t, peer);
      LoopTyped(b[|TlvBytes(t)|..], seen + {t.kind}, Applied(a, t, WorthOf(t, peer)), peer);
    }
  }

  lemma EmptyTyped()
    ensures Typed(Empty)
  {
  }

  lemma WorthTyped(t: Tlv, peer: Peer)
    ensures WorthOf(t, peer).Store? && (t.kind == AS_PATH || t.kind == AS4_PATH) ==> WorthOf(t, peer).value.PathOf?
    ensures WorthOf(t, peer).Store? && (t.kind == AGGREGATOR || t.kind == AS4_AGGREGATOR) ==>
            WorthOf(t, peer).value.AggregatedBy?
  {
    hide Malformed, FlagsOk, ReachWorth, UnreachWorth, EncapWorth, UnknownWorth, Parse;
  }

  /** aspath_left_confed_check. */
  predicate LeftConfed(p: Path) { p != [] && IsConfedKind(p[0].kind) }

  /** aspath_firstas_check. */
  predicate FirstIs(p: Path, a: Asn) { p != [] && p[0].kind == AsSequence && p[0].asns != [] && p[0].asns[0] == a }

  /** The checks of bgp_attr_aspath_check: a confederation peer's path starts
      with a confederation segment, an external peer's has none and, when that
      is enforced, starts with the peer's number. */
  predicate PathOk(p: Path, peer: Peer)
  {
    && (peer.sort == Confed ==> LeftConfed(p))
    && (peer.sort == Ebgp ==> ConfedFree(p) && (peer.enforceFirst ==> FirstIs(p, peer.asn)))
  }

  /** The local-as prepend at the end of bgp_attr_aspath_check. */
  function Prepended(p: Path, peer: Peer): Path
  {
    if peer.prepend.Some? then As4.AddSeq(p, peer.prepend.value) else p
  }

  /** What bgp_attr_parse does once the loop has collected a. */
  function Concluded(a: Attrs, peer: Peer): Result
    requires Typed(a)
  {
    var m := Munged(a, peer);
    if !Complete(a, peer) then Failed
    else if AS_PATH !in m.stored then Done(m)
    else if !PathOk(m.stored[AS_PATH].path, peer) then Failed
    else Done(m.(stored := m.stored[AS_PATH := PathOf(Prepended(m.stored[AS_PATH].path, peer))]))
  }

  /** bgp_attr_parse on an attribute area. */
  function ParseAttrs(b: seq<byte>, peer: Peer): Result
  {
    match Loop(b, {}, Empty, peer)
    case Failed => Failed
    case Withdraw => Withdraw
    case Done(a) => LoopTyped(b, {}, Empty, peer); Concluded(a, peer)
  }

  /** A well-formed attribute of type k is among them. */
  predicate Carries(ts: seq<Tlv>, k: byte, peer: Peer)
  {
    exists i :: 0 <= i < |ts| && ts[i].kind == k && WorthOf(ts[i], peer).Store?
  }

  lemma StoredIffCarried(ts: seq<Tlv>, k: byte, peer: Peer)
    requires Distinct(ts) && forall t :: t in ts ==> Encodable(t)
    ensures k in Collected(ts, Empty, peer).stored <==> Carries(ts, k, peer)
  {
    hide WorthOf, Collected;
    if i :| 0 <= i < |ts| && ts[i].kind == k && WorthOf(ts[i], peer).Store? {
      CollectedAt(ts, Empty, peer, i);
    } else {
      CollectedElse(ts, Empty, peer, k);
    }
  }

  /** What a message must carry: nothing at all from a restarting peer, nothing
      but unreachable routes, or every mandatory attribute. */
  ghost predicate Mandatory(ts: seq<Tlv>, peer: Peer)
  {
    || (peer.restart && forall k :: !Carries(ts, k, peer))
    || (forall k :: Carries(ts, k, peer) <==> k == MP_UNREACH_NLRI)
    || (&& Carries(ts, ORIGIN, peer) && Carries(ts, AS_PATH, peer)
        && (Carries(ts, NEXT_HOP, peer) || Carries(ts, MP_REACH_NLRI, peer))
        && (peer.sort == Ibgp ==> Carries(ts, LOCAL_PREF, peer)))
  }

  /** The value of the attribute of type k. */
  ghost function ValueIn(ts: seq<Tlv>, k: byte, peer: Peer): Value
    requires Carries(ts, k, peer)
  {
    var i :| 0 <= i < |ts| && ts[i].kind == k && WorthOf(ts[i], peer).Store?;
    WorthOf(ts[i], peer).value
  }

  lemma ValueInTyped(ts: seq<Tlv>, k: byte, peer: Peer)
    requires Carries(ts, k, peer)
    ensures k == AS_PATH || k == AS4_PATH ==> ValueIn(ts, k, peer).PathOf?
    ensures k == AGGREGATOR || k == AS4_AGGREGATOR ==> ValueIn(ts, k, peer).AggregatedBy?
  {
    hide WorthOf;
    forall i | 0 <= i < |ts| { WorthTyped(ts[i], peer); }
  }

  /** AS4_PATH counts unless the peer is a 4-octet speaker or an AGGREGATOR of
      two octets came with an AS4_AGGREGATOR. */
  ghost predicate As4PathCounts(ts: seq<Tlv>, peer: Peer)
  {
    && !peer.as4 && Carries(ts, AS4_PATH, peer)
    && (Carries(ts, AS4_AGGREGATOR, peer) && Carries(ts, AGGREGATOR, peer) ==>
          var g := ValueIn(ts, AGGREGATOR, peer); g.AggregatedBy? && g.asn == BGP_AS_TRANS)
  }

  /** The path a message describes. */
  ghost function PathIn(ts: seq<Tlv>, peer: Peer): Path
    requires Carries(ts, AS_PATH, peer)
  {
    ValueInTyped(ts, AS_PATH, peer);
    var p := ValueIn(ts, AS_PATH, peer).path;
    if !As4PathCounts(ts, peer) then p else
      ValueInTyped(ts, AS4_PATH, peer);
      As4.Reconcile(p, ValueIn(ts, AS4_PATH, peer).path)
  }

  lemma StoredValue(ts: seq<Tlv>, k: byte, peer: Peer)
    requires Distinct(ts) && (forall t :: t in ts ==> Encodable(t)) && Carries(ts, k, peer)
    ensures var s := Collected(ts, Empty, peer).stored; k in s && s[k] == ValueIn(ts, k, peer)
  {
    hide WorthOf, Collected;
    var i :| 0 <= i < |ts| && ts[i].kind == k && WorthOf(ts[i], peer).Store?;
    CollectedAt(ts, Empty, peer, i);
    forall j | 0 <= j < |ts| && ts[j].kind == k ensures j == i { }
  }

  /** The merged path is the one described. */
  lemma MergedIsDescribed(ts: seq<Tlv>, peer: Peer)
    requires Distinct(ts) && (forall t :: t in ts ==> Encodable(t)) && Typed(Collected(ts, Empty, peer))
    ensures var m := Munged(Collected(ts, Empty, peer), peer).stored;
            && (AS_PATH in m <==> Carries(ts, AS_PATH, peer))
            && (AS_PATH in m ==> m[AS_PATH].path == PathIn(ts, peer))
  {
    hide WorthOf, Collected, Carries, ValueIn, As4.Reconcile;
    StoredHere(ts, AS_PATH, peer);
    StoredHere(ts, AS4_PATH, peer);
    StoredHere(ts, AGGREGATOR, peer);
    StoredHere(ts, AS4_AGGREGATOR, peer);
  }

  lemma StoredHere(ts: seq<Tlv>, k: byte, peer: Peer)
    requires Distinct(ts) && forall t :: t in ts ==> Encodable(t)
    ensures var s := Collected(ts, Empty, peer).stored;
            (k in s <==> Carries(ts, k, peer)) && (k in s ==> s[k] == ValueIn(ts, k, peer))
  {
    hide WorthOf, Collected, Carries, ValueIn;
    StoredIffCarried(ts, k, peer);
    if Carries(ts, k, peer) { StoredValue(ts, k, peer); }
  }

  /** bgp_attr_parse succeeds exactly on areas that are cut exactly into
      attributes, each type at most once, each tolerable, with the mandatory
      ones among them and a path the peer may send. */
  lemma SuccessExactly(b: seq<byte>, peer: Peer)
    ensures ParseAttrs(b, peer).Done? <==>
            && Split(b).Some?
            && var ts := Split(b).value;
               && Acceptable(ts, {}, peer) && Mandatory(ts, peer)
               && (Carries(ts, AS_PATH, peer) ==> PathOk(PathIn(ts, peer), peer))
    ensures ParseAttrs(b, peer).Done? ==>
            (forall t :: t in Split(b).value ==> Encodable(t)) && Flatten(Split(b).value) == b
  {
    hide Loop, Split, WorthOf, Collected, Flatten, Munged, Carries, PathIn, Complete, Mandatory, PathOk, Prepended,
         Typed;
    LoopAccepts(b, {}, Empty, peer);
    SplitExact(b);
    EmptyTyped();
    LoopTyped(b, {}, Empty, peer);
    if Loop(b, {}, Empty, peer).Done? {
      CompleteIffMandatory(Split(b).value, peer);
      MergedIsDescribed(Split(b).value, peer);
    }
  }

  /** The end of parsing sees only what is stored, so order matters to all of
      bgp_attr_parse as little as to its loop. */
  lemma ParseOrderDoesNotMatter(b: seq<byte>, c: seq<byte>, peer: Peer, p: seq<nat>, q: seq<nat>)
    requires Split(b).Some? && Split(c).Some? && Reordered(Split(b).value, Split(c).value, p, q)
    ensures ParseAttrs(b, peer).Done? <==> ParseAttrs(c, peer).Done?
    ensures ParseAttrs(b, peer).Done? ==> ParseAttrs(b, peer).attrs.stored == ParseAttrs(c, peer).attrs.stored
  {
    hide Loop, Split, Reordered, As4.Reconcile, PathOk, Prepended;
    OrderDoesNotMatter(b, c, peer, p, q);
    LoopTyped(b, {}, Empty, peer);
    LoopTyped(c, {}, Empty, peer);
  }

  lemma CompleteIffMandatory(ts: seq<Tlv>, peer: Peer)
    requires Distinct(ts) && forall t :: t in ts ==> Encodable(t)
    ensures Complete(Collected(ts, Empty, peer), peer) <==> Mandatory(ts, peer)
  {
    hide WorthOf, Collected, Carries;
    var s := Collected(ts, Empty, peer).stored;
    forall k: byte ensures k in s <==> Carries(ts, k, peer) { StoredIffCarried(ts, k, peer); }
    assert s == map[] <==> forall k: byte :: k !in s;
    assert s.Keys == {MP_UNREACH_NLRI} <==> forall k: byte :: k in s <==> k == MP_UNREACH_NLRI;
  }
}
