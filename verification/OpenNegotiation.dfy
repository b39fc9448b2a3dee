/** What two speakers make of each other's OPEN. */
module OpenNegotiation {
  import opened Lists
  import opened Wire
  import opened OpenCapability

  // ------------------------------------------------------- route filtering heard

  /** The sides one family's configuration advertises. */
  function OrfOf(f: Family, m: OrfMode): set<OrfRcv>
  {
    if OrfKept(f) then OrfSides(f, true, OrfModeCode(m)) + OrfSides(f, false, OrfModeCode(m)) else {}
  }

  function OrfAdvertised(fs: seq<Family>, orf: map<Family, OrfMode>): set<OrfRcv>
  {
    if fs == [] then {} else (if fs[0] in orf then OrfOf(fs[0], orf[fs[0]]) else {}) + OrfAdvertised(fs[1..], orf)
  }

  lemma TakeOrfCap(f: Family, m: OrfMode, legacy: bool, afc: set<Family>, n: Nego)
    ensures Take(OrfCap(f, m, legacy), afc, n) ==
            Go(n.(orf := n.orf + if OrfKept(f) then OrfSides(f, legacy, OrfModeCode(m)) else {}))
  {
    hide OrfSides, OrfKept, FamilyOf, TakeMp, TakeRestart;
    FamilyRoundTrip(f);
    var c := OrfCap(f, m, legacy);
    var d := c.data;
    assert FromU16(d[0], d[1]) == AfiCode(f.afi) && d[3] == SafiCode(f.safi) && d[4] == 1;
    assert d[5..][0] == d[5] && d[5..][1] == d[6];
    assert OrfEntries(d[5..][2..], 0, f, legacy) == {};
    assert OrfEntries(d[5..], 1, f, legacy) == if OrfKept(f) then OrfSides(f, legacy, OrfModeCode(m)) else {};
    assert SizeOk(c.code, 7);
  }

  lemma TakeOrfPair(f: Family, m: OrfMode, rest: seq<Cap>, afc: set<Family>, n: Nego)
    requires forall i :: 0 <= i < |rest| ==> |rest[i].data| < 254
    ensures TakeAll([OrfCap(f, m, true), OrfCap(f, m, false)] + rest, afc, n) ==
            TakeAll(rest, afc, n.(orf := n.orf + OrfOf(f, m)))
  {
    hide Take, TakeAll, OrfCap, OrfSides, OrfKept;
    var first, second := OrfCap(f, m, true), OrfCap(f, m, false);
    var code := OrfModeCode(m);
    TakeOrfCap(f, m, true, afc, n);
    var n1 := n.(orf := n.orf + if OrfKept(f) then OrfSides(f, true, code) else {});
    TakeOrfCap(f, m, false, afc, n1);
    assert [first, second] + rest == [first] + ([second] + rest);
    TakeCons(first, [second] + rest, afc, n);
    TakeCons(second, rest, afc, n1);
    var n2 := n1.(orf := n1.orf + if OrfKept(f) then OrfSides(f, false, code) else {});
    assert n2.orf == n.orf + OrfOf(f, m);
  }

  lemma {:induction false} TakeOrfCaps(fs: seq<Family>, orf: map<Family, OrfMode>, afc: set<Family>, n: Nego)
    ensures TakeAll(OrfCaps(fs, orf), afc, n) == Go(n.(orf := n.orf + OrfAdvertised(fs, orf)))
  {
    hide TakeAll, Take, OrfCap, OrfOf;
    if fs == [] {
      NothingTaken(afc, n);
      assert n.orf + {} == n.orf;
    } else {
      var f, rest := fs[0], OrfCaps(fs[1..], orf);
      if f in orf {
        var now := n.orf + OrfOf(f, orf[f]);
        TakeOrfPair(f, orf[f], rest, afc, n);
        TakeOrfCaps(fs[1..], orf, afc, n.(orf := now));
        assert now + OrfAdvertised(fs[1..], orf) == n.orf + OrfAdvertised(fs, orf);
      } else {
        assert OrfCaps(fs, orf) == rest;
        TakeOrfCaps(fs[1..], orf, afc, n);
        assert OrfAdvertised(fs, orf) == OrfAdvertised(fs[1..], orf);
      }
    }
  }

  lemma NothingTaken(afc: set<Family>, n: Nego)
    ensures TakeAll([], afc, n) == Go(n)
  {
  }

  /** The sides of route filtering a receiver hears of: those advertised, in the
      families it keeps, in both codes. */
  predicate OrfHeard(orf: map<Family, OrfMode>, r: OrfRcv)
  {
    OrfKept(r.family) && r.family in orf && orf[r.family] != (if r.sends then Receives else Sends)
  }

  lemma {:induction false} AdvertisedHeard(fs: seq<Family>, orf: map<Family, OrfMode>, r: OrfRcv)
    ensures r in OrfAdvertised(fs, orf) <==> r.family in fs && OrfHeard(orf, r)
  {
    if fs != [] {
      AdvertisedHeard(fs[1..], orf, r);
      assert r.family in fs <==> r.family == fs[0] || r.family in fs[1..];
    }
  }

  lemma KeptOffered(f: Family)
    requires OrfKept(f)
    ensures f in OrfFamilies
  {
    assert f == OrfFamilies[0] || f == OrfFamilies[1] || f == OrfFamilies[2];
  }

  // ------------------------------------------------------------ two speakers

  function FlagsHeard(a: Config): set<Flag>
  {
    {RefreshOldRcv, RefreshNewRcv, As4Rcv, RestartRcv}
    + (if a.dynamic then {DynamicRcv} else {}) + (if a.startup then {RestartBitRcv} else {})
  }

  /** What a's OPEN leaves behind at b, before b judges it. */
  ghost predicate Heard(a: Config, b: Config, n: Nego)
  {
    && n.recv == a.afc && n.nego == a.afc * b.afc
    && (n.mp <==> a.afc != {}) && (n.error == [] <==> a.afc <= b.afc)
    && n.flags == FlagsHeard(a) && n.restartTime == a.restartTime
    && n.restart == (if a.graceful then a.afc * b.afc else {}) && n.preserved == {}
    && (forall r :: r in n.orf <==> OrfHeard(a.orf, r))
  }

  lemma TakeCons(c: Cap, rest: seq<Cap>, afc: set<Family>, n: Nego)
    requires |c.data| < 254 && forall i :: 0 <= i < |rest| ==> |rest[i].data| < 254
    ensures TakeAll([c] + rest, afc, n) == var m := Take(c, afc, n); if m.Refuse? then m else TakeAll(rest, afc, m.n)
    ensures forall m :: TakeAll([], afc, m) == Go(m)
  {
    hide Take;
    assert ([c] + rest)[1..] == rest;
  }

  lemma TakeFlags(a: Config, afc: set<Family>, n: Nego)
    requires Legal(a)
    ensures Take(Cap(REFRESH_OLD, []), afc, n) == Go(Raised(n, RefreshOldRcv))
    ensures Take(Cap(REFRESH, []), afc, n) == Go(Raised(n, RefreshNewRcv))
    ensures Take(Cap(AS4, U32(SpokenAs(a))), afc, n) == Go(Raised(n, As4Rcv))
    ensures Take(Cap(DYNAMIC, []), afc, n) == Go(Raised(n, DynamicRcv))
  {
    hide TakeMp, TakeRestart, TakeOrf;
  }

  lemma TakeFirstCaps(a: Config, afc: set<Family>, n: Nego)
    requires Legal(a)
    ensures TakeAll(FirstCaps(a), afc, n) == Go(n.(flags := n.flags + {RefreshOldRcv, RefreshNewRcv, As4Rcv}))
  {
    hide Take, TakeAll;
    var n1 := Raised(n, RefreshOldRcv);
    var n2 := Raised(n1, RefreshNewRcv);
    TakeFlags(a, afc, n);
    TakeFlags(a, afc, n1);
    TakeFlags(a, afc, n2);
    var as4 := [Cap(AS4, U32(SpokenAs(a)))] + [];
    var refresh := [Cap(REFRESH, [])] + as4;
    assert FirstCaps(a) == [Cap(REFRESH_OLD, [])] + refresh;
    TakeCons(Cap(REFRESH_OLD, []), refresh, afc, n);
    TakeCons(Cap(REFRESH, []), as4, afc, n1);
    TakeCons(Cap(AS4, U32(SpokenAs(a))), [], afc, n2);
    assert n.flags + {RefreshOldRcv} + {RefreshNewRcv} + {As4Rcv} == n.flags + {RefreshOldRcv, RefreshNewRcv, As4Rcv};
  }

  lemma TakeLastCaps(a: Config, b: Config, n: Nego)
    requires Legal(a) && n.restart == {}
    ensures TakeAll(DynamicCaps(a) + [RestartCap(a)], b.afc, n) ==
            Go(n.(flags := n.flags + {RestartRcv} + (if a.dynamic then {DynamicRcv} else {})
                                   + (if a.startup then {RestartBitRcv} else {}),
                  restartTime := a.restartTime,
                  restart := if a.graceful then a.afc * b.afc else {}))
  {
    hide Take, TakeAll, RestartCap;
    var last := [RestartCap(a)] + [];
    var n1 := if a.dynamic then Raised(n, DynamicRcv) else n;
    TakeFlags(a, b.afc, n);
    TakeCons(RestartCap(a), [], b.afc, n1);
    TakeRestartCap(a, b, n1);
    if a.dynamic {
      TakeCons(Cap(DYNAMIC, []), last, b.afc, n);
      assert DynamicCaps(a) + [RestartCap(a)] == [Cap(DYNAMIC, [])] + last;
      assert n1.flags + {RestartRcv} == n.flags + {RestartRcv} + {DynamicRcv};
    } else {
      assert DynamicCaps(a) + [RestartCap(a)] == last;
      assert n.flags + {RestartRcv} == n.flags + {RestartRcv} + {};
    }
  }

  lemma TakeRestartCap(a: Config, b: Config, n: Nego)
    requires Legal(a) && n.restart == {}
    ensures Take(RestartCap(a), b.afc, n) ==
            Go(n.(flags := n.flags + {RestartRcv} + (if a.startup then {RestartBitRcv} else {}),
                  restartTime := a.restartTime,
                  restart := if a.graceful then a.afc * b.afc else {}))
  {
    var d := RestartCap(a).data;
    var families := if a.graceful then RestartFamilies(Families, a.afc) else [];
    var w := FromU16(d[0], d[1]);
    assert w == RestartTimeWord(a);
    assert d[2..] == families;
    var m := Raised(n, RestartRcv);
    var m' := (if w >= 0x8000 then Raised(m, RestartBitRcv) else m).(restartTime := w % 0x1000);
    assert w % 0x1000 == a.restartTime;
    assert m'.flags == n.flags + {RestartRcv} + (if a.startup then {RestartBitRcv} else {});
    AmongAll(a.afc);
    TakeRestartWritten(Families, a.afc, b.afc, m');
    if a.graceful { assert {} + a.afc * b.afc == a.afc * b.afc; }
  }

  lemma TakeOtherCaps(a: Config, b: Config, n: Nego)
    requires Legal(a) && n.flags == {} && n.restart == {} && n.orf == {}
    ensures TakeAll(OtherCaps(a), b.afc, n) ==
            Go(n.(flags := FlagsHeard(a), restartTime := a.restartTime,
                  restart := if a.graceful then a.afc * b.afc else {}, orf := OrfAdvertised(OrfFamilies, a.orf)))
  {
    hide Take, TakeAll, FirstCaps, OrfCaps, DynamicCaps, RestartCap, OrfAdvertised;
    var first, orf, last := FirstCaps(a), OrfCaps(OrfFamilies, a.orf), DynamicCaps(a) + [RestartCap(a)];
    var n1 := n.(flags := n.flags + {RefreshOldRcv, RefreshNewRcv, As4Rcv});
    var n2 := n1.(orf := n1.orf + OrfAdvertised(OrfFamilies, a.orf));
    assert OtherCaps(a) == first + (orf + last);
    TakeAllConcat(first, orf + last, b.afc, n);
    TakeFirstCaps(a, b.afc, n);
    TakeAllConcat(orf, last, b.afc, n1);
    TakeOrfCaps(OrfFamilies, a.orf, b.afc, n1);
    TakeLastCaps(a, b, n2);
    assert n2.orf == OrfAdvertised(OrfFamilies, a.orf);
    FlagsGathered(a, n1.flags);
  }

  lemma FlagsGathered(a: Config, flags: set<Flag>)
    requires flags == {} + {RefreshOldRcv, RefreshNewRcv, As4Rcv}
    ensures flags + {RestartRcv} + (if a.dynamic then {DynamicRcv} else {}) +
            (if a.startup then {RestartBitRcv} else {})
            == FlagsHeard(a)
  {
  }

  /** Whatever follows it in the stream, the whole of a's OPEN is understood. */
  lemma OpenHeard(a: Config, b: Config, rest: seq<byte>)
    requires Legal(a) && a.sends
    ensures var r := TakeOptions(Written(a) + rest, |Written(a)|, b.afc, Fresh); r.Go? && Heard(a, b, r.n)
  {
    hide TakeAll, TakeOptions, OtherCaps, MpCaps, OptionsBytes, OrfAdvertised, OrfHeard, FlagsHeard;
    TakeWritten(Caps(a), rest, b.afc, Fresh);
    TakeAllConcat(MpCaps(Families, a.afc), OtherCaps(a), b.afc, Fresh);
    TakeMpCaps(Families, a.afc, b.afc, Fresh);
    AmongAll(a.afc);
    TakeOtherCaps(a, b, TakeAll(MpCaps(Families, a.afc), b.afc, Fresh).n);
    forall r ensures r in OrfAdvertised(OrfFamilies, a.orf) <==> OrfHeard(a.orf, r) { OrfHeardExactly(a.orf, r); }
  }

  lemma OrfHeardExactly(orf: map<Family, OrfMode>, r: OrfRcv)
    ensures r in OrfAdvertised(OrfFamilies, orf) <==> OrfHeard(orf, r)
  {
    hide OrfAdvertised;
    AdvertisedHeard(OrfFamilies, orf, r);
    if OrfKept(r.family) { KeptOffered(r.family); }
  }

  /** The verdict of b on a's OPEN. A strict receiver accepts exactly its own
      families; otherwise it refuses only a non-empty offer with nothing in
      common. */
  lemma OpenVerdict(a: Config, b: Config, rest: seq<byte>)
    requires Legal(a) && a.sends
    ensures var r := ParseOpen(Written(a) + rest, |Written(a)|, b);
            && (r.Go? <==> if b.strict then a.afc == b.afc else a.afc == {} || a.afc * b.afc != {})
            && Heard(a, b, r.n)
  {
    hide TakeOptions, Written, OrfHeard, FlagsHeard;
    OpenHeard(a, b, rest);
    if a.afc <= b.afc { assert a.afc * b.afc == a.afc; }
  }

  /** The families b uses after a's OPEN, None if it refuses. */
  function Outcome(a: Config, b: Config): Option<set<Family>>
  {
    if !a.sends || a.afc == b.afc == {} then Some(Assumed(b))
    else if b.strict && a.afc != b.afc then None
    else if a.afc == {} then Some(Assumed(b))
    else if a.afc * b.afc == {} then None
    else Some(a.afc * b.afc)
  }

  /** What b does with the reply to a's OPEN, in sets alone. */
  lemma Decided(a: Config, b: Config, r: Reply)
    requires a.sends && r.n.nego == a.afc * b.afc && (r.n.mp <==> a.afc != {})
    requires r.Go? <==> if b.strict then a.afc == b.afc else a.afc == {} || a.afc * b.afc != {}
    ensures (match r case Refuse(_) => None case Go(n) => Some(if n.mp then n.nego else n.nego + Assumed(b))) ==
            Outcome(a, b)
  {
    if a.afc == {} { assert a.afc * b.afc + Assumed(b) == Assumed(b); }
    if a.afc == b.afc { assert a.afc * b.afc == a.afc; }
  }

  lemma SessionAfter(a: Config, b: Config, rest: seq<byte>)
    requires Legal(a)
    ensures Session(Written(a) + rest, |Written(a)|, b) == Outcome(a, b)
  {
    if a.sends {
      hide ParseOpen, Written, Heard, Outcome, Assumed;
      OpenVerdict(a, b, rest);
      WrittenSome(a);
      var r := ParseOpen(Written(a) + rest, |Written(a)|, b);
      HeardFamilies(a, b, r.n);
      Decided(a, b, r);
    }
  }

  lemma HeardFamilies(a: Config, b: Config, n: Nego)
    requires Heard(a, b, n)
    ensures n.nego == a.afc * b.afc && (n.mp <==> a.afc != {})
  {
  }

  /** When only a sends capabilities, b judges them and a falls back on its own
      configuration. */
  predicate SilentAgrees(a: Config, b: Config)
  {
    if b.strict then a.afc == b.afc == Assumed(a)
    else if a.afc == {} then Assumed(b) == {}
    else a.afc * b.afc == Assumed(a) != {}
  }

  /** When two configurations lead to the same decision on both sides. */
  predicate Agreeable(a: Config, b: Config)
  {
    if !a.sends && !b.sends then Assumed(a) == Assumed(b)
    else if !b.sends then SilentAgrees(a, b)
    else if !a.sends then SilentAgrees(b, a)
    else if a.strict && b.strict then true
    else if a.strict then a.afc == b.afc || (a.afc != {} && a.afc * b.afc == {})
    else if b.strict then a.afc == b.afc || (b.afc != {} && a.afc * b.afc == {})
    else a.afc == {} <==> b.afc == {}
  }

  lemma OutcomesAgree(a: Config, b: Config)
    ensures Outcome(a, b) == Outcome(b, a) <==> Agreeable(a, b)
    ensures a.sends && b.sends && Outcome(a, b) == Outcome(b, a) && Outcome(a, b).Some? ==>
              Outcome(a, b).value == a.afc * b.afc
  {
    assert a.afc * b.afc == b.afc * a.afc;
    if a.afc == {} || b.afc == {} { assert a.afc * b.afc == {}; }
    if a.afc == b.afc { assert a.afc * b.afc == a.afc; }
    assert a.afc == {} ==> Assumed(a) == {};
    assert b.afc == {} ==> Assumed(b) == {};
  }

  /** Two speakers end with the same decision and families exactly when their
      configurations are agreeable; if both send capabilities and accept, these
      are the common families. */
  lemma SpeakersAgree(a: Config, b: Config, restA: seq<byte>, restB: seq<byte>)
    requires Legal(a) && Legal(b)
    ensures var atB := Session(Written(a) + restA, |Written(a)|, b);
            var atA := Session(Written(b) + restB, |Written(b)|, a);
            && (atA == atB <==> Agreeable(a, b))
            && (a.sends && b.sends && atA == atB && atA.Some? ==> atA.value == a.afc * b.afc)
  {
    hide Session, Written, Outcome, Agreeable;
    SessionAfter(a, b, restA);
    SessionAfter(b, a, restB);
    OutcomesAgree(a, b);
  }

  /** When only one side offers families, the side that offers them falls back
      on its own configuration while the other refuses. */
  lemma OneSidedOfferSplits(a: Config, b: Config, restA: seq<byte>, restB: seq<byte>)
    requires Legal(a) && a.sends && Legal(b) && b.sends && !b.strict
    requires a.afc == {} && b.afc != {}
    ensures Session(Written(a) + restA, |Written(a)|, b) == Some(Assumed(b))
    ensures Session(Written(b) + restB, |Written(b)|, a) == None
  {
    SessionAfter(a, b, restA);
    SessionAfter(b, a, restB);
  }

  /** A strict speaker refuses a peer that offers more, which accepts it. */
  lemma StrictSplits(a: Config, b: Config, restA: seq<byte>, restB: seq<byte>)
    requires Legal(a) && a.sends && a.strict && Legal(b) && b.sends && !b.strict
    requires a.afc == {Family(IP, Unicast)} && b.afc == {Family(IP, Unicast), Family(IP6, Unicast)}
    ensures Session(Written(a) + restA, |Written(a)|, b) == Some(a.afc)
    ensures Session(Written(b) + restB, |Written(b)|, a) == None
  {
    SessionAfter(a, b, restA);
    SessionAfter(b, a, restB);
    assert Family(IP6, Unicast) in b.afc;
    assert a.afc * b.afc == a.afc;
  }

  lemma WrittenSome(c: Config)
    requires Legal(c) && c.sends
    ensures |Written(c)| > 0
  {
    hide OtherCaps, MpCaps;
    OtherCapsSome(c);
    assert Caps(c) != [];
  }

  lemma OtherCapsSome(c: Config)
    requires Legal(c)
    ensures OtherCaps(c) != []
  {
  }
}
