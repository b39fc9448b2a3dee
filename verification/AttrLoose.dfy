/** The private copies of parts: interning consumes the copy it was given,
    giving back leaves none, and so nothing at all is left after a balanced run
    (bgp_attr.c and the intern functions it calls). */
module AttrLoose {
  import opened AttrIntern
  import opened AttrPools

  /** Parts in memory that are in no table. */
  ghost function Loose(h: Heap): set<Id> { set x | x in h.parts && !h.parts[x].pooled }

  lemma DroppedLoose(h: Heap, x: Id)
    requires Pooled(h, x) && h.parts[x].refcnt > 0
    ensures Loose(Dropped(h, x)) == Loose(h)
  {
  }

  lemma RefTakenLoose(h: Heap, ext: multiset<Id>, x: Id)
    requires Consistent(h, ext) && x in h.parts
    ensures Loose(RefTaken(h, x).0) == Loose(h) - {x}
  {
    hide Consistent;
    PrivateAt(h, ext, x);
    if h.parts[x].refcnt == 0 { PartInternedLoose(h, ext, x); }
  }

  lemma PartInternedLoose(h: Heap, ext: multiset<Id>, x: Id)
    requires Consistent(h, ext) && x in h.parts && h.parts[x].refcnt == 0
    ensures Loose(PartInterned(h, x).0) == Loose(h) - {x}
  {
    hide Consistent, PartInterned, Gained;
    if y :| IsEqual(h, x, y) { PartInternedFound(h, ext, x, y); } else { PartInternedNew(h, ext, x); }
  }

  /** The parts given for kind j and later ones. */
  ghost function Given(refs: map<Kind, Id>, j: nat): set<Id> { set k | k in refs && Position(k) >= j :: refs[k] }

  lemma GivenStep(refs: map<Kind, Id>, j: nat)
    requires j < 6
    ensures Given(refs, j) == Given(refs, j + 1) + if KindAt(j) in refs then {refs[KindAt(j)]} else {}
  {
    hide KindAt, Position;
    PositionAt(j);
    forall x ensures x in Given(refs, j) <==>
                     x in Given(refs, j + 1) || (KindAt(j) in refs && x == refs[KindAt(j)]) {
      if x in Given(refs, j) {
        var k :| k in refs && Position(k) >= j && refs[k] == x;
        if Position(k) > j { assert x in Given(refs, j + 1); }
      }
    }
  }

  lemma NoneGiven(refs: map<Kind, Id>)
    ensures Given(refs, 6) == {}
  {
    hide Position;
    forall k: Kind { PositionBelow(k); }
  }

  lemma {:induction false} TakenFromLoose(
    orig: Heap, refs: map<Kind, Id>, h: Heap, ext: multiset<Id>, j: nat, interned: map<Kind, Id>)
    requires j <= 6 && Taking(orig, refs, h, j, interned) && Consistent(h, ext + RefsTo(interned, j))
    ensures Loose(TakenFrom(h, refs, j, interned).0) == Loose(h) - Given(refs, j)
    decreases 6 - j
  {
    hide Consistent, RefTaken, RefsTo, Taking, Loose, Given;
    if j == 6 {
      NoneGiven(refs);
    } else {
      GivenStep(refs, j);
      var k := KindAt(j);
      if k in refs {
        TakingStep(orig, refs, h, ext, j, interned);
        RefTakenLoose(h, ext + RefsTo(interned, j), refs[k]);
        var (g, x) := RefTaken(h, refs[k]);
        TakenFromLoose(orig, refs, g, ext, j + 1, interned[k := x]);
      } else {
        TakingSkip(orig, refs, h, ext, j, interned);
        TakenFromLoose(orig, refs, h, ext, j + 1, interned);
      }
    }
  }

  lemma AttrInternedLoose(h: Heap, ext: multiset<Id>, scalars: int, refs: map<Kind, Id>)
    requires Consistent(h, ext) && forall k :: k in refs ==> refs[k] in h.parts && h.parts[refs[k]].kind == k
    ensures Loose(AttrInterned(h, scalars, refs).0) == Loose(h) - Given(refs, 0)
  {
    hide Consistent, RefsTo, TakenFrom, Inserted, RefsLive, Taking, Given;
    TakingStarts(h, refs);
    RefsToNone(map[]);
    assert ext + RefsTo(map[], 0) == ext;
    TakenFromKeeps(h, refs, h, ext, 0, map[]);
    TakenFromLoose(h, refs, h, ext, 0, map[]);
    var (g, m) := TakenFrom(h, refs, 0, map[]);
    TakingEnds(h, refs, g, m);
    InsertedKeeps(g, ext + RefsOf(m), scalars, m);
  }

  lemma {:induction false} DroppedFromLoose(h: Heap, ext: multiset<Id>, refs: map<Kind, Id>, j: nat)
    requires j <= 6 && Consistent(h, ext + RefsFrom(refs, j))
    ensures Loose(DroppedFrom(h, refs, j)) == Loose(h)
    decreases 6 - j
  {
    hide Consistent, RefsFrom, Loose, Dropped, Pooled, KindAt, DroppedFrom;
    DroppedFromStep(h, refs, j);
    if j < 6 {
      if KindAt(j) in refs {
        var x := refs[KindAt(j)];
        DropNext(h, ext, refs, j);
        DropKeeps(h, ext + RefsFrom(refs, j), x);
        DroppedLoose(h, x);
        DroppedFromLoose(Dropped(h, x), ext, refs, j + 1);
      } else {
        RefsFromStep(refs, j);
        assert RefsFrom(refs, j) == RefsFrom(refs, j + 1);
        DroppedFromLoose(h, ext, refs, j + 1);
      }
    }
  }

  lemma DroppedFromStep(h: Heap, refs: map<Kind, Id>, j: nat)
    requires j <= 6
    ensures DroppedFrom(h, refs, 6) == h
    ensures j < 6 && KindAt(j) !in refs ==> DroppedFrom(h, refs, j) == DroppedFrom(h, refs, j + 1)
    ensures j < 6 && KindAt(j) in refs && refs[KindAt(j)] in h.parts && h.parts[refs[KindAt(j)]].refcnt > 0 ==>
              DroppedFrom(h, refs, j) == DroppedFrom(Dropped(h, refs[KindAt(j)]), refs, j + 1)
  {
    hide KindAt, Dropped;
  }

  lemma AttrUninternedLoose(h: Heap, ext: multiset<Id>, i: Id)
    requires Consistent(h, ext) && i in h.attrs
    ensures h.attrs[i].refcnt > 0 && Loose(AttrUninterned(h, i)) == Loose(h)
  {
    hide Consistent, RefsTo, DroppedFrom;
    AttrReferenced(h, ext, i);
    AttrDropKeeps(h, ext, i);
    var refs := h.attrs[i].refs;
    RefsToNone(refs);
    assert RefsFrom(refs, 0) == RefsOf(refs);
    DroppedFromLoose(AttrDropped(h, i), ext, refs, 0);
  }

  /** Who owns a private copy after an operation: it is made, freed, or consumed
      by the intern function it is given to. */
  ghost function Owning(s: State, owned: set<Id>, op: Op): set<Id>
  {
    match op
    case MakePart(_, _) => owned + {s.h.next}
    case FreePart(x) => owned - {x}
    case InternPart(x) => owned - {x}
    case InternAttr(_, refs) => owned - set k | k in refs :: refs[k]
    case _ => owned
  }

  lemma LooseStep(s: State, op: Op)
    requires Inv(s) && Proper(s, op)
    ensures Loose(Next(s, op).h) == Owning(s, Loose(s.h), op)
  {
    hide Consistent, HeldExact, PartInterned, AttrInterned, AttrUninterned, Dropped;
    match op {
      case MakePart(kind, value) => NextUnused(s.h, s.ext);
      case FreePart(x) =>
      case InternPart(x) => PartInternedLoose(s.h, s.ext, x);
      case UninternPart(x) => DropKeeps(s.h, s.ext, x); DroppedLoose(s.h, x);
      case InternAttr(scalars, refs) =>
        AttrInternedLoose(s.h, s.ext, scalars, refs);
        assert Given(refs, 0) == set k | k in refs :: refs[k];
      case UninternAttr(i) =>
        HeldThere(s.h, s.held, i);
        AttrUninternedLoose(s.h, s.ext, i);
    }
  }

  /** The copies made in a run and neither freed nor handed to an intern
      function. */
  ghost function Owned(s: State, owned: set<Id>, ops: seq<Op>): set<Id>
    requires Inv(s)
    decreases |ops|
  {
    if ops == [] then owned
    else if Proper(s, ops[0]) then
      NextKeepsInv(s, ops[0]);
      Owned(Next(s, ops[0]), Owning(s, owned, ops[0]), ops[1..])
    else Owned(s, owned, ops[1..])
  }

  lemma {:induction false} LooseIsOwned(s: State, ops: seq<Op>)
    requires Inv(s)
    ensures Loose(Run(s, ops).h) == Owned(s, Loose(s.h), ops)
    decreases |ops|
  {
    hide Inv, Proper, Next, Loose, Owning;
    if ops != [] {
      if Proper(s, ops[0]) {
        NextKeepsInv(s, ops[0]);
        LooseStep(s, ops[0]);
        LooseIsOwned(Next(s, ops[0]), ops[1..]);
      } else {
        LooseIsOwned(s, ops[1..]);
      }
    }
  }

  /** In every run from empty pools the copies left in memory are exactly those
      somebody still owns; and once every reference was given back and every
      copy freed or interned, memory is empty. */
  lemma NothingLeaks(ops: seq<Op>)
    ensures Inv(Empty)
    ensures var s := Run(Empty, ops);
            && (forall x :: x in s.h.parts && !s.h.parts[x].pooled <==> x in Owned(Empty, {}, ops))
            && (s.ext == multiset{} && s.held == multiset{} && Owned(Empty, {}, ops) == {} ==>
                  s.h.attrs == map[] && s.h.parts == map[])
  {
    EmptyFits();
    hide Run, Owned, Consistent, HeldExact;
    LooseIsOwned(Empty, ops);
    EveryRun(ops);
    var s := Run(Empty, ops);
    assert Loose(Empty.h) == {};
    assert forall x :: x in s.h.parts && !s.h.parts[x].pooled <==> x in Loose(s.h);
    if s.ext == multiset{} && s.held == multiset{} && Owned(Empty, {}, ops) == {} {
      forall x: Id ensures x !in s.h.parts { assert !Pooled(s.h, x) && x !in Loose(s.h); }
    }
  }
}
