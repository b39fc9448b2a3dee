/** bgp_attr_intern, bgp_attr_unintern and the intern functions of the parts, as
    operations on the ledger, in every run, and as code. */
module AttrPools {
  import opened AttrIntern

  // ------------------------------------------------------------- interning parts

  ghost predicate IsEqual(h: Heap, x: Id, y: Id)
  {
    x in h.parts && y != x && Pooled(h, y) && SamePart(h.parts[y], h.parts[x])
  }

  /** The pattern of aspath_intern and its siblings: find or insert, free the
      copy when an equal part was found, count one reference. */
  ghost function PartInterned(h: Heap, x: Id): (Heap, Id)
    requires x in h.parts
  {
    if y :| IsEqual(h, x, y) then
      (WithPart(h.(parts := h.parts - {x}), y, h.parts[y].(refcnt := h.parts[y].refcnt + 1)), y)
    else (WithPart(h, x, h.parts[x].(refcnt := 1, pooled := true)), x)
  }

  /** What bgp_attr_intern does with one part: intern a private copy, or count
      one more reference to an interned part. */
  ghost function RefTaken(h: Heap, x: Id): (Heap, Id)
    requires x in h.parts
  {
    if h.parts[x].refcnt == 0 then PartInterned(h, x)
    else (WithPart(h, x, h.parts[x].(refcnt := h.parts[x].refcnt + 1)), x)
  }

  /** What is in the tables stays in them, unchanged. */
  ghost predicate Lasting(h: Heap, g: Heap)
  {
    forall y :: Pooled(h, y) ==> Pooled(g, y) && SamePart(g.parts[y], h.parts[y])
  }

  /** One outside reference to a part equal to x was gained. */
  ghost predicate Gained(h: Heap, ext: multiset<Id>, x: Id, g: Heap, find: Id)
  {
    && Consistent(g, ext + multiset{find}) && g.attrs == h.attrs && g.next == h.next
    && x in h.parts && Pooled(g, find) && SamePart(g.parts[find], h.parts[x]) && SameBut(h, g, x)
    && Lasting(h, g)
  }

  /** Equal parts in the table are one, so any search finds the same. */
  lemma EqualUnique(h: Heap, ext: multiset<Id>, x: Id, y: Id, z: Id)
    requires Consistent(h, ext) && IsEqual(h, x, y) && IsEqual(h, x, z)
    ensures y == z
  {
  }

  lemma PartInternedFound(h: Heap, ext: multiset<Id>, x: Id, y: Id)
    requires Consistent(h, ext) && x in h.parts && h.parts[x].refcnt == 0 && IsEqual(h, x, y)
    ensures var g := WithPart(h.(parts := h.parts - {x}), y, h.parts[y].(refcnt := h.parts[y].refcnt + 1));
            PartInterned(h, x) == (g, y) && Gained(h, ext, x, g, y)
  {
    hide Consistent;
    forall z | IsEqual(h, x, z) ensures z == y { EqualUnique(h, ext, x, y, z); }
    PrivateAt(h, ext, x);
    FreeKeeps(h, ext, x);
    BumpKeeps(h.(parts := h.parts - {x}), ext, y);
  }

  lemma PartInternedNew(h: Heap, ext: multiset<Id>, x: Id)
    requires Consistent(h, ext) && x in h.parts && h.parts[x].refcnt == 0 && forall y :: !IsEqual(h, x, y)
    ensures var g := WithPart(h, x, h.parts[x].(refcnt := 1, pooled := true));
            PartInterned(h, x) == (g, x) && Gained(h, ext, x, g, x)
  {
    hide Consistent;
    PrivateAt(h, ext, x);
    forall y | Pooled(h, y) ensures !SamePart(h.parts[x], h.parts[y]) { assert !IsEqual(h, x, y); }
    PoolKeeps(h, ext, x);
  }

  lemma PartInternedKeeps(h: Heap, ext: multiset<Id>, x: Id)
    requires Consistent(h, ext) && x in h.parts && h.parts[x].refcnt == 0
    ensures Gained(h, ext, x, PartInterned(h, x).0, PartInterned(h, x).1)
  {
    hide Consistent, Gained, PartInterned;
    if y :| IsEqual(h, x, y) { PartInternedFound(h, ext, x, y); } else { PartInternedNew(h, ext, x); }
  }

  lemma RefTakenKeeps(h: Heap, ext: multiset<Id>, x: Id)
    requires Consistent(h, ext) && x in h.parts
    ensures Gained(h, ext, x, RefTaken(h, x).0, RefTaken(h, x).1)
  {
    hide Consistent, PartInterned;
    if h.parts[x].refcnt == 0 {
      PartInternedKeeps(h, ext, x);
    } else {
      PrivateAt(h, ext, x);
      BumpKeeps(h, ext, x);
    }
  }

  // -------------------------------------------------------- interning attributes

  /** The parts from kind j on, taken one after the other. */
  ghost function TakenFrom(h: Heap, refs: map<Kind, Id>, j: nat, interned: map<Kind, Id>): (Heap, map<Kind, Id>)
    requires j <= 6
    decreases 6 - j
  {
    if j == 6 then (h, interned)
    else if KindAt(j) in refs && refs[KindAt(j)] in h.parts then
      var (g, x) := RefTaken(h, refs[KindAt(j)]);
      TakenFrom(g, refs, j + 1, interned[KindAt(j) := x])
    else TakenFrom(h, refs, j + 1, interned)
  }

  ghost predicate IsSame(h: Heap, scalars: int, refs: map<Kind, Id>, i: Id)
  {
    i in h.attrs && SameAttr(h.attrs[i], NewAttr(scalars, refs))
  }

  /** hash_get on the attribute table, and one reference more. */
  ghost function Inserted(h: Heap, scalars: int, refs: map<Kind, Id>): (Heap, Id)
  {
    if i :| IsSame(h, scalars, refs, i) then (Bumped(h, i), i)
    else (WithAttr(h, h.next, NewAttr(scalars, refs)), h.next)
  }

  /** bgp_attr_intern. */
  ghost function AttrInterned(h: Heap, scalars: int, refs: map<Kind, Id>): (Heap, Id)
  {
    var (g, interned) := TakenFrom(h, refs, 0, map[]);
    Inserted(g, scalars, interned)
  }

  /** Where the taking of parts stands: those before kind j are interned, those
      from j on are as they were, and each is equal to what was asked for. */
  ghost predicate Taking(orig: Heap, refs: map<Kind, Id>, h: Heap, j: nat, interned: map<Kind, Id>)
  {
    && h.attrs == orig.attrs && h.next == orig.next && Lasting(orig, h)
    && (forall k :: k in refs ==> refs[k] in orig.parts && orig.parts[refs[k]].kind == k)
    && (forall k :: k in interned <==> k in refs && Position(k) < j)
    && (forall k :: k in interned ==> Pooled(h, interned[k]) && SamePart(h.parts[interned[k]], orig.parts[refs[k]]))
    && (forall k :: k in refs && Position(k) >= j ==>
        refs[k] in h.parts && SamePart(h.parts[refs[k]], orig.parts[refs[k]]))
  }

  lemma TakingStep(orig: Heap, refs: map<Kind, Id>, h: Heap, ext: multiset<Id>, j: nat, interned: map<Kind, Id>)
    requires Taking(orig, refs, h, j, interned) && j < 6 && KindAt(j) in refs
    requires Consistent(h, ext + RefsTo(interned, j))
    ensures var k := KindAt(j);
            refs[k] in h.parts &&
            var (g, x) := RefTaken(h, refs[k]);
            Taking(orig, refs, g, j + 1, interned[k := x]) && Consistent(g, ext + RefsTo(interned[k := x], j + 1))
  {
    hide Consistent, RefTaken, RefsTo;
    var k := KindAt(j);
    PositionAt(j);
    RefTakenKeeps(h, ext + RefsTo(interned, j), refs[k]);
    var (g, x) := RefTaken(h, refs[k]);
    RefsToAdd(interned, k, x, j);
    assert ext + RefsTo(interned, j) + multiset{x} == ext + (RefsTo(interned, j) + multiset{x});
    TakingNext(orig, refs, h, g, j, interned, x);
  }

  lemma TakingNext(orig: Heap, refs: map<Kind, Id>, h: Heap, g: Heap, j: nat, interned: map<Kind, Id>, x: Id)
    requires Taking(orig, refs, h, j, interned) && j < 6 && KindAt(j) in refs
    requires g.attrs == h.attrs && g.next == h.next && SameBut(h, g, refs[KindAt(j)]) && Lasting(h, g)
    requires Pooled(g, x) && SamePart(g.parts[x], h.parts[refs[KindAt(j)]])
    ensures Taking(orig, refs, g, j + 1, interned[KindAt(j) := x])
  {
    hide KindAt, Position;
    PositionAt(j);
    forall k | k in interned ensures Pooled(g, interned[k]) && SamePart(g.parts[interned[k]], orig.parts[refs[k]]) {
      assert h.parts[interned[k]].kind == k != KindAt(j);
    }
    forall k | k in refs && Position(k) >= j + 1
      ensures refs[k] in g.parts && SamePart(g.parts[refs[k]], orig.parts[refs[k]]) {
      assert k != KindAt(j) && refs[k] != refs[KindAt(j)];
    }
  }

  lemma TakingSkip(orig: Heap, refs: map<Kind, Id>, h: Heap, ext: multiset<Id>, j: nat, interned: map<Kind, Id>)
    requires Taking(orig, refs, h, j, interned) && j < 6 && KindAt(j) !in refs
    requires Consistent(h, ext + RefsTo(interned, j))
    ensures Taking(orig, refs, h, j + 1, interned) && Consistent(h, ext + RefsTo(interned, j + 1))
  {
    hide Consistent;
    PositionAt(j);
    RefsToSkip(interned, j);
  }

  lemma {:induction false} TakenFromKeeps(orig: Heap, refs: map<Kind, Id>, h: Heap, ext: multiset<Id>, j: nat,
                                          interned: map<Kind, Id>)
    requires j <= 6 && Taking(orig, refs, h, j, interned) && Consistent(h, ext + RefsTo(interned, j))
    ensures var (g, m) := TakenFrom(h, refs, j, interned); Taking(orig, refs, g, 6, m) && Consistent(g, ext + RefsOf(m))
    decreases 6 - j
  {
    hide Consistent, RefTaken, RefsTo, Taking;
    if j < 6 {
      var k := KindAt(j);
      if k in refs {
        TakingStep(orig, refs, h, ext, j, interned);
        var (g, x) := RefTaken(h, refs[k]);
        TakenFromKeeps(orig, refs, g, ext, j + 1, interned[k := x]);
      } else {
        TakingSkip(orig, refs, h, ext, j, interned);
        TakenFromKeeps(orig, refs, h, ext, j + 1, interned);
      }
    }
  }

  lemma TakingStarts(h: Heap, refs: map<Kind, Id>)
    requires forall k :: k in refs ==> refs[k] in h.parts && h.parts[refs[k]].kind == k
    ensures Taking(h, refs, h, 0, map[])
  {
  }

  lemma TakingEnds(orig: Heap, refs: map<Kind, Id>, h: Heap, m: map<Kind, Id>)
    requires Taking(orig, refs, h, 6, m)
    ensures RefsLive(h, m) && m.Keys == refs.Keys
  {
    forall k | k in refs ensures k in m { PositionBelow(k); }
  }

  /** The attribute found or made: everything else stays, one reference more. */
  ghost predicate Referenced(h: Heap, ext: multiset<Id>, scalars: int, refs: map<Kind, Id>, g: Heap, find: Id)
  {
    && Consistent(g, ext - RefsOf(refs)) && g.parts == h.parts
    && find in g.attrs && g.attrs[find].scalars == scalars && g.attrs[find].refs == refs
    && g.attrs[find].refcnt == CountOf(h, find) + 1
    && (forall i :: i != find ==> (i in g.attrs <==> i in h.attrs) && (i in g.attrs ==> g.attrs[i] == h.attrs[i]))
  }

  lemma SameUnique(h: Heap, ext: multiset<Id>, scalars: int, refs: map<Kind, Id>, i: Id, j: Id)
    requires Consistent(h, ext) && IsSame(h, scalars, refs, i) && IsSame(h, scalars, refs, j)
    ensures i == j
  {
  }

  lemma InsertedFound(h: Heap, ext: multiset<Id>, scalars: int, refs: map<Kind, Id>, i: Id)
    requires Consistent(h, ext) && RefsOf(refs) <= ext && IsSame(h, scalars, refs, i)
    ensures Inserted(h, scalars, refs) == (Bumped(h, i), i) && Referenced(h, ext, scalars, refs, Bumped(h, i), i)
  {
    hide Consistent, RefsOf;
    forall j | IsSame(h, scalars, refs, j) ensures j == i { SameUnique(h, ext, scalars, refs, i, j); }
    AttrBumpKeeps(h, ext, i);
  }

  lemma InsertedNew(h: Heap, ext: multiset<Id>, scalars: int, refs: map<Kind, Id>)
    requires Consistent(h, ext) && RefsLive(h, refs) && RefsOf(refs) <= ext && forall i :: !IsSame(h, scalars, refs, i)
    ensures var g := WithAttr(h, h.next, NewAttr(scalars, refs));
            Inserted(h, scalars, refs) == (g, h.next) && Referenced(h, ext, scalars, refs, g, h.next)
  {
    hide Consistent, RefsOf, RefsLive;
    NextUnused(h, ext);
    forall j | j in h.attrs ensures !SameAttr(h.attrs[j], NewAttr(scalars, refs)) {
      assert !IsSame(h, scalars, refs, j);
    }
    AttrNewKeeps(h, ext, scalars, refs);
  }

  lemma InsertedKeeps(h: Heap, ext: multiset<Id>, scalars: int, refs: map<Kind, Id>)
    requires Consistent(h, ext) && RefsLive(h, refs) && RefsOf(refs) <= ext
    ensures Referenced(h, ext, scalars, refs, Inserted(h, scalars, refs).0, Inserted(h, scalars, refs).1)
  {
    hide Consistent, RefsOf, RefsLive, Inserted, Referenced;
    if i :| IsSame(h, scalars, refs, i) {
      InsertedFound(h, ext, scalars, refs, i);
    } else {
      InsertedNew(h, ext, scalars, refs);
    }
  }

  /** bgp_attr_intern: afterwards one attribute with the given fields, and parts
      equal to the given ones, has one reference more. */
  ghost predicate Interned(h: Heap, ext: multiset<Id>, scalars: int, refs: map<Kind, Id>, g: Heap, find: Id)
  {
    && Consistent(g, ext) && Lasting(h, g) && find in g.attrs && g.attrs[find].scalars == scalars
    && g.attrs[find].refs.Keys == refs.Keys
    && (forall k :: k in refs ==> refs[k] in h.parts && Pooled(g, g.attrs[find].refs[k])
                                  && SamePart(g.parts[g.attrs[find].refs[k]], h.parts[refs[k]]))
    && g.attrs[find].refcnt == CountOf(h, find) + 1
    && (forall i :: i != find ==> (i in g.attrs <==> i in h.attrs) && (i in g.attrs ==> g.attrs[i] == h.attrs[i]))
  }

  lemma AttrInternedKeeps(h: Heap, ext: multiset<Id>, scalars: int, refs: map<Kind, Id>)
    requires Consistent(h, ext) && forall k :: k in refs ==> refs[k] in h.parts && h.parts[refs[k]].kind == k
    ensures Interned(h, ext, scalars, refs, AttrInterned(h, scalars, refs).0, AttrInterned(h, scalars, refs).1)
  {
    hide Consistent, RefsTo, TakenFrom, Inserted, RefsLive;
    TakingStarts(h, refs);
    RefsToNone(map[]);
    assert ext + RefsTo(map[], 0) == ext;
    TakenFromKeeps(h, refs, h, ext, 0, map[]);
    var (g, m) := TakenFrom(h, refs, 0, map[]);
    TakingEnds(h, refs, g, m);
    InsertedKeeps(g, ext + RefsOf(m), scalars, m);
    assert ext + RefsOf(m) - RefsOf(m) == ext;
  }

  // ------------------------------------------------------ giving attributes back

  /** bgp_attr_unintern_sub from kind j on. */
  ghost function DroppedFrom(h: Heap, refs: map<Kind, Id>, j: nat): Heap
    requires j <= 6
    decreases 6 - j
  {
    if j == 6 then h
    else if KindAt(j) in refs && refs[KindAt(j)] in h.parts && h.parts[refs[KindAt(j)]].refcnt > 0 then
      DroppedFrom(Dropped(h, refs[KindAt(j)]), refs, j + 1)
    else DroppedFrom(h, refs, j + 1)
  }

  /** bgp_attr_unintern. */
  ghost function AttrUninterned(h: Heap, i: Id): Heap
    requires i in h.attrs && h.attrs[i].refcnt > 0
  {
    DroppedFrom(AttrDropped(h, i), h.attrs[i].refs, 0)
  }

  lemma DropNext(h: Heap, ext: multiset<Id>, refs: map<Kind, Id>, j: nat)
    requires j < 6 && Consistent(h, ext + RefsFrom(refs, j)) && KindAt(j) in refs
    ensures refs[KindAt(j)] in h.parts && h.parts[refs[KindAt(j)]].refcnt > 0
    ensures refs[KindAt(j)] in ext + RefsFrom(refs, j)
    ensures Consistent(Dropped(h, refs[KindAt(j)]), ext + RefsFrom(refs, j + 1))
  {
    hide Consistent, RefsTo, Dropped;
    RefsFromStep(refs, j);
    var x := refs[KindAt(j)];
    assert x in ext + RefsFrom(refs, j);
    DropKeeps(h, ext + RefsFrom(refs, j), x);
    assert ext + RefsFrom(refs, j) - multiset{x} == ext + RefsFrom(refs, j + 1);
  }

  lemma {:induction false} DroppedFromKeeps(h: Heap, ext: multiset<Id>, refs: map<Kind, Id>, j: nat)
    requires j <= 6 && Consistent(h, ext + RefsFrom(refs, j))
    ensures Consistent(DroppedFrom(h, refs, j), ext) && DroppedFrom(h, refs, j).attrs == h.attrs
    decreases 6 - j
  {
    hide Consistent, RefsTo;
    if j == 6 {
      RefsFromStep(refs, 5);
      assert ext + RefsFrom(refs, 6) == ext;
    } else if KindAt(j) in refs {
      DropNext(h, ext, refs, j);
      DroppedFromKeeps(Dropped(h, refs[KindAt(j)]), ext, refs, j + 1);
    } else {
      RefsFromStep(refs, j);
      assert RefsFrom(refs, j) == RefsFrom(refs, j + 1);
      DroppedFromKeeps(h, ext, refs, j + 1);
    }
  }

  lemma AttrUninternedKeeps(h: Heap, ext: multiset<Id>, i: Id)
    requires Consistent(h, ext) && i in h.attrs
    ensures h.attrs[i].refcnt > 0 && Consistent(AttrUninterned(h, i), ext)
    ensures AttrUninterned(h, i).attrs == AttrDropped(h, i).attrs
  {
    hide Consistent, RefsTo, AttrDropped, DroppedFrom;
    AttrReferenced(h, ext, i);
    AttrDropKeeps(h, ext, i);
    var refs := h.attrs[i].refs;
    RefsToNone(refs);
    assert RefsFrom(refs, 0) == RefsOf(refs);
    DroppedFromKeeps(AttrDropped(h, i), ext, refs, 0);
  }

  /** One reference for each part behind kind j and later ones. */
  ghost function RefsFrom(refs: map<Kind, Id>, j: nat): multiset<Id>
    requires j <= 6
  {
    RefsOf(refs) - RefsTo(refs, j)
  }

  lemma {:induction false} RefsToGrows(refs: map<Kind, Id>, j: nat)
    requires j <= 6
    ensures RefsTo(refs, j) <= RefsOf(refs)
    decreases 6 - j
  {
    if j < 6 { RefsToGrows(refs, j + 1); }
  }

  lemma {:induction false} RefsFromStep(refs: map<Kind, Id>, j: nat)
    requires j < 6
    ensures RefsFrom(refs, j) ==
            RefsFrom(refs, j + 1) + if KindAt(j) in refs then multiset{refs[KindAt(j)]} else multiset{}
    ensures RefsFrom(refs, 6) == multiset{}
  {
    RefsToGrows(refs, j + 1);
  }

  // ------------------------------------------------------------------ every run

  /** The pools, the part references held outside attributes, and the attribute
      references held. */
  datatype State = State(h: Heap, ext: multiset<Id>, held: multiset<Id>)

  const Empty := State(Heap(map[], map[], 0), multiset{}, multiset{})

  /** What code outside these functions calls: a part is made or, not being
      interned, freed; parts and attributes are interned and given back. */
  datatype Op =
    | MakePart(kind: Kind, value: int)
    | FreePart(x: Id)
    | InternPart(x: Id)
    | UninternPart(x: Id)
    | InternAttr(scalars: int, refs: map<Kind, Id>)
    | UninternAttr(i: Id)

  /** What the functions ask of their callers: an existing object of the right
      kind, and a reference to give back. */
  ghost predicate Proper(s: State, op: Op)
  {
    match op
    case MakePart(_, _) => true
    case FreePart(x) => x in s.h.parts && s.h.parts[x].refcnt == 0
    case InternPart(x) => x in s.h.parts && s.h.parts[x].refcnt == 0
    case UninternPart(x) => x in s.ext
    case InternAttr(_, refs) => forall k :: k in refs ==> refs[k] in s.h.parts && s.h.parts[refs[k]].kind == k
    case UninternAttr(i) => i in s.held
  }

  ghost predicate Inv(s: State) { Consistent(s.h, s.ext) && HeldExact(s.h, s.held) }

  ghost function Next(s: State, op: Op): State
    requires Inv(s) && Proper(s, op)
  {
    match op
    case MakePart(kind, value) => s.(h := Allocated(s.h, kind, value))
    case FreePart(x) => s.(h := s.h.(parts := s.h.parts - {x}))
    case InternPart(x) => var (g, find) := PartInterned(s.h, x); s.(h := g, ext := s.ext + multiset{find})
    case UninternPart(x) => DropKeeps(s.h, s.ext, x); s.(h := Dropped(s.h, x), ext := s.ext - multiset{x})
    case InternAttr(scalars, refs) =>
      var (g, find) := AttrInterned(s.h, scalars, refs); s.(h := g, held := s.held + multiset{find})
    case UninternAttr(i) => AttrReferenced(s.h, s.ext, i); s.(h := AttrUninterned(s.h, i), held := s.held - multiset{i})
  }

  lemma HeldMore(h: Heap, ext: multiset<Id>, held: multiset<Id>, scalars: int, refs: map<Kind, Id>, g: Heap, find: Id)
    requires HeldExact(h, held) && Interned(h, ext, scalars, refs, g, find)
    ensures HeldExact(g, held + multiset{find})
  {
    hide Consistent;
  }

  lemma HeldLess(h: Heap, held: multiset<Id>, g: Heap, i: Id)
    requires HeldExact(h, held) && i in held && h.attrs[i].refcnt > 0 && g.attrs == AttrDropped(h, i).attrs
    ensures HeldExact(g, held - multiset{i})
  {
  }

  lemma NextKeepsInv(s: State, op: Op)
    requires Inv(s) && Proper(s, op)
    ensures Inv(Next(s, op))
  {
    hide Consistent, HeldExact, PartInterned, AttrInterned, AttrUninterned, Dropped;
    match op {
      case MakePart(kind, value) =>
        AllocKeeps(s.h, s.ext, kind, value);
        HeldSame(s.h, Allocated(s.h, kind, value), s.held);
      case FreePart(x) =>
        PrivateAt(s.h, s.ext, x);
        FreeKeeps(s.h, s.ext, x);
        HeldSame(s.h, s.h.(parts := s.h.parts - {x}), s.held);
      case InternPart(x) => PartInternedKeeps(s.h, s.ext, x); HeldSame(s.h, PartInterned(s.h, x).0, s.held);
      case UninternPart(x) => DropKeeps(s.h, s.ext, x); DroppedAttrs(s.h, x); HeldSame(s.h, Dropped(s.h, x), s.held);
      case InternAttr(scalars, refs) =>
        AttrInternedKeeps(s.h, s.ext, scalars, refs);
        var (g, find) := AttrInterned(s.h, scalars, refs);
        HeldMore(s.h, s.ext, s.held, scalars, refs, g, find);
      case UninternAttr(i) =>
        HeldThere(s.h, s.held, i);
        AttrUninternedKeeps(s.h, s.ext, i);
        HeldLess(s.h, s.held, AttrUninterned(s.h, i), i);
    }
  }

  lemma HeldSame(h: Heap, g: Heap, held: multiset<Id>)
    requires HeldExact(h, held) && g.attrs == h.attrs
    ensures HeldExact(g, held)
  {
  }

  lemma HeldThere(h: Heap, held: multiset<Id>, i: Id)
    requires HeldExact(h, held) && i in held
    ensures i in h.attrs
  {
  }

  lemma DroppedAttrs(h: Heap, x: Id)
    requires x in h.parts && h.parts[x].refcnt > 0
    ensures Dropped(h, x).attrs == h.attrs
  {
  }

  /** The state a run ends in; what no caller may do is not done. */
  ghost function Run(s: State, ops: seq<Op>): (r: State)
    requires Inv(s)
    ensures Inv(r)
    decreases |ops|
  {
    if ops == [] then s
    else if Proper(s, ops[0]) then NextKeepsInv(s, ops[0]); Run(Next(s, ops[0]), ops[1..])
    else Run(s, ops[1..])
  }

  lemma EmptyFits()
    ensures Inv(Empty)
  {
  }

  /** In every run from empty pools equal attributes share one object, every
      count is exact and nothing live points to a freed part; and once every
      reference taken was given back, no attribute and no interned part is left. */
  lemma EveryRun(ops: seq<Op>)
    ensures Inv(Empty)
    ensures var s := Run(Empty, ops);
            && Unique(s.h) && NoDangling(s.h) && Exact(s.h, s.ext) && HeldExact(s.h, s.held)
            && (s.ext == multiset{} && s.held == multiset{} ==> s.h.attrs == map[] && forall x :: !Pooled(s.h, x))
  {
    EmptyFits();
    hide Run, Unique, NoDangling, Exact, HeldExact, Addressed;
    var s := Run(Empty, ops);
    if s.ext == multiset{} && s.held == multiset{} { BalancedEmpties(s.h, s.ext, s.held); }
  }

  /** Interning the same content again, in any state of any run and however the
      parts were made, returns the same object. */
  lemma InternedAgain(s: State, i: Id, scalars: int, refs: map<Kind, Id>)
    requires Inv(s) && i in s.h.attrs && s.h.attrs[i].scalars == scalars && s.h.attrs[i].refs.Keys == refs.Keys
    requires forall k :: k in refs ==>
             refs[k] in s.h.parts && SamePart(s.h.parts[refs[k]], s.h.parts[s.h.attrs[i].refs[k]])
    requires forall k :: k in refs ==> s.h.parts[refs[k]].kind == k
    ensures AttrInterned(s.h, scalars, refs).1 == i
  {
    hide AttrInterned, Consistent, HeldExact;
    AttrInternedKeeps(s.h, s.ext, scalars, refs);
    var (g, find) := AttrInterned(s.h, scalars, refs);
    if find != i {
      PartsLive(s.h, s.ext, i);
      EqualAttrsShare(g, s.ext, i, find);
    }
  }

  lemma PartsLive(h: Heap, ext: multiset<Id>, i: Id)
    requires Consistent(h, ext) && i in h.attrs
    ensures forall k :: k in h.attrs[i].refs ==> Pooled(h, h.attrs[i].refs[k])
  {
    LiveAt(h, i);
  }

  // ---------------------------------------------------------- the code as it runs

  /** The intern tables with the functions that change them. */
  class Tables {
    var h: Heap
    ghost var ext: multiset<Id>
    ghost var held: multiset<Id>

    ghost function Now(): State
      reads this
    {
      State(h, ext, held)
    }

    constructor ()
      ensures Now() == Empty && Inv(Now())
    {
      h := Heap(map[], map[], 0);
      ext, held := multiset{}, multiset{};
    }

    /** A freshly made part, private to its maker. */
    method NewPart(kind: Kind, value: int) returns (x: Id)
      requires Inv(Now())
      modifies this
      ensures Now() == Next(old(Now()), MakePart(kind, value)) && Inv(Now())
      ensures x in h.parts && h.parts[x] == Part(kind, value, 0, false)
    {
      NextKeepsInv(Now(), MakePart(kind, value));
      x := h.next;
      h := Allocated(h, kind, value);
    }

    /** aspath_intern and its siblings, without the account of who holds it. */
    method FindPart(x: Id, ghost all: multiset<Id>) returns (find: Id)
      requires Consistent(h, all) && x in h.parts && h.parts[x].refcnt == 0
      modifies this`h
      ensures (h, find) == PartInterned(old(h), x)
    {
      hide Consistent, PartInterned, Gained;
      PrivateAt(h, all, x);
      if y :| y in h.parts && h.parts[y].pooled && SamePart(h.parts[y], h.parts[x]) {
        PartInternedFound(h, all, x, y);
        find := y;
        h := h.(parts := h.parts - {x});
        h := WithPart(h, find, h.parts[find].(refcnt := h.parts[find].refcnt + 1));
      } else {
        PartInternedNew(h, all, x);
        find := x;
        h := WithPart(h, x, h.parts[x].(refcnt := 1, pooled := true));
      }
    }

    method PartIntern(x: Id) returns (find: Id)
      requires Inv(Now()) && x in h.parts && h.parts[x].refcnt == 0
      modifies this
      ensures Now() == Next(old(Now()), InternPart(x)) && Inv(Now())
      ensures find in ext && Pooled(h, find) && SamePart(h.parts[find], old(h.parts[x]))
      ensures find != x ==> x !in h.parts
    {
      hide Consistent, HeldExact, Next;
      NextKeepsInv(Now(), InternPart(x));
      PartInternedKeeps(h, ext, x);
      InternedElsewhere(h, x);
      PartStep(Now(), x);
      find := FindPart(x, ext);
      ext := ext + multiset{find};
    }

    /** aspath_unintern and its siblings: the last reference frees the part. */
    method DropPart(x: Id)
      requires x in h.parts && h.parts[x].refcnt > 0
      modifies this`h
      ensures h == Dropped(old(h), x)
    {
      var refcnt := h.parts[x].refcnt - 1;
      if refcnt == 0 {
        h := h.(parts := h.parts - {x});
      } else {
        h := WithPart(h, x, h.parts[x].(refcnt := refcnt));
      }
    }

    method PartUnintern(x: Id)
      requires Inv(Now()) && x in ext
      modifies this
      ensures Now() == Next(old(Now()), UninternPart(x)) && Inv(Now())
      ensures x in h.parts <==> old(h.parts[x].refcnt) > 1
    {
      hide Consistent, HeldExact;
      NextKeepsInv(Now(), UninternPart(x));
      DropKeeps(h, ext, x);
      DropPart(x);
      ext := ext - multiset{x};
    }

    /** bgp_attr_intern: the parts in order, then the attribute table. */
    method AttrIntern(scalars: int, refs: map<Kind, Id>) returns (find: Id)
      requires Inv(Now()) && forall k :: k in refs ==> refs[k] in h.parts && h.parts[refs[k]].kind == k
      modifies this
      ensures Now() == Next(old(Now()), InternAttr(scalars, refs)) && Inv(Now())
      ensures Interned(old(h), ext, scalars, refs, h, find)
    {
      hide Consistent, HeldExact, RefsTo, KindAt, TakenFrom, RefTaken, Inserted, Interned, Taking, RefsLive;
      ghost var goal := TakenFrom(h, refs, 0, map[]);
      NextKeepsInv(Now(), InternAttr(scalars, refs));
      AttrInternedKeeps(h, ext, scalars, refs);
      TakingStarts(h, refs);
      RefsToNone(map[]);
      assert ext + RefsTo(map[], 0) == ext;
      var interned: map<Kind, Id> := map[];
      for j := 0 to 6
        invariant ext == old(ext) && held == old(held)
        invariant Taking(old(h), refs, h, j, interned) && Consistent(h, ext + RefsTo(interned, j))
        invariant TakenFrom(h, refs, j, interned) == goal
      {
        var k := KindAt(j);
        TakenStep(h, refs, j, interned);
        if k in refs {
          TakingStep(old(h), refs, h, ext, j, interned);
          var x := TakeRef(refs[k], ext + RefsTo(interned, j));
          interned := interned[k := x];
        } else {
          TakingSkip(old(h), refs, h, ext, j, interned);
        }
      }
      TakenEnd(h, refs, interned);
      TakingEnds(old(h), refs, h, interned);
      find := FindOrInsert(scalars, interned, ext + RefsOf(interned));
      held := held + multiset{find};
    }

    method TakeRef(x: Id, ghost all: multiset<Id>) returns (find: Id)
      requires Consistent(h, all) && x in h.parts
      modifies this`h
      ensures (h, find) == RefTaken(old(h), x)
    {
      hide Consistent, PartInterned, Gained;
      if h.parts[x].refcnt == 0 {
        find := FindPart(x, all);
      } else {
        find := x;
        h := WithPart(h, x, h.parts[x].(refcnt := h.parts[x].refcnt + 1));
      }
    }

    /** hash_get on the attribute table, and one reference more. */
    method FindOrInsert(scalars: int, refs: map<Kind, Id>, ghost all: multiset<Id>) returns (find: Id)
      requires Consistent(h, all) && RefsLive(h, refs) && RefsOf(refs) <= all
      modifies this`h
      ensures (h, find) == Inserted(old(h), scalars, refs)
    {
      hide Consistent, RefsOf, RefsLive, Inserted, Referenced;
      if i :| i in h.attrs && SameAttr(h.attrs[i], NewAttr(scalars, refs)) {
        assert IsSame(h, scalars, refs, i);
        InsertedFound(h, all, scalars, refs, i);
        find := i;
        h := Bumped(h, i);
      } else {
        InsertedNew(h, all, scalars, refs);
        find := h.next;
        h := WithAttr(h, h.next, NewAttr(scalars, refs));
      }
    }

    /** bgp_attr_unintern: one reference less to the attribute, freed with the
        last, and then one less to each of its parts. */
    method AttrUnintern(i: Id)
      requires Inv(Now()) && i in held
      modifies this
      ensures Now() == Next(old(Now()), UninternAttr(i)) && Inv(Now())
    {
      hide Consistent, HeldExact, RefsTo, KindAt, AttrDropped, DroppedFrom;
      NextKeepsInv(Now(), UninternAttr(i));
      HeldThere(h, held, i);
      AttrReferenced(h, ext, i);
      AttrDropKeeps(h, ext, i);
      var refs := h.attrs[i].refs;
      RefsToNone(refs);
      assert RefsFrom(refs, 0) == RefsOf(refs);
      h := AttrDropped(h, i);
      ghost var goal := DroppedFrom(h, refs, 0);
      for j := 0 to 6
        invariant ext == old(ext) && held == old(held)
        invariant Consistent(h, ext + RefsFrom(refs, j)) && DroppedFrom(h, refs, j) == goal
      {
        var k := KindAt(j);
        DroppedStep(h, refs, j);
        if k in refs {
          DropNext(h, ext, refs, j);
          DropPart(refs[k]);
        } else {
          RefsFromStep(refs, j);
          assert RefsFrom(refs, j) == RefsFrom(refs, j + 1);
        }
      }
      DroppedEnd(h, refs);
      held := held - multiset{i};
    }
  }

  lemma TakenStep(h: Heap, refs: map<Kind, Id>, j: nat, interned: map<Kind, Id>)
    requires j < 6
    ensures TakenFrom(h, refs, j, interned) ==
            if KindAt(j) in refs && refs[KindAt(j)] in h.parts then
              var (g, x) := RefTaken(h, refs[KindAt(j)]); TakenFrom(g, refs, j + 1, interned[KindAt(j) := x])
            else TakenFrom(h, refs, j + 1, interned)
  {
  }

  lemma TakenEnd(h: Heap, refs: map<Kind, Id>, interned: map<Kind, Id>)
    ensures TakenFrom(h, refs, 6, interned) == (h, interned)
  {
  }

  lemma DroppedStep(h: Heap, refs: map<Kind, Id>, j: nat)
    requires j < 6
    ensures DroppedFrom(h, refs, j) ==
            if KindAt(j) in refs && refs[KindAt(j)] in h.parts && h.parts[refs[KindAt(j)]].refcnt > 0 then
              DroppedFrom(Dropped(h, refs[KindAt(j)]), refs, j + 1)
            else DroppedFrom(h, refs, j + 1)
  {
  }

  lemma DroppedEnd(h: Heap, refs: map<Kind, Id>)
    ensures DroppedFrom(h, refs, 6) == h
  {
  }

  lemma PartStep(s: State, x: Id)
    requires Inv(s) && Proper(s, InternPart(x))
    ensures var (g, find) := PartInterned(s.h, x); Next(s, InternPart(x)) == s.(h := g, ext := s.ext + multiset{find})
  {
  }

  lemma InternedElsewhere(h: Heap, x: Id)
    requires x in h.parts
    ensures var (g, find) := PartInterned(h, x); find != x ==> x !in g.parts
  {
  }
}
