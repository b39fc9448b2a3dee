/** Interned attributes and their shared, reference-counted parts: bgp_attr.c
    and the intern functions it calls. */
module AttrIntern {
  type Id = nat

  datatype Kind = AsPathPart | CommunityPart | EcommunityPart | LcommunityPart | ClusterPart | TransitPart

  /** A part object. `value` is what its hash compares; an object not in its
      hash table is the private copy of whoever made it. */
  datatype Part = Part(kind: Kind, value: int, refcnt: nat, pooled: bool)

  /** An interned attribute. attrhash_cmp compares the plain fields by value and
      the parts by pointer. */
  datatype Attr = Attr(scalars: int, refs: map<Kind, Id>, refcnt: nat)

  // ------------------------------------------------------- counting references

  function Share(a: Attr, kind: Kind, x: Id): nat
  {
    if kind in a.refs && a.refs[kind] == x then a.refcnt else 0
  }

  /** The references part x has from attributes with ids below n, each attribute
      counting as often as it is itself referenced. */
  function Uses(attrs: map<Id, Attr>, kind: Kind, x: Id, n: nat): nat
  {
    if n == 0 then 0
    else Uses(attrs, kind, x, n - 1) + if n - 1 in attrs then Share(attrs[n - 1], kind, x) else 0
  }

  function ShareAt(attrs: map<Id, Attr>, i: Id, kind: Kind, x: Id): nat
  {
    if i in attrs then Share(attrs[i], kind, x) else 0
  }

  /** Changing one attribute changes the sum by what that attribute adds. */
  lemma {:induction false} UsesChange(attrs: map<Id, Attr>, attrs': map<Id, Attr>, i: Id, kind: Kind, x: Id, n: nat)
    requires forall j :: j != i ==> (j in attrs <==> j in attrs') && (j in attrs ==> attrs[j] == attrs'[j])
    ensures i < n ==>
              var was, now := ShareAt(attrs, i, kind, x), ShareAt(attrs', i, kind, x);
              Uses(attrs', kind, x, n) + was == Uses(attrs, kind, x, n) + now
    ensures n <= i ==> Uses(attrs', kind, x, n) == Uses(attrs, kind, x, n)
  {
    if n > 0 { UsesChange(attrs, attrs', i, kind, x, n - 1); }
  }

  lemma {:induction false} UsesBound(attrs: map<Id, Attr>, i: Id, kind: Kind, x: Id, n: nat)
    requires i < n
    ensures ShareAt(attrs, i, kind, x) <= Uses(attrs, kind, x, n)
  {
    if i < n - 1 { UsesBound(attrs, i, kind, x, n - 1); }
  }

  lemma {:induction false} UsesBeyond(attrs: map<Id, Attr>, kind: Kind, x: Id, n: nat)
    requires n !in attrs
    ensures Uses(attrs, kind, x, n + 1) == Uses(attrs, kind, x, n)
  {
  }

  lemma {:induction false} UsesNone(attrs: map<Id, Attr>, kind: Kind, x: Id, n: nat)
    requires forall i :: i in attrs ==> Share(attrs[i], kind, x) == 0
    ensures Uses(attrs, kind, x, n) == 0
  {
    if n > 0 { UsesNone(attrs, kind, x, n - 1); }
  }

  // ---------------------------------------------------------------- the ledger

  /** The state: all part objects, all interned attributes, the next unused
      address, and the part references held outside any attribute. */
  datatype Heap = Heap(parts: map<Id, Part>, attrs: map<Id, Attr>, next: Id)

  predicate Pooled(h: Heap, x: Id) { x in h.parts && h.parts[x].pooled }

  /** Ids below the bound, and a part is in its hash table exactly while it is
      referenced. */
  ghost predicate Addressed(h: Heap)
  {
    && (forall x :: x in h.parts ==> x < h.next && (h.parts[x].pooled <==> h.parts[x].refcnt > 0))
    && (forall i :: i in h.attrs ==> i < h.next && h.attrs[i].refcnt > 0)
  }

  predicate SamePart(p: Part, q: Part) { p.kind == q.kind && p.value == q.value }
  predicate SameAttr(a: Attr, b: Attr) { a.scalars == b.scalars && a.refs == b.refs }

  /** Equal parts share one object, and so do equal attributes. */
  ghost predicate Unique(h: Heap)
  {
    && (forall x, y :: Pooled(h, x) && Pooled(h, y) && SamePart(h.parts[x], h.parts[y]) ==> x == y)
    && (forall i, j :: i in h.attrs && j in h.attrs && SameAttr(h.attrs[i], h.attrs[j]) ==> i == j)
  }

  ghost predicate RefsLive(h: Heap, refs: map<Kind, Id>)
  {
    forall k :: k in refs ==> Pooled(h, refs[k]) && h.parts[refs[k]].kind == k
  }

  /** No live attribute points to a freed part. */
  ghost predicate NoDangling(h: Heap)
  {
    forall i :: i in h.attrs ==> RefsLive(h, h.attrs[i].refs)
  }

  /** Every count is exact. */
  ghost predicate Exact(h: Heap, ext: multiset<Id>)
  {
    && (forall x :: Pooled(h, x) ==> h.parts[x].refcnt == Uses(h.attrs, h.parts[x].kind, x, h.next) + ext[x])
    && (forall x :: x in ext ==> Pooled(h, x))
  }

  ghost predicate Consistent(h: Heap, ext: multiset<Id>)
  {
    Addressed(h) && Unique(h) && NoDangling(h) && Exact(h, ext)
  }

  /** Every attribute is referenced as often as it is held. */
  ghost predicate HeldExact(h: Heap, held: multiset<Id>)
  {
    && (forall i :: i in h.attrs ==> h.attrs[i].refcnt == held[i])
    && (forall i :: i in held ==> i in h.attrs)
  }

  /** When every reference was given back, both pools are empty: no attribute
      and no part leaks. */
  lemma BalancedEmpties(h: Heap, ext: multiset<Id>, held: multiset<Id>)
    requires Consistent(h, ext) && HeldExact(h, held) && ext == multiset{} && held == multiset{}
    ensures h.attrs == map[] && forall x :: !Pooled(h, x)
  {
    forall i: Id ensures i !in h.attrs { }
    assert h.attrs == map[];
    forall x: Id ensures !Pooled(h, x) {
      if Pooled(h, x) { UsesNone(h.attrs, h.parts[x].kind, x, h.next); }
    }
  }

  /** Two interned attributes with equal fields and equal parts, compared all
      the way down, are one object. */
  lemma EqualAttrsShare(h: Heap, ext: multiset<Id>, i: Id, j: Id)
    requires Consistent(h, ext) && i in h.attrs && j in h.attrs
    requires h.attrs[i].scalars == h.attrs[j].scalars && h.attrs[i].refs.Keys == h.attrs[j].refs.Keys
    requires forall k :: k in h.attrs[i].refs ==>
               h.parts[h.attrs[i].refs[k]].value == h.parts[h.attrs[j].refs[k]].value
    ensures i == j
  {
    var a, b := h.attrs[i].refs, h.attrs[j].refs;
    assert RefsLive(h, a) && RefsLive(h, b);
    forall k | k in a ensures a[k] == b[k] {
      assert k in b && Pooled(h, a[k]) && Pooled(h, b[k]);
    }
    assert a == b;
  }

  // --------------------------------------------------------- one reference more

  function WithPart(h: Heap, x: Id, p: Part): Heap { h.(parts := h.parts[x := p]) }

  /** A part already in its table gains an outside reference. */
  lemma BumpKeeps(h: Heap, ext: multiset<Id>, x: Id)
    requires Consistent(h, ext) && Pooled(h, x)
    ensures Consistent(WithPart(h, x, h.parts[x].(refcnt := h.parts[x].refcnt + 1)), ext + multiset{x})
  {
    hide Uses;
    var g := WithPart(h, x, h.parts[x].(refcnt := h.parts[x].refcnt + 1));
    assert forall y :: Pooled(g, y) <==> Pooled(h, y);
    assert forall y :: y in g.parts ==>
           y in h.parts && g.parts[y].kind == h.parts[y].kind && g.parts[y].value == h.parts[y].value;
    RefsLiveStays(h, g);
  }

  /** References stay live when pooled parts stay pooled with their kind. */
  lemma RefsLiveStays(h: Heap, g: Heap)
    requires NoDangling(h) && g.attrs == h.attrs
    requires forall i, k :: i in h.attrs && k in h.attrs[i].refs && Pooled(h, h.attrs[i].refs[k]) ==>
               Pooled(g, h.attrs[i].refs[k]) && g.parts[h.attrs[i].refs[k]].kind == h.parts[h.attrs[i].refs[k]].kind
    ensures NoDangling(g)
  {
    forall i | i in g.attrs ensures RefsLive(g, g.attrs[i].refs) {
      assert RefsLive(h, h.attrs[i].refs);
    }
  }

  /** A private part with no equal in the table enters it with one reference. */
  lemma PoolKeeps(h: Heap, ext: multiset<Id>, x: Id)
    requires Consistent(h, ext) && x in h.parts && !h.parts[x].pooled
    requires forall y :: Pooled(h, y) ==> !SamePart(h.parts[x], h.parts[y])
    ensures Consistent(WithPart(h, x, h.parts[x].(refcnt := 1, pooled := true)), ext + multiset{x})
  {
    hide Uses;
    var g := WithPart(h, x, h.parts[x].(refcnt := 1, pooled := true));
    assert forall y :: Pooled(g, y) <==> Pooled(h, y) || y == x;
    RefsLiveStays(h, g);
    forall i | i in h.attrs ensures Share(h.attrs[i], h.parts[x].kind, x) == 0 {
      assert RefsLive(h, h.attrs[i].refs);
    }
    UsesNone(h.attrs, h.parts[x].kind, x, h.next);
  }

  /** Freeing a private copy touches nothing that is shared. */
  lemma FreeKeeps(h: Heap, ext: multiset<Id>, x: Id)
    requires Consistent(h, ext) && !Pooled(h, x)
    ensures Consistent(h.(parts := h.parts - {x}), ext)
  {
    var g := h.(parts := h.parts - {x});
    assert forall y :: Pooled(g, y) <==> Pooled(h, y);
    assert forall y :: Pooled(g, y) ==> g.parts[y] == h.parts[y];
    RefsLiveStays(h, g);
  }

  function Allocated(h: Heap, kind: Kind, value: int): Heap
  {
    Heap(h.parts[h.next := Part(kind, value, 0, false)], h.attrs, h.next + 1)
  }

  lemma AllocKeeps(h: Heap, ext: multiset<Id>, kind: Kind, value: int)
    requires Consistent(h, ext)
    ensures Consistent(Allocated(h, kind, value), ext)
  {
    var g := Allocated(h, kind, value);
    assert h.next !in h.parts && h.next !in h.attrs;
    assert forall y :: Pooled(g, y) <==> Pooled(h, y);
    assert forall y :: Pooled(g, y) ==> g.parts[y] == h.parts[y];
    RefsLiveStays(h, g);
    forall y | Pooled(g, y)
        ensures Uses(g.attrs, g.parts[y].kind, y, g.next) == Uses(h.attrs, g.parts[y].kind, y, h.next) {
    }
  }

  /** The part after one reference less; the last one frees it. */
  function Dropped(h: Heap, x: Id): Heap
    requires x in h.parts && h.parts[x].refcnt > 0
  {
    if h.parts[x].refcnt == 1 then h.(parts := h.parts - {x})
    else WithPart(h, x, h.parts[x].(refcnt := h.parts[x].refcnt - 1))
  }

  /** When only an outside reference is left, no attribute points to the part. */
  lemma NotReferred(h: Heap, ext: multiset<Id>, x: Id, i: Id, k: Kind)
    requires Consistent(h, ext) && x in ext && h.parts[x].refcnt == 1
    requires i in h.attrs && k in h.attrs[i].refs
    ensures h.attrs[i].refs[k] != x
  {
    assert RefsLive(h, h.attrs[i].refs);
    UsesBound(h.attrs, i, h.parts[x].kind, x, h.next);
  }

  lemma DropLast(h: Heap, ext: multiset<Id>, x: Id)
    requires Consistent(h, ext) && x in ext && h.parts[x].refcnt == 1
    ensures Consistent(h.(parts := h.parts - {x}), ext - multiset{x})
  {
    hide Uses;
    var g := h.(parts := h.parts - {x});
    assert forall y :: Pooled(g, y) <==> Pooled(h, y) && y != x;
    forall i, k | i in h.attrs && k in h.attrs[i].refs ensures h.attrs[i].refs[k] != x { NotReferred(h, ext, x, i, k); }
    RefsLiveStays(h, g);
  }

  lemma DropMore(h: Heap, ext: multiset<Id>, x: Id)
    requires Consistent(h, ext) && x in ext && h.parts[x].refcnt > 1
    ensures Consistent(WithPart(h, x, h.parts[x].(refcnt := h.parts[x].refcnt - 1)), ext - multiset{x})
  {
    hide Uses;
    var g := WithPart(h, x, h.parts[x].(refcnt := h.parts[x].refcnt - 1));
    assert forall y :: Pooled(g, y) <==> Pooled(h, y);
    RefsLiveStays(h, g);
  }

  /** An outside reference is given back. */
  lemma DropKeeps(h: Heap, ext: multiset<Id>, x: Id)
    requires Consistent(h, ext) && x in ext
    ensures Pooled(h, x) && h.parts[x].refcnt > 0
    ensures Consistent(Dropped(h, x), ext - multiset{x})
  {
    if h.parts[x].refcnt == 1 { DropLast(h, ext, x); } else { DropMore(h, ext, x); }
  }

  // ------------------------------------------- references move into attributes

  /** The order in which bgp_attr_intern and bgp_attr_unintern_sub visit. */
  function KindAt(j: nat): Kind
    requires j < 6
  {
    if j == 0 then AsPathPart else if j == 1 then CommunityPart else if j == 2 then EcommunityPart
    else if j == 3 then LcommunityPart else if j == 4 then ClusterPart else TransitPart
  }

  function Position(k: Kind): (j: nat)
    ensures j < 6 && KindAt(j) == k
  {
    match k
    case AsPathPart => 0 case CommunityPart => 1 case EcommunityPart => 2
    case LcommunityPart => 3 case ClusterPart => 4 case TransitPart => 5
  }

  /** One reference for each part behind the first j kinds. */
  function RefsTo(refs: map<Kind, Id>, j: nat): multiset<Id>
    requires j <= 6
  {
    if j == 0 then multiset{}
    else RefsTo(refs, j - 1) + if KindAt(j - 1) in refs then multiset{refs[KindAt(j - 1)]} else multiset{}
  }

  function RefsOf(refs: map<Kind, Id>): multiset<Id> { RefsTo(refs, 6) }

  lemma {:induction false} RefsToCount(h: Heap, refs: map<Kind, Id>, x: Id, j: nat)
    requires RefsLive(h, refs) && x in h.parts && j <= 6
    ensures var k := h.parts[x].kind;
            RefsTo(refs, j)[x] == if k in refs && refs[k] == x && Position(k) < j then 1 else 0
  {
    if j > 0 {
      RefsToCount(h, refs, x, j - 1);
      assert Position(KindAt(j - 1)) == j - 1;
    }
  }

  lemma {:induction false} RefsToLive(h: Heap, refs: map<Kind, Id>, x: Id, j: nat)
    requires RefsLive(h, refs) && j <= 6 && x in RefsTo(refs, j)
    ensures Pooled(h, x)
  {
    if x in RefsTo(refs, j - 1) { RefsToLive(h, refs, x, j - 1); }
  }

  function WithAttr(h: Heap, i: Id, a: Attr): Heap
  {
    Heap(h.parts, h.attrs[i := a], if i < h.next then h.next else i + 1)
  }

  function NewAttr(scalars: int, refs: map<Kind, Id>): Attr { Attr(scalars, refs, 1) }

  function Bumped(h: Heap, i: Id): Heap
    requires i in h.attrs
  {
    WithAttr(h, i, h.attrs[i].(refcnt := h.attrs[i].refcnt + 1))
  }

  function AttrDropped(h: Heap, i: Id): Heap
    requires i in h.attrs && h.attrs[i].refcnt > 0
  {
    if h.attrs[i].refcnt == 1 then h.(attrs := h.attrs - {i})
    else h.(attrs := h.attrs[i := h.attrs[i].(refcnt := h.attrs[i].refcnt - 1)])
  }

  /** Attribute i, with parts refs, is referenced once more or once less,
      possibly for the first or the last time, and everything else stays. */
  ghost predicate Shifted(h: Heap, g: Heap, i: Id, refs: map<Kind, Id>)
  {
    && g.parts == h.parts && g.next == h.next && i < h.next
    && (forall j :: j != i ==> (j in h.attrs <==> j in g.attrs) && (j in h.attrs ==> h.attrs[j] == g.attrs[j]))
    && (i in h.attrs ==> h.attrs[i].refs == refs)
    && (i in g.attrs ==> g.attrs[i].refs == refs)
  }

  function CountOf(h: Heap, i: Id): nat { if i in h.attrs then h.attrs[i].refcnt else 0 }

  /** The references of every part move by what attribute i moved. */
  lemma {:induction false} ShiftedUses(h: Heap, g: Heap, i: Id, refs: map<Kind, Id>, x: Id)
    requires Shifted(h, g, i, refs) && RefsLive(h, refs) && x in h.parts
    ensures var k := h.parts[x].kind;
            Uses(g.attrs, k, x, g.next) - Uses(h.attrs, k, x, h.next)
            == if RefsOf(refs)[x] == 1 then CountOf(g, i) - CountOf(h, i) else 0
    ensures RefsOf(refs)[x] <= 1
  {
    hide RefsTo, Uses, Position;
    RefsToCount(h, refs, x, 6);
    PositionBelow(h.parts[x].kind);
    UsesChange(h.attrs, g.attrs, i, h.parts[x].kind, x, h.next);
  }

  /** The counts stay exact when the outside references change the other way. */
  lemma {:induction false} ExactShift(h: Heap, ext: multiset<Id>, i: Id, refs: map<Kind, Id>, g: Heap, e: multiset<Id>)
    requires Exact(h, ext) && RefsLive(h, refs) && Shifted(h, g, i, refs)
    requires || (CountOf(g, i) == CountOf(h, i) + 1 && e == ext - RefsOf(refs) && RefsOf(refs) <= ext)
             || (CountOf(h, i) == CountOf(g, i) + 1 && e == ext + RefsOf(refs))
    ensures Exact(g, e)
  {
    hide RefsOf, Uses, RefsLive;
    forall x | Pooled(g, x) ensures g.parts[x].refcnt == Uses(g.attrs, g.parts[x].kind, x, g.next) + e[x] {
      assert Pooled(h, x);
      ShiftedUses(h, g, i, refs, x);
    }
    forall x | x in e ensures Pooled(g, x) { ExtLive(h, ext, refs, x); }
  }

  lemma ExtLive(h: Heap, ext: multiset<Id>, refs: map<Kind, Id>, x: Id)
    requires Exact(h, ext) && RefsLive(h, refs) && (x in ext || x in RefsOf(refs))
    ensures Pooled(h, x)
  {
    if x in RefsOf(refs) { RefsToLive(h, refs, x, 6); }
  }

  lemma PositionBelow(k: Kind)
    ensures Position(k) < 6
  {
  }

  lemma NoDanglingStays(h: Heap, g: Heap)
    requires NoDangling(h) && g.parts == h.parts
    requires forall j :: j in g.attrs ==> j in h.attrs && h.attrs[j].refs == g.attrs[j].refs
    ensures NoDangling(g)
  {
    forall j | j in g.attrs ensures RefsLive(g, g.attrs[j].refs) { assert RefsLive(h, h.attrs[j].refs); }
  }

  /** An interned attribute takes over one outside reference to each part. */
  lemma AttrBumpKeeps(h: Heap, ext: multiset<Id>, i: Id)
    requires Consistent(h, ext) && i in h.attrs && RefsOf(h.attrs[i].refs) <= ext
    ensures Consistent(Bumped(h, i), ext - RefsOf(h.attrs[i].refs))
  {
    hide RefsOf, Exact, RefsLive, NoDangling;
    var g := Bumped(h, i);
    LiveAt(h, i);
    ExactShift(h, ext, i, h.attrs[i].refs, g, ext - RefsOf(h.attrs[i].refs));
    NoDanglingStays(h, g);
    assert forall x :: Pooled(g, x) <==> Pooled(h, x);
  }

  lemma LiveAt(h: Heap, i: Id)
    requires NoDangling(h) && i in h.attrs
    ensures RefsLive(h, h.attrs[i].refs)
  {
  }

  /** Moving the address bound past an unused address changes nothing. */
  lemma NextKeeps(h: Heap, ext: multiset<Id>)
    requires Consistent(h, ext)
    ensures Consistent(h.(next := h.next + 1), ext)
  {
    hide Uses;
    var g := h.(next := h.next + 1);
    assert h.next !in h.attrs;
    forall x | Pooled(g, x) ensures g.parts[x].refcnt == Uses(g.attrs, g.parts[x].kind, x, g.next) + ext[x] {
      assert Pooled(h, x);
      UsesBeyond(h.attrs, h.parts[x].kind, x, h.next);
    }
    RefsLiveStays(h, g);
    assert forall x :: Pooled(g, x) <==> Pooled(h, x);
  }

  lemma AttrNewKeeps(h: Heap, ext: multiset<Id>, scalars: int, refs: map<Kind, Id>)
    requires Consistent(h, ext) && RefsLive(h, refs) && RefsOf(refs) <= ext
    requires forall j :: j in h.attrs ==> !SameAttr(h.attrs[j], NewAttr(scalars, refs))
    ensures Consistent(WithAttr(h, h.next, NewAttr(scalars, refs)), ext - RefsOf(refs))
  {
    hide RefsOf, Exact;
    NextKeeps(h, ext);
    var m := h.(next := h.next + 1);
    var g := WithAttr(h, h.next, NewAttr(scalars, refs));
    assert h.next !in h.attrs;
    assert RefsLive(m, refs);
    ExactShift(m, ext, h.next, refs, g, ext - RefsOf(refs));
    forall j | j in g.attrs ensures RefsLive(g, g.attrs[j].refs) {
      if j != h.next { assert RefsLive(h, h.attrs[j].refs); }
    }
    assert forall x :: Pooled(g, x) <==> Pooled(h, x);
  }

  /** An attribute gives one reference to each of its parts back to outside. */
  lemma AttrDropKeeps(h: Heap, ext: multiset<Id>, i: Id)
    requires Consistent(h, ext) && i in h.attrs
    ensures Consistent(AttrDropped(h, i), ext + RefsOf(h.attrs[i].refs))
    ensures RefsLive(AttrDropped(h, i), h.attrs[i].refs)
  {
    hide RefsOf, Exact, NoDangling;
    var g := AttrDropped(h, i);
    LiveAt(h, i);
    ExactShift(h, ext, i, h.attrs[i].refs, g, ext + RefsOf(h.attrs[i].refs));
    NoDanglingStays(h, g);
    assert forall x :: Pooled(g, x) <==> Pooled(h, x);
  }

  // -------------------------------------------------- facts about single objects

  /** Apart from object x, the part objects stay what they are. */
  ghost predicate SameBut(h: Heap, g: Heap, x: Id)
  {
    forall y :: y != x && y in h.parts ==>
      y in g.parts && SamePart(g.parts[y], h.parts[y]) && (g.parts[y].pooled <==> h.parts[y].pooled)
  }

  lemma PrivateAt(h: Heap, ext: multiset<Id>, x: Id)
    requires Consistent(h, ext) && x in h.parts
    ensures h.parts[x].refcnt == 0 <==> !Pooled(h, x)
  {
  }

  lemma NextUnused(h: Heap, ext: multiset<Id>)
    requires Consistent(h, ext)
    ensures h.next !in h.attrs && h.next !in h.parts
  {
  }

  lemma AttrReferenced(h: Heap, ext: multiset<Id>, i: Id)
    requires Consistent(h, ext) && i in h.attrs
    ensures h.attrs[i].refcnt > 0
  {
  }

  lemma RefsToNone(refs: map<Kind, Id>)
    ensures RefsTo(refs, 0) == multiset{}
  {
  }

  lemma PositionAt(j: nat)
    requires j < 6
    ensures Position(KindAt(j)) == j && (forall k :: Position(k) == j ==> k == KindAt(j))
  {
    forall k | Position(k) == j ensures k == KindAt(j) { }
  }

  lemma {:induction false} RefsToSame(refs: map<Kind, Id>, refs': map<Kind, Id>, j: nat)
    requires j <= 6
    requires forall k :: Position(k) < j ==> (k in refs <==> k in refs') && (k in refs ==> refs[k] == refs'[k])
    ensures RefsTo(refs, j) == RefsTo(refs', j)
  {
    if j > 0 { RefsToSame(refs, refs', j - 1); }
  }

  lemma {:induction false} RefsToAdd(refs: map<Kind, Id>, k: Kind, x: Id, j: nat)
    requires j < 6 && KindAt(j) == k
    ensures RefsTo(refs[k := x], j + 1) == RefsTo(refs, j) + multiset{x}
  {
    RefsToSame(refs, refs[k := x], j);
  }

  lemma {:induction false} RefsToSkip(refs: map<Kind, Id>, j: nat)
    requires j < 6 && KindAt(j) !in refs
    ensures RefsTo(refs, j + 1) == RefsTo(refs, j)
  {
  }
}
