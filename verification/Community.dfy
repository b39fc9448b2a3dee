/** Community and large community sets: sorted arrays without duplicates, matched
    in one pass (bgp_community.c, bgp_lcommunity.c). */
module Community {
  import opened Lists

  /** A value as a number: 32 bits for a community, 96 bits in network order for
      a large one, whose memcmp order is the numeric one. */
  type Value = nat

  lemma StrictTail(s: seq<Value>)
    requires StrictlyAscending(s) && s != []
    ensures StrictlyAscending(s[1..]) && Elems(s) == {s[0]} + Elems(s[1..]) && forall v :: v in s[1..] ==> s[0] < v
  {
    assert s == [s[0]] + s[1..];
  }

  lemma StrictCons(v: Value, s: seq<Value>)
    requires StrictlyAscending(s) && forall w :: w in s ==> v < w
    ensures StrictlyAscending([v] + s)
  {
    var r := [v] + s;
    forall i, j | 0 <= i < j < |r| ensures r[i] < r[j] {
      assert r[j] == s[j - 1] && s[j - 1] in s;
      if i > 0 { assert r[i] == s[i - 1]; }
    }
  }

  lemma ElemsCons(v: Value, s: seq<Value>)
    ensures Elems([v] + s) == {v} + Elems(s)
  {
  }

  lemma BelowAll(v: Value, s: seq<Value>)
    requires StrictlyAscending(s) && s != [] && v < s[0]
    ensures forall w :: w in s ==> v < w
  {
    StrictTail(s);
    assert s == [s[0]] + s[1..];
  }

  // ------------------------------------------------------- sorting and weeding

  /** The values in order of first appearance. */
  function FirstOnly(s: seq<Value>): seq<Value>
  {
    if s == [] then [] else
      var r := FirstOnly(s[..|s| - 1]);
      if s[|s| - 1] in r then r else r + [s[|s| - 1]]
  }

  predicate NoDup(s: seq<Value>) { forall i, j :: 0 <= i < j < |s| ==> s[i] != s[j] }

  lemma {:induction false} FirstOnlyFacts(s: seq<Value>)
    ensures NoDup(FirstOnly(s)) && Elems(FirstOnly(s)) == Elems(s)
  {
    if s != [] {
      var init, last := s[..|s| - 1], s[|s| - 1];
      FirstOnlyFacts(init);
      assert s == init + [last];
      assert Elems(s) == Elems(init) + {last};
      assert last in FirstOnly(init) <==> last in Elems(init);
      if last !in FirstOnly(init) { assert Elems(FirstOnly(init) + [last]) == Elems(FirstOnly(init)) + {last}; }
    }
  }

  function Placed(v: Value, s: seq<Value>): seq<Value>
  {
    if s == [] || v <= s[0] then [v] + s else [s[0]] + Placed(v, s[1..])
  }

  /** What qsort leaves behind. */
  function Sorted(s: seq<Value>): seq<Value> { if s == [] then [] else Placed(s[0], Sorted(s[1..])) }

  lemma {:induction false} PlacedFacts(v: Value, s: seq<Value>)
    requires StrictlyAscending(s) && v !in s
    ensures StrictlyAscending(Placed(v, s)) && Elems(Placed(v, s)) == {v} + Elems(s)
  {
    hide StrictlyAscending, Elems;
    ElemsCons(v, s);
    if s == [] {
      StrictOne(v);
    } else {
      HeadNot(s, v);
      if v <= s[0] {
        BelowAll(v, s);
        StrictCons(v, s);
      } else {
        var rest := Placed(v, s[1..]);
        StrictTail(s);
        PlacedFacts(v, s[1..]);
        AboveAll(s[0], s[1..], v, rest);
        StrictCons(s[0], rest);
        ElemsCons(s[0], rest);
      }
    }
  }

  lemma StrictOne(v: Value)
    ensures StrictlyAscending([v] + [])
  {
  }

  lemma HeadNot(s: seq<Value>, v: Value)
    requires v !in s && s != []
    ensures v != s[0] && v !in s[1..]
  {
  }

  lemma AboveAll(x: Value, s: seq<Value>, v: Value, t: seq<Value>)
    requires x < v && (forall w :: w in s ==> x < w) && Elems(t) <= {v} + Elems(s)
    ensures forall w :: w in t ==> x < w
  {
    forall w | w in t ensures x < w { assert w in Elems(t); }
  }

  lemma {:induction false} SortedFacts(s: seq<Value>)
    requires NoDup(s)
    ensures StrictlyAscending(Sorted(s)) && Elems(Sorted(s)) == Elems(s)
  {
    if s != [] {
      assert s == [s[0]] + s[1..];
      SortedFacts(s[1..]);
      assert s[0] !in s[1..];
      assert s[0] !in Elems(Sorted(s[1..]));
      PlacedFacts(s[0], Sorted(s[1..]));
      assert Elems(s) == {s[0]} + Elems(s[1..]);
    }
  }

  function UniqSorted(s: seq<Value>): seq<Value> { Sorted(FirstOnly(s)) }

  /** community_uniq_sort yields the strictly ascending array of the same set. */
  lemma UniqSortedFacts(s: seq<Value>)
    ensures StrictlyAscending(UniqSorted(s)) && Elems(UniqSorted(s)) == Elems(s)
  {
    FirstOnlyFacts(s);
    SortedFacts(FirstOnly(s));
  }

  /** lcommunity_add_val. */
  function Inserted(s: seq<Value>, v: Value): seq<Value>
  {
    if s == [] then [v]
    else if s[0] == v then s
    else if s[0] > v then [v] + s
    else [s[0]] + Inserted(s[1..], v)
  }

  lemma {:induction false} InsertedFacts(s: seq<Value>, v: Value)
    requires StrictlyAscending(s)
    ensures StrictlyAscending(Inserted(s, v)) && Elems(Inserted(s, v)) == Elems(s) + {v}
  {
    hide StrictlyAscending, Elems;
    ElemsCons(v, s);
    if s == [] {
      StrictOne(v);
      ElemsNone();
      assert [v] + [] == [v];
    } else {
      StrictTail(s);
      if s[0] > v {
        BelowAll(v, s);
        StrictCons(v, s);
      } else if s[0] < v {
        var rest := Inserted(s[1..], v);
        InsertedFacts(s[1..], v);
        AboveAll(s[0], s[1..], v, rest);
        StrictCons(s[0], rest);
        ElemsCons(s[0], rest);
      }
    }
  }

  lemma ElemsNone()
    ensures Elems([]) == {}
  {
  }

  /** lcommunity_uniq_sort. */
  function AllInserted(s: seq<Value>): seq<Value>
  {
    if s == [] then [] else Inserted(AllInserted(s[..|s| - 1]), s[|s| - 1])
  }

  lemma {:induction false} AllInsertedFacts(s: seq<Value>)
    ensures StrictlyAscending(AllInserted(s)) && Elems(AllInserted(s)) == Elems(s)
  {
    if s != [] {
      var init, last := s[..|s| - 1], s[|s| - 1];
      AllInsertedFacts(init);
      InsertedFacts(AllInserted(init), last);
      assert s == init + [last];
    }
  }

  /** Both kinds arrive at the same array, by sorting or by inserting, and it
      depends on the set of values alone. */
  lemma UniqFormsAgree(s: seq<Value>, t: seq<Value>)
    requires Elems(s) == Elems(t)
    ensures UniqSorted(s) == AllInserted(t)
  {
    UniqSortedFacts(s);
    AllInsertedFacts(t);
    StrictUnique(UniqSorted(s), AllInserted(t));
  }

  // ------------------------------------------------------------------ matching

  /** The one-pass match: b occurs in a in order. */
  predicate Passes(a: seq<Value>, b: seq<Value>)
  {
    b == [] || (a != [] && if a[0] == b[0] then Passes(a[1..], b[1..]) else Passes(a[1..], b))
  }

  lemma {:induction false} PassesShorter(a: seq<Value>, b: seq<Value>)
    requires Passes(a, b)
    ensures |b| <= |a|
  {
    if b != [] {
      if a[0] == b[0] { PassesShorter(a[1..], b[1..]); } else { PassesShorter(a[1..], b); }
    }
  }

  /** On strictly ascending arrays one pass decides inclusion. */
  lemma {:induction false} PassesIffIncluded(a: seq<Value>, b: seq<Value>)
    requires StrictlyAscending(a) && StrictlyAscending(b)
    ensures Passes(a, b) <==> Elems(b) <= Elems(a)
    decreases |a|
  {
    if b != [] {
      assert b[0] in Elems(b);
      if a != [] {
        StrictTail(a);
        StrictTail(b);
        if a[0] == b[0] {
          PassesIffIncluded(a[1..], b[1..]);
          assert a[0] !in Elems(b[1..]);
        } else {
          PassesIffIncluded(a[1..], b);
          if Elems(b) <= Elems(a) { assert a[0] !in Elems(b) by { assert b[0] in Elems(a[1..]); } }
        }
      }
    }
  }

  // ------------------------------------------------------------------ deletion

  /** community_del_val: the first occurrence goes. */
  function Removed(s: seq<Value>, v: Value): seq<Value>
  {
    if s == [] then [] else if s[0] == v then s[1..] else [s[0]] + Removed(s[1..], v)
  }

  lemma {:induction false} RemovedFacts(s: seq<Value>, v: Value)
    requires StrictlyAscending(s)
    ensures StrictlyAscending(Removed(s, v)) && Elems(Removed(s, v)) == Elems(s) - {v}
  {
    if s != [] {
      StrictTail(s);
      if s[0] != v {
        RemovedFacts(s[1..], v);
        forall w | w in Removed(s[1..], v) ensures s[0] < w { assert w in Elems(Removed(s[1..], v)); }
        StrictCons(s[0], Removed(s[1..], v));
        assert Elems([s[0]] + Removed(s[1..], v)) == {s[0]} + Elems(Removed(s[1..], v));
      } else {
        assert v !in Elems(s[1..]);
      }
    }
  }

  lemma {:induction false} RemovedAt(s: seq<Value>, v: Value, i: nat)
    requires i <= |s| && v !in s[..i] && (i < |s| ==> s[i] == v)
    ensures Removed(s, v) == if i < |s| then s[..i] + s[i + 1..] else s
  {
    if s != [] && i > 0 {
      assert s[0] == s[..i][0];
      var rest := s[1..];
      assert rest[..i - 1] == s[..i][1..];
      RemovedAt(rest, v, i - 1);
      if i < |s| {
        assert [s[0]] + (rest[..i - 1] + rest[i..]) == s[..i] + s[i + 1..];
      } else {
        assert [s[0]] + rest == s;
      }
    }
  }

  /** The place of v in an array: all before it are smaller. */
  predicate PlaceOf(s: seq<Value>, v: Value, c: nat)
  {
    c <= |s| && (forall k :: 0 <= k < c ==> s[k] < v) && (c < |s| ==> s[c] >= v)
  }

  lemma PlacedAscends(s: seq<Value>, v: Value, c: nat)
    requires StrictlyAscending(s) && PlaceOf(s, v, c) && (c < |s| ==> s[c] != v)
    ensures StrictlyAscending(s[..c] + [v] + s[c..]) && Elems(s[..c] + [v] + s[c..]) == Elems(s) + {v}
  {
    var r := s[..c] + [v] + s[c..];
    forall i | 0 <= i < |r| ensures r[i] == if i < c then s[i] else if i == c then v else s[i - 1] { }
    forall k | c <= k < |s| ensures v < s[k] { assert s[c] <= s[k]; }
    assert s == s[..c] + s[c..];
  }

  /** Putting v in its place is what inserting it means. */
  lemma InsertedAt(s: seq<Value>, v: Value, c: nat)
    requires StrictlyAscending(s) && PlaceOf(s, v, c)
    ensures Inserted(s, v) == if c < |s| && s[c] == v then s else s[..c] + [v] + s[c..]
  {
    hide Inserted, Elems, StrictlyAscending;
    InsertedFacts(s, v);
    if c < |s| && s[c] == v {
      MemberAt(s, c);
      StrictUnique(Inserted(s, v), s);
    } else {
      PlacedAscends(s, v, c);
      StrictUnique(Inserted(s, v), s[..c] + [v] + s[c..]);
    }
  }

  lemma MemberAt(s: seq<Value>, c: nat)
    requires c < |s|
    ensures Elems(s) + {s[c]} == Elems(s)
  {
  }

  // ----------------------------------------------------------------- the arrays

  class Set {
    var val: seq<Value>

    constructor (s: seq<Value>)
      ensures val == s
    {
      val := s;
    }

    /** community_include. */
    method Include(v: Value) returns (r: bool)
      ensures r <==> v in val
    {
      var i := 0;
      while i < |val|
        invariant i <= |val| && v !in val[..i]
      {
        if val[i] == v { return true; }
        assert val[..i + 1] == val[..i] + [val[i]];
        i := i + 1;
      }
      assert val[..i] == val;
      return false;
    }

    /** community_del_val and lcommunity_del_val: close the gap in place. */
    method DelVal(v: Value)
      modifies this
      ensures val == Removed(old(val), v)
    {
      var i := 0;
      while i < |val|
        invariant i <= |val| && val == old(val) && v !in val[..i]
      {
        if val[i] == v {
          RemovedAt(val, v, i);
          val := val[..i] + val[i + 1..];
          return;
        }
        assert val[..i + 1] == val[..i] + [val[i]];
        i := i + 1;
      }
      assert val[..i] == val;
      RemovedAt(val, v, i);
    }

    /** community_delete: a set less another. */
    method Delete(com2: Set)
      requires com2 != this && StrictlyAscending(val)
      modifies this
      ensures StrictlyAscending(val) && Elems(val) == Elems(old(val)) - Elems(com2.val)
    {
      var i := 0;
      while i < |com2.val|
        invariant i <= |com2.val| && StrictlyAscending(val)
        invariant com2.val == old(com2.val)
        invariant Elems(val) == Elems(old(val)) - Elems(com2.val[..i])
      {
        RemovedFacts(val, com2.val[i]);
        DelVal(com2.val[i]);
        assert com2.val[..i + 1] == com2.val[..i] + [com2.val[i]];
        assert Elems(com2.val[..i + 1]) == Elems(com2.val[..i]) + {com2.val[i]};
        i := i + 1;
      }
      assert com2.val[..i] == com2.val;
    }

    /** community_uniq_sort. */
    method UniqSort() returns (r: Set)
      ensures fresh(r) && r.val == UniqSorted(val)
      ensures StrictlyAscending(r.val) && Elems(r.val) == Elems(val)
    {
      r := new Set([]);
      var i := 0;
      while i < |val|
        invariant i <= |val| && fresh(r) && r.val == FirstOnly(val[..i])
      {
        assert val[..i + 1][..i] == val[..i];
        var included := r.Include(val[i]);
        if !included { r.val := r.val + [val[i]]; }
        i := i + 1;
      }
      assert val[..i] == val;
      UniqSortedFacts(val);
      r.val := Sorted(r.val);
    }

    /** lcommunity_add_val: find the place, shift, store. */
    method InsertVal(v: Value) returns (added: bool)
      requires StrictlyAscending(val)
      modifies this
      ensures val == Inserted(old(val), v) && added == (v !in old(val))
      ensures StrictlyAscending(val) && Elems(val) == Elems(old(val)) + {v}
    {
      InsertedFacts(val, v);
      var c := 0;
      while c < |val| && val[c] < v
        invariant c <= |val| && forall k :: 0 <= k < c ==> val[k] < v
      {
        c := c + 1;
      }
      InsertedAt(val, v, c);
      if c < |val| && val[c] == v { return false; }
      val := val[..c] + [v] + val[c..];
      return true;
    }

    /** lcommunity_uniq_sort. */
    method UniqInsert() returns (r: Set)
      ensures fresh(r) && r.val == AllInserted(val)
      ensures StrictlyAscending(r.val) && Elems(r.val) == Elems(val)
    {
      r := new Set([]);
      AllInsertedFacts(val);
      var i := 0;
      while i < |val|
        invariant i <= |val| && fresh(r) && StrictlyAscending(r.val) && r.val == AllInserted(val[..i])
      {
        hide StrictlyAscending, Inserted, Elems;
        assert val[..i + 1][..i] == val[..i];
        var added := r.InsertVal(val[i]);
        i := i + 1;
      }
      assert val[..i] == val;
    }
  }

  /** community_match and lcommunity_match, NULL pointers included. */
  method Match(com1: Set?, com2: Set?) returns (r: bool)
    ensures com1 == null || com2 == null ==> r == (com1 == com2)
    ensures com1 != null && com2 != null ==> r == Passes(com1.val, com2.val)
    ensures com1 != null && com2 != null && StrictlyAscending(com1.val) && StrictlyAscending(com2.val) ==>
              (r <==> Elems(com2.val) <= Elems(com1.val))
  {
    if com1 == null && com2 == null { return true; }
    if com1 == null || com2 == null { return false; }
    var a, b := com1.val, com2.val;
    if StrictlyAscending(a) && StrictlyAscending(b) { PassesIffIncluded(a, b); }
    if Passes(a, b) { PassesShorter(a, b); }
    if |a| < |b| { return false; }
    var i, j := 0, 0;
    while i < |a| && j < |b|
      invariant i <= |a| && j <= |b| && Passes(a, b) == Passes(a[i..], b[j..])
    {
      assert a[i..][1..] == a[i + 1..] && b[j..][1..] == b[j + 1..];
      if a[i] == b[j] { j := j + 1; }
      i := i + 1;
    }
    r := j == |b|;
  }
}
