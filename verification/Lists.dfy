/** What several components need: optional values, and arrays of numbers kept in
    order. */
module Lists {
  datatype Option<+T> = None | Some(value: T)

  function Elems(s: seq<nat>): set<nat> { set x | x in s }

  predicate Ascending(s: seq<nat>) { forall i, j :: 0 <= i < j < |s| ==> s[i] <= s[j] }
  predicate StrictlyAscending(s: seq<nat>) { forall i, j :: 0 <= i < j < |s| ==> s[i] < s[j] }

  /** A set of numbers has one strictly ascending listing. */
  lemma {:induction false} StrictUnique(s: seq<nat>, t: seq<nat>)
    requires StrictlyAscending(s) && StrictlyAscending(t) && Elems(s) == Elems(t)
    ensures s == t
  {
    assert forall i :: 0 <= i < |s| ==> s[i] in Elems(s);
    assert forall i :: 0 <= i < |t| ==> t[i] in Elems(t);
    if s != [] && t != [] {
      assert s[0] in Elems(t);
      assert t[0] in Elems(s);
      assert forall y :: y in Elems(s[1..]) <==> y in Elems(s) && y != s[0];
      assert forall y :: y in Elems(t[1..]) <==> y in Elems(t) && y != t[0];
      StrictUnique(s[1..], t[1..]);
      assert s == [s[0]] + s[1..] && t == [t[0]] + t[1..];
    }
  }
}
