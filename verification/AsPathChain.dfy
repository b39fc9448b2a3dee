/** The loops of bgp_aspath.c over a segment chain, each proved against the
    functions of module AsPath. */
module AsPathChain {
  import opened Lists
  import opened AsPath

  /** The chain that finishing the walk from position pin would leave. */
  function Finished(p: Path, pin: nat): Path
    requires pin <= |p|
  {
    p[..pin] + Normalise(p[pin..])
  }

  lemma FinishedEnds(p: Path)
    ensures Finished(p, 0) == Normalise(p)
    ensures Finished(p, |p|) == p
  {
    assert p[0..] == p && p[..|p|] == p;
  }

  lemma TidySequence(p: Path, pin: nat)
    requires pin < |p|
    ensures !IsSetKind(p[pin].kind) ==> p[pin] == Tidy(p[pin])
  {
  }

  function TidyAt(p: Path, pin: nat): (r: Path)
    requires pin < |p|
    ensures |r| == |p|
  {
    p[pin := Tidy(p[pin])]
  }

  /** Append the next sequence to the pinned one and bypass it. */
  function JoinAt(p: Path, pin: nat): (r: Path)
    requires pin + 1 < |p|
    ensures |r| == |p| - 1 && r[pin].kind == AsSequence
  {
    p[..pin] + [Segment(AsSequence, p[pin].asns + p[pin + 1].asns)] + p[pin + 2..]
  }

  lemma {:induction false} JoinTwo(a: Segment, b: Segment, rest: Path)
    requires Packable(a, b)
    ensures Normalise([a, b] + rest) == Normalise([Segment(AsSequence, a.asns + b.asns)] + rest)
  {
    var ab := Segment(AsSequence, a.asns + b.asns);
    assert ([a, b] + rest)[1..] == [b] + rest;
    assert ([b] + rest)[1..] == rest;
    assert ([ab] + rest)[1..] == rest;
    var n := Normalise(rest);
    if n != [] && Packable(b, n[0]) {
      assert a.asns + (b.asns + n[0].asns) == ab.asns + n[0].asns;
    } else {
      assert ([b] + n)[1..] == n;
    }
  }

  lemma {:induction false} JoinKeepsFinished(p: Path, pin: nat)
    requires pin + 1 < |p| && Packable(p[pin], p[pin + 1])
    ensures Finished(JoinAt(p, pin), pin) == Finished(p, pin)
  {
    var q := JoinAt(p, pin);
    assert p[pin..] == [p[pin], p[pin + 1]] + p[pin + 2..];
    assert q[pin..] == [Segment(AsSequence, p[pin].asns + p[pin + 1].asns)] + p[pin + 2..];
    assert q[..pin] == p[..pin];
    JoinTwo(p[pin], p[pin + 1], p[pin + 2..]);
  }

  lemma TidyFixed(seg: Segment)
    ensures Tidy(Tidy(seg)) == Tidy(seg)
  {
    var c := CanonSet(seg.asns);
    CanonSetCorrect(seg.asns);
    CanonSetCorrect(c);
    StrictUnique(CanonSet(c), c);
  }

  lemma {:induction false} TidyKeepsFinished(p: Path, pin: nat)
    requires pin < |p|
    ensures Finished(TidyAt(p, pin), pin) == Finished(p, pin)
  {
    var q := TidyAt(p, pin);
    assert p[pin..][1..] == p[pin + 1..] == q[pin..][1..];
    assert q[..pin] == p[..pin];
    TidyFixed(p[pin]);
  }

  /** Once tidy and not packable with its successor, a segment is final. */
  lemma {:induction false} StepKeepsFinished(p: Path, pin: nat)
    requires pin < |p| && p[pin] == Tidy(p[pin])
    requires pin + 1 < |p| ==> !Packable(p[pin], p[pin + 1])
    ensures Finished(p, pin + 1) == Finished(p, pin)
  {
    assert p[pin..][1..] == p[pin + 1..];
    assert p[..pin + 1] == p[..pin] + [p[pin]];
  }

  lemma DropStep(was: seq<Asn>, i: nat)
    requires 0 < i < |was|
    ensures var d := DropDups(was[..i]);
            && d != [] && d[|d| - 1] == was[i - 1]
            && DropDups(was[..i + 1]) == if was[i] == was[i - 1] then d else d + [was[i]]
  {
    assert was[..i + 1][..i] == was[..i];
  }

  lemma DropOne(was: seq<Asn>)
    requires was != []
    ensures DropDups(was[..1]) == [was[0]]
  {
    assert was[..1] == [was[0]];
  }

  /** The "weed out dupes" loop, in place on the sorted array. */
  method WeedDuplicates(as4: array<Asn>) returns (length: nat)
    modifies as4
    ensures length <= as4.Length
    ensures as4[..length] == DropDups(old(as4[..]))
  {
    if as4.Length == 0 { return 0; }
    hide DropDups;
    ghost var was := as4[..];
    var tail := 0;
    var i := 1;
    DropOne(was);
    ghost var kept := [was[0]];
    while i < as4.Length
      invariant tail < i <= as4.Length
      invariant forall k :: i <= k < as4.Length ==> as4[k] == was[k]
      invariant kept == DropDups(was[..i]) && |kept| == tail + 1
      invariant forall k :: 0 <= k <= tail ==> as4[k] == kept[k]
    {
      DropStep(was, i);
      if as4[tail] != as4[i] {
        tail := tail + 1;
        if tail < i {
          as4[tail] := as4[i];
        }
        kept := kept + [was[i]];
      }
      i := i + 1;
    }
    length := tail + 1;
    assert as4[..length] == kept;
    assert was[..as4.Length] == was;
  }

  class Chain {
    var segments: Path

    constructor (p: Path)
      ensures segments == p
    {
      segments := p;
    }

    /** assegment_normalise: walk the chain once, tidying sets and appending
        following sequences to the pinned one. */
    method NormaliseInPlace()
      modifies this
      ensures segments == Normalise(old(segments))
    {
      hide Normalise, Finished, Tidy, JoinAt, TidyAt;
      var pin := 0;
      while pin < |segments|
        invariant pin <= |segments|
        invariant Finished(segments, pin) == Finished(old(segments), 0)
        decreases |segments| - pin
      {
        if IsSetKind(segments[pin].kind) {
          TidyKeepsFinished(segments, pin);
          SortAndWeed(pin);
        }
        TidySequence(segments, pin);
        while pin + 1 < |segments| && Packable(segments[pin], segments[pin + 1])
          invariant pin < |segments| && segments[pin] == Tidy(segments[pin])
          invariant Finished(segments, pin) == Finished(old(segments), 0)
          decreases |segments|
        {
          JoinKeepsFinished(segments, pin);
          TidySequence(JoinAt(segments, pin), pin);
          segments := JoinAt(segments, pin);
        }
        StepKeepsFinished(segments, pin);
        pin := pin + 1;
      }
      FinishedEnds(segments);
      FinishedEnds(old(segments));
    }

    /** Sort one set segment and drop its duplicates. */
    method SortAndWeed(pin: nat)
      requires pin < |segments| && IsSetKind(segments[pin].kind)
      modifies this
      ensures segments == TidyAt(old(segments), pin) && segments[pin] == Tidy(segments[pin])
    {
      var sorted := Sort(segments[pin].asns);
      var as4 := new Asn[|sorted|](i requires 0 <= i < |sorted| => sorted[i]);
      assert as4[..] == sorted;
      var length := WeedDuplicates(as4);
      TidyFixed(segments[pin]);
      segments := segments[pin := Segment(segments[pin].kind, as4[..length])];
    }

    /** aspath_count_hops. */
    method CountHops() returns (count: nat)
      ensures count == Hops(segments)
    {
      count := 0;
      var i := 0;
      while i < |segments|
        invariant i <= |segments|
        invariant count + Hops(segments[i..]) == Hops(segments)
      {
        assert segments[i..][1..] == segments[i + 1..];
        if segments[i].kind == AsSequence {
          count := count + |segments[i].asns|;
        } else if segments[i].kind == AsSet {
          count := count + 1;
        }
        i := i + 1;
      }
    }

    /** aspath_count_confeds. */
    method CountConfeds() returns (count: nat)
      ensures count == Confeds(segments)
    {
      count := 0;
      var i := 0;
      while i < |segments|
        invariant i <= |segments|
        invariant count + Confeds(segments[i..]) == Confeds(segments)
      {
        assert segments[i..][1..] == segments[i + 1..];
        if segments[i].kind == AsConfedSequence {
          count := count + |segments[i].asns|;
        } else if segments[i].kind == AsConfedSet {
          count := count + 1;
        }
        i := i + 1;
      }
    }
  }

  /** aspath_cmp walks two chains together; on chains built by the parser it
      decides whether two paths mean the same. */
  method Compare(one: Path, two: Path) returns (same: bool)
    ensures same <==> one == two
    ensures Normal(one) && Normal(two) && NoEmptySequence(one) && NoEmptySequence(two)
            ==> (same <==> Meaning(one) == Meaning(two))
  {
    if Normal(one) && Normal(two) && NoEmptySequence(one) && NoEmptySequence(two) {
      RebuildMeaning(one);
      RebuildMeaning(two);
    }
    var s := 0;
    while s < |one| || s < |two|
      invariant s <= |one| && s <= |two| && one[..s] == two[..s]
      decreases |one| - s
    {
      if s >= |one| || s >= |two| { return false; }
      if one[s].kind != two[s].kind { return false; }
      if |one[s].asns| != |two[s].asns| { return false; }
      var i := 0;
      while i < |one[s].asns|
        invariant i <= |one[s].asns| && one[s].asns[..i] == two[s].asns[..i]
      {
        if one[s].asns[i] != two[s].asns[i] { return false; }
        i := i + 1;
      }
      assert one[s] == two[s];
      s := s + 1;
    }
    assert one == one[..s] && two == two[..s];
    return true;
  }
}
