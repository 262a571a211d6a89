/** `sorted(set(leaf_to_family.values()))`: the distinct families, in Python's
    string order. */
module Families {
  import opened Wrappers
  import opened PyStr

  /** Each element is smaller than every later one, so none repeats. */
  predicate StrictlyIncreasing(xs: seq<string>)
  {
    forall i, j :: 0 <= i < j < |xs| ==> Less(xs[i], xs[j])
  }

  /** Inserting `v` into a strictly increasing sequence, unless it is already there. */
  function Insert(xs: seq<string>, v: string): (r: seq<string>)
    requires StrictlyIncreasing(xs)
    ensures StrictlyIncreasing(r)
    ensures Elements(r) == Elements(xs) + {v}
  {
    if |xs| == 0 then [v]
    else if xs[0] == v then xs
    else if Less(v, xs[0]) then
      forall j | 0 < j < |xs| ensures Less(v, xs[j]) {
        LessTransitive(v, xs[0], xs[j]);
      }
      assert Elements([v] + xs) == Elements(xs) + {v};
      [v] + xs
    else
      LessTotal(v, xs[0]);
      var tail := xs[1..];
      var rest := Insert(tail, v);
      assert Elements(xs) == {xs[0]} + Elements(tail);
      assert forall y :: y in rest ==> Less(xs[0], y) by {
        forall y | y in rest ensures Less(xs[0], y) {
          assert y in Elements(rest);
        }
      }
      assert Elements([xs[0]] + rest) == {xs[0]} + Elements(rest);
      [xs[0]] + rest
  }

  /** The distinct families of the mapping, sorted: built by inserting the values
      one at a time. */
  method SortedFamilies(mapping: map<string, string>) returns (families: seq<string>)
    ensures StrictlyIncreasing(families)
    ensures Elements(families) == mapping.Values
  {
    families := [];
    var rest := mapping.Values;
    while rest != {}
      invariant StrictlyIncreasing(families)
      invariant Elements(families) + rest == mapping.Values
      decreases rest
    {
      var v :| v in rest;
      families := Insert(families, v);
      rest := rest - {v};
    }
  }

  /** A strictly increasing sequence has no repeated element. */
  lemma IncreasingDistinct(xs: seq<string>)
    requires StrictlyIncreasing(xs)
    ensures Distinct(xs)
  {
    forall i, j | 0 <= i < j < |xs|
      ensures xs[i] != xs[j]
    {
      if xs[i] == xs[j] {
        LessIrreflexive(xs[i]);
      }
    }
  }

  lemma NonEmptyElements(xs: seq<string>)
    ensures |xs| > 0 <==> Elements(xs) != {}
  {
    if |xs| > 0 {
      assert xs[0] in Elements(xs);
    }
  }

  /** Sorting a set has one answer: two strictly increasing sequences with the
      same elements are equal. */
  lemma {:induction false} SortedUnique(a: seq<string>, b: seq<string>)
    requires StrictlyIncreasing(a) && StrictlyIncreasing(b)
    requires Elements(a) == Elements(b)
    ensures a == b
    decreases |a|
  {
    NonEmptyElements(a);
    NonEmptyElements(b);
    if |a| > 0 && |b| > 0 {
      assert a[0] in Elements(b) && b[0] in Elements(a);
      if a[0] != b[0] {
        var i :| 0 <= i < |b| && b[i] == a[0];
        var j :| 0 <= j < |a| && a[j] == b[0];
        LessAsymmetric(b[0], a[0]);
      }
      assert Elements(a[1..]) == Elements(a) - {a[0]} by {
        IncreasingDistinct(a);
        assert a == [a[0]] + a[1..];
      }
      assert Elements(b[1..]) == Elements(b) - {b[0]} by {
        IncreasingDistinct(b);
        assert b == [b[0]] + b[1..];
      }
      SortedUnique(a[1..], b[1..]);
      assert a == [a[0]] + a[1..] && b == [b[0]] + b[1..];
    }
  }
}
