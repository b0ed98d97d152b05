/// The operations of System.Collections.Generic.List<T> the core relies on,
/// on sequences.
module Collections {
  predicate Distinct<T(==)>(s: seq<T>) {
    forall a, b :: 0 <= a < b < |s| ==> s[a] != s[b]
  }

  /// List<T>.Remove: drops the first occurrence of x, if there is one.
  function RemoveFirst<T(==)>(s: seq<T>, x: T): (r: seq<T>)
    ensures x !in s ==> r == s
    ensures x in s ==> |r| == |s| - 1
  {
    if s == [] then []
    else if s[0] == x then s[1..]
    else [s[0]] + RemoveFirst(s[1..], x)
  }

  /// Exactly one copy of x goes, when there is one, and nothing else.
  lemma {:induction false} RemoveFirstMultiset<T>(s: seq<T>, x: T)
    ensures multiset(RemoveFirst(s, x)) == multiset(s) - multiset{x}
  {
    if s != [] {
      assert s == [s[0]] + s[1..];
      if s[0] != x {
        RemoveFirstMultiset(s[1..], x);
      }
    }
  }

  /// A list holding x at most once holds it no more afterwards.
  /// Removing keeps nothing that was not there.
  lemma RemoveFirstSubset<T>(s: seq<T>, x: T)
    ensures forall y :: y in RemoveFirst(s, x) ==> y in s
  {
    RemoveFirstMultiset(s, x);
    forall y | y in RemoveFirst(s, x)
      ensures y in s
    {
      assert y in multiset(RemoveFirst(s, x));
    }
  }

  lemma RemoveFirstRemoves<T>(s: seq<T>, x: T)
    requires multiset(s)[x] <= 1
    ensures x !in RemoveFirst(s, x)
  {
    RemoveFirstMultiset(s, x);
    assert (multiset(s) - multiset{x})[x] == 0;
  }

  /// From a list without repeats the element is gone afterwards, every other
  /// element stays, and the list still has no repeats.
  lemma RemoveFirstDistinct<T>(s: seq<T>, x: T)
    requires Distinct(s)
    ensures Distinct(RemoveFirst(s, x))
    ensures forall y :: y in RemoveFirst(s, x) <==> y in s && y != x
  {
    RemoveFirstMultiset(s, x);
    var r := RemoveFirst(s, x);
    assert forall y :: y in r <==> y in multiset(r);
    DistinctMultiset(s);
    assert forall y :: multiset(r)[y] <= 1;
    MultisetDistinct(r);
  }

  /// A sequence has no repeats exactly when no element counts twice.
  lemma {:induction false} DistinctMultiset<T>(s: seq<T>)
    requires Distinct(s)
    ensures forall y :: multiset(s)[y] <= 1
  {
    if s != [] {
      assert s == [s[0]] + s[1..];
      DistinctMultiset(s[1..]);
      assert s[0] !in s[1..];
    }
  }

  lemma {:induction false} MultisetDistinct<T>(s: seq<T>)
    requires forall y :: multiset(s)[y] <= 1
    ensures Distinct(s)
  {
    if s != [] {
      assert s == [s[0]] + s[1..];
      assert forall y :: multiset(s[1..])[y] <= multiset(s)[y];
      MultisetDistinct(s[1..]);
      assert s[0] !in s[1..] by {
        assert multiset(s)[s[0]] == 1 + multiset(s[1..])[s[0]];
      }
      forall a, b | 0 <= a < b < |s|
        ensures s[a] != s[b]
      {
        if a > 0 {
          assert s[a] == s[1..][a - 1] && s[b] == s[1..][b - 1];
        } else {
          assert s[b] in s[1..];
        }
      }
    }
  }

  /// The tail of a list without repeats has none either, and lacks the head.
  lemma DistinctTail<T>(s: seq<T>)
    requires Distinct(s) && s != []
    ensures Distinct(s[1..]) && s[0] !in s[1..]
  {
    forall a, b | 0 <= a < b < |s[1..]|
      ensures s[1..][a] != s[1..][b]
    {
      assert s[1..][a] == s[a + 1] && s[1..][b] == s[b + 1];
    }
    forall k | 0 <= k < |s[1..]|
      ensures s[1..][k] != s[0]
    {
      assert s[1..][k] == s[k + 1];
    }
  }

  /// Two lists without repeats and without common elements join into one.
  lemma DistinctAppend<T>(s: seq<T>, t: seq<T>)
    requires Distinct(s) && Distinct(t)
    requires forall x :: x in s ==> x !in t
    ensures Distinct(s + t)
  {
    forall a, b | 0 <= a < b < |s + t|
      ensures (s + t)[a] != (s + t)[b]
    {
      if a < |s| && b >= |s| {
        assert (s + t)[a] in s && (s + t)[b] == t[b - |s|];
      }
    }
  }

  /// List.Remove of each of xs in turn.
  function RemoveEach<T(==)>(s: seq<T>, xs: seq<T>): seq<T> {
    if xs == [] then s
    else
      var n := |xs| - 1;
      RemoveFirst(RemoveEach(s, xs[..n]), xs[n])
  }

  /// From a list without repeats this removes exactly the elements of xs.
  lemma {:induction false} RemoveEachDistinct<T>(s: seq<T>, xs: seq<T>)
    requires Distinct(s)
    ensures Distinct(RemoveEach(s, xs))
    ensures forall y :: y in RemoveEach(s, xs) <==> y in s && y !in xs
  {
    if xs != [] {
      var n := |xs| - 1;
      RemoveEachDistinct(s, xs[..n]);
      RemoveFirstDistinct(RemoveEach(s, xs[..n]), xs[n]);
      assert xs == xs[..n] + [xs[n]];
    }
  }

  /// The same, for one element.
  lemma RemoveEachMember<T>(s: seq<T>, xs: seq<T>, y: T)
    requires Distinct(s)
    ensures y in RemoveEach(s, xs) <==> y in s && y !in xs
  {
    RemoveEachDistinct(s, xs);
  }

  /// r keeps some of the elements of s, in their order in s.
  ghost predicate Subsequence<T>(r: seq<T>, s: seq<T>)
    decreases |s|
  {
    if r == [] then true
    else if s == [] then false
    else (r[0] == s[0] && Subsequence(r[1..], s[1..])) || Subsequence(r, s[1..])
  }

  /// List<T>.Reverse.
  function Reverse<T>(s: seq<T>): (r: seq<T>)
    ensures |r| == |s|
    ensures forall i :: 0 <= i < |s| ==> r[i] == s[|s| - 1 - i]
  {
    if s == [] then [] else Reverse(s[1..]) + [s[0]]
  }
}
