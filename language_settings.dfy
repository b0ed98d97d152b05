/// The dialog editor's language list and the clean-up its OnValidate applies:
/// repeated names are moved to the end and renamed, an empty list gets the
/// default language, and the current language goes back to the first one.
module LanguageSettings {
  import opened Options
  import opened Collections

  const DefaultLanguage: string := "English"

  // ---- Enumerable.Distinct and the repeats GroupBy/Skip(1) collects ----

  /// Enumerable.Distinct: the first occurrence of each value, in order.
  function Dedup(s: seq<string>): (r: seq<string>)
    ensures Distinct(r) && |r| <= |s|
    ensures forall x :: x in r <==> x in s
  {
    if s == [] then []
    else
      var n := |s| - 1;
      var d := Dedup(s[..n]);
      assert forall x :: x in s <==> x in s[..n] || x == s[n] by {
        assert s == s[..n] + [s[n]];
      }
      if s[n] in s[..n] then d
      else
        DistinctAppend(d, [s[n]]);
        d + [s[n]]
  }

  /// n copies of x.
  function Copies(x: string, n: nat): (r: seq<string>)
    ensures |r| == n && forall i :: 0 <= i < n ==> r[i] == x
  {
    seq(n, _ => x)
  }

  /// For each key in turn, every occurrence of it in s after the first.
  function RepeatsOf(keys: seq<string>, s: seq<string>): seq<string>
    requires forall k :: k in keys ==> k in s
  {
    if keys == [] then []
    else
      assert keys[0] in keys;
      assert keys[0] in multiset(s);
      Copies(keys[0], multiset(s)[keys[0]] - 1) + RepeatsOf(keys[1..], s)
  }

  /// GroupBy(x => x).SelectMany(g => g.Skip(1)): the groups come in the order
  /// of their keys' first occurrences, so the repeats of one value are
  /// together whatever their positions in s.
  function Repeats(s: seq<string>): seq<string> {
    RepeatsOf(Dedup(s), s)
  }

  // ---- Renaming ----

  predicate IsDigit(c: char) {
    '0' <= c <= '9'
  }

  function DigitChar(d: nat): char
    requires d < 10
  {
    ('0' as int + d) as char
  }

  /// Int32.ToString of a non-negative number: its decimal digits.
  function NatToString(n: nat): (r: string)
    ensures |r| > 0 && forall i :: 0 <= i < |r| ==> IsDigit(r[i])
  {
    if n < 10 then [DigitChar(n)] else NatToString(n / 10) + [DigitChar(n % 10)]
  }

  /// The number a string of decimal digits spells.
  function DigitsValue(s: string): nat
    requires forall i :: 0 <= i < |s| ==> IsDigit(s[i])
  {
    if s == [] then 0
    else
      var n := |s| - 1;
      assert IsDigit(s[n]);
      DigitsValue(s[..n]) * 10 + (s[n] as int - '0' as int)
  }

  /// Reading the digits back gives the number, so different numbers give
  /// different texts.
  lemma {:induction false} NatToStringRoundTrip(n: nat)
    ensures DigitsValue(NatToString(n)) == n
  {
    if n >= 10 {
      NatToStringRoundTrip(n / 10);
      var s := NatToString(n);
      assert s[..|s| - 1] == NatToString(n / 10);
    }
  }

  /// One repeat renamed, with k the value of the counter: a trailing digit
  /// goes up by one code point, anything else gets " k" appended. Reading
  /// the last character of an empty name throws.
  function Renamed(d: string, k: nat): (r: Option<string>)
    ensures r.None? <==> d == []
    ensures r.Some? && IsDigit(d[|d| - 1]) ==>
      |r.value| == |d| && r.value[..|d| - 1] == d[..|d| - 1] && r.value[|d| - 1] as int == d[|d| - 1] as int + 1
    ensures r.Some? && !IsDigit(d[|d| - 1]) ==> |r.value| > |d| + 1 && r.value[..|d|] == d && r.value[|d|..] == " " + NatToString(k)
    ensures r.Some? ==> r.value != d
  {
    if d == [] then None
    else
      var last := d[|d| - 1];
      if IsDigit(last) then
        var r := d[..|d| - 1] + [(last as int + 1) as char];
        assert r[|d| - 1] != d[|d| - 1];
        Some(r)
      else
        var r := d + " " + NatToString(k);
        assert |r| != |d|;
        Some(r)
  }

  /// The first n repeats renamed, repeat i with the counter value i + 1;
  /// None once one of them throws.
  function RenameAll(ds: seq<string>, n: nat): (r: Option<seq<string>>)
    requires n <= |ds|
    ensures r.Some? <==> forall i :: 0 <= i < n ==> ds[i] != []
    ensures r.Some? ==> |r.value| == n && forall i :: 0 <= i < n ==> Renamed(ds[i], i + 1) == Some(r.value[i])
  {
    if n == 0 then Some([])
    else
      match RenameAll(ds, n - 1)
      case None => None
      case Some(prefix) =>
        match Renamed(ds[n - 1], n)
        case None => None
        case Some(x) => Some(prefix + [x])
  }

  /// What OnValidate leaves in the list, or None where it throws.
  function Validated(languages: seq<string>): (r: Option<seq<string>>)
    ensures r.Some? <==> "" !in Repeats(languages)
    ensures languages == [] ==> r == Some([DefaultLanguage])
    ensures r.Some? && languages != [] ==>
      |r.value| == |languages| && r.value[..|Dedup(languages)|] == Dedup(languages)
  {
    var d, rs := Dedup(languages), Repeats(languages);
    match RenameAll(rs, |rs|)
    case None =>
      assert exists i :: 0 <= i < |rs| && rs[i] == [];
      None
    case Some(renamed) =>
      DedupRepeatsLength(languages);
      var l := d + renamed;
      assert languages != [] ==> l != [] by {
        if languages != [] {
          assert languages[0] in d;
        }
      }
      assert l[..|d|] == d;
      Some(if |l| < 1 then [DefaultLanguage] else l)
  }

  // ---- Counting ----

  /// The number of occurrences in s of the keys, counted one by one.
  function SumCounts(keys: seq<string>, s: seq<string>): nat {
    if keys == [] then 0 else multiset(s)[keys[0]] + SumCounts(keys[1..], s)
  }

  lemma {:induction false} SumCountsAppend(a: seq<string>, b: seq<string>, s: seq<string>)
    ensures SumCounts(a + b, s) == SumCounts(a, s) + SumCounts(b, s)
  {
    if a != [] {
      assert (a + b)[0] == a[0] && (a + b)[1..] == a[1..] + b;
      SumCountsAppend(a[1..], b, s);
    } else {
      assert a + b == b;
    }
  }

  /// One more element in s adds one to the count of its key, if it is one.
  lemma {:induction false} SumCountsSnoc(keys: seq<string>, s: seq<string>, x: string)
    requires Distinct(keys)
    ensures SumCounts(keys, s + [x]) == SumCounts(keys, s) + (if x in keys then 1 else 0)
  {
    if keys != [] {
      assert multiset(s + [x]) == multiset(s) + multiset{x};
      assert Distinct(keys[1..]) by {
        forall a, b | 0 <= a < b < |keys[1..]|
          ensures keys[1..][a] != keys[1..][b]
        {
          assert keys[1..][a] == keys[a + 1] && keys[1..][b] == keys[b + 1];
        }
      }
      SumCountsSnoc(keys[1..], s, x);
      if x == keys[0] {
        assert x !in keys[1..] by {
          forall j | 0 <= j < |keys[1..]|
            ensures keys[1..][j] != x
          {
            assert keys[1..][j] == keys[j + 1];
          }
        }
      } else {
        assert x in keys <==> x in keys[1..] by {
          assert keys == [keys[0]] + keys[1..];
        }
      }
    }
  }

  /// Every element of s is counted once over its distinct values.
  lemma {:induction false} SumCountsDedup(s: seq<string>)
    ensures SumCounts(Dedup(s), s) == |s|
  {
    if s != [] {
      var n := |s| - 1;
      var t, x := s[..n], s[n];
      assert s == t + [x];
      SumCountsDedup(t);
      SumCountsSnoc(Dedup(t), t, x);
      if x !in t {
        SumCountsAppend(Dedup(t), [x], s);
        assert multiset(s)[x] == multiset(t)[x] + 1;
      }
    }
  }

  lemma {:induction false} RepeatsOfLength(keys: seq<string>, s: seq<string>)
    requires forall k :: k in keys ==> k in s
    ensures |RepeatsOf(keys, s)| + |keys| == SumCounts(keys, s)
  {
    if keys != [] {
      assert keys[0] in keys;
      assert keys[0] in multiset(s);
      RepeatsOfLength(keys[1..], s);
    }
  }

  /// The distinct values and the repeats together are as many as the input.
  lemma DedupRepeatsLength(s: seq<string>)
    ensures |Dedup(s)| + |Repeats(s)| == |s|
  {
    RepeatsOfLength(Dedup(s), s);
    SumCountsDedup(s);
  }

  // ---- A list without repeats ----

  lemma {:induction false} DedupDistinct(s: seq<string>)
    requires Distinct(s)
    ensures Dedup(s) == s
  {
    if s != [] {
      var n := |s| - 1;
      assert Distinct(s[..n]) by {
        forall a, b | 0 <= a < b < n
          ensures s[..n][a] != s[..n][b]
        {
          assert s[..n][a] == s[a] && s[..n][b] == s[b];
        }
      }
      DedupDistinct(s[..n]);
      assert s[n] !in s[..n] by {
        forall j | 0 <= j < n
          ensures s[..n][j] != s[n]
        {
          assert s[..n][j] == s[j];
        }
      }
      assert s == s[..n] + [s[n]];
    }
  }

  /// The position of the first occurrence of x in s.
  function FirstIndex(s: seq<string>, x: string): (i: nat)
    requires x in s
    ensures i < |s| && s[i] == x && x !in s[..i]
  {
    if s[0] == x then 0
    else
      var j := FirstIndex(s[1..], x);
      assert s[..j + 1] == [s[0]] + s[1..][..j];
      1 + j
  }

  /// Appending to s does not move the first occurrence of a value of s.
  lemma FirstIndexAppend(s: seq<string>, x: string, y: string)
    requires x in s
    ensures FirstIndex(s + [y], x) == FirstIndex(s, x)
  {
    var i, j := FirstIndex(s + [y], x), FirstIndex(s, x);
    assert (s + [y])[j] == x;
  }

  /// Distinct keeps the values in the order of their first occurrences.
  lemma {:induction false} DedupFirstOrder(s: seq<string>)
    ensures forall a, b :: 0 <= a < b < |Dedup(s)| ==> FirstIndex(s, Dedup(s)[a]) < FirstIndex(s, Dedup(s)[b])
  {
    if s != [] {
      var n := |s| - 1;
      var t, x := s[..n], s[n];
      assert s == t + [x];
      DedupFirstOrder(t);
      var d := Dedup(t);
      forall a | 0 <= a < |d|
        ensures FirstIndex(s, d[a]) == FirstIndex(t, d[a])
      {
        FirstIndexAppend(t, d[a], x);
      }
      if x !in t {
        assert Dedup(s) == d + [x];
        assert FirstIndex(s, x) == n by {
          assert s[n] == x && x !in s[..n];
        }
      }
    }
  }

  lemma {:induction false} RepeatsOfSingles(keys: seq<string>, s: seq<string>)
    requires forall k :: k in keys ==> k in s && multiset(s)[k] == 1
    ensures RepeatsOf(keys, s) == []
  {
    if keys != [] {
      assert keys[0] in keys;
      RepeatsOfSingles(keys[1..], s);
    }
  }

  /// A list without repeats comes out as it went in.
  lemma ValidatedUnchanged(languages: seq<string>)
    requires languages != [] && Distinct(languages)
    ensures Validated(languages) == Some(languages)
  {
    DedupDistinct(languages);
    DistinctMultiset(languages);
    forall k | k in languages
      ensures multiset(languages)[k] == 1
    {
      assert k in multiset(languages);
    }
    RepeatsOfSingles(languages, languages);
    assert Repeats(languages) == [];
    assert RenameAll([], 0) == Some([]);
    ValidatedIs(languages);
    assert languages + [] == languages;
  }

  /// The renamed repeats follow the distinct values, repeat i renamed with
  /// the counter value i + 1.
  lemma ValidatedTail(languages: seq<string>, i: nat)
    requires Validated(languages).Some? && i < |Repeats(languages)|
    ensures |Dedup(languages)| + i < |Validated(languages).value|
    ensures Renamed(Repeats(languages)[i], i + 1) == Some(Validated(languages).value[|Dedup(languages)| + i])
  {
    ValidatedIs(languages);
  }

  /// The list OnValidate leaves when it does not throw.
  lemma ValidatedIs(languages: seq<string>)
    requires Validated(languages).Some?
    ensures RenameAll(Repeats(languages), |Repeats(languages)|).Some?
    ensures languages != [] ==>
      Validated(languages).value == Dedup(languages) + RenameAll(Repeats(languages), |Repeats(languages)|).value
  {
  }

  /// The editor asset holding the language list.
  class DialogUtilityLanguageSettings {
    var languages: seq<string>
    var currentLanguageIndex: int

    /// A new asset lists only the default language.
    constructor ()
      ensures languages == [DefaultLanguage] && currentLanguageIndex == 0
    {
      languages := [DefaultLanguage];
      currentLanguageIndex := 0;
    }

    /// OnValidate: the list becomes its distinct values followed by the
    /// renamed repeats, or the default language when that is empty, and the
    /// current index is reset. An empty repeated name throws once the list
    /// is already the distinct values, before the index is reset.
    method OnValidate() returns (ok: bool)
      modifies this
      ensures ok <==> Validated(old(languages)).Some?
      ensures ok ==> languages == Validated(old(languages)).value && currentLanguageIndex == 0
      ensures !ok ==> languages == Dedup(old(languages)) && currentLanguageIndex == old(currentLanguageIndex)
    {
      var duplicates := Repeats(languages);
      ghost var rs := duplicates;
      languages := Dedup(languages);
      var someInt := 1;
      for i := 0 to |duplicates|
        invariant |duplicates| == |rs| && someInt == i + 1
        invariant duplicates[i..] == rs[i..]
        invariant RenameAll(rs, i) == Some(duplicates[..i])
      {
        var d := duplicates[i];
        if d == [] {
          assert RenameAll(rs, |rs|).None?;
          return false;
        }
        var last := d[|d| - 1];
        if '0' <= last <= '9' {
          d := d[..|d| - 1] + [(last as int + 1) as char];
        } else {
          d := d + " " + NatToString(someInt);
        }
        assert duplicates[i] == rs[i];
        duplicates := duplicates[i := d];
        assert duplicates[..i + 1] == duplicates[..i] + [d];
        someInt := someInt + 1;
      }
      assert duplicates[..|duplicates|] == duplicates;
      languages := languages + duplicates;
      if |languages| < 1 {
        languages := languages + [DefaultLanguage];
      }
      currentLanguageIndex := 0;
      ok := true;
    }
  }
}
