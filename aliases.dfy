/** The normalisation of one star's alias list in `genAliases`
    (plandb_methods.py:1251-1257): add the star's own name if missing, drop
    the first 'aliasdis' placeholder, sort and deduplicate (`np.unique`),
    and flag the primary name. */
module Aliases {

  const Placeholder: string := "aliasdis"

  /** Code-point lexicographic order, as NumPy compares strings. */
  predicate StrLess(a: string, b: string)
  {
    if |a| == 0 then |b| > 0
    else if |b| == 0 then false
    else a[0] < b[0] || (a[0] == b[0] && StrLess(a[1..], b[1..]))
  }

  lemma {:induction false} StrLessIrreflexive(a: string)
    ensures !StrLess(a, a)
  {
    if |a| > 0 {
      StrLessIrreflexive(a[1..]);
    }
  }

  lemma {:induction false} StrLessTransitive(a: string, b: string, c: string)
    requires StrLess(a, b) && StrLess(b, c)
    ensures StrLess(a, c)
  {
    if |a| > 0 && a[0] == b[0] && b[0] == c[0] {
      StrLessTransitive(a[1..], b[1..], c[1..]);
    }
  }

  lemma {:induction false} StrLessTotal(a: string, b: string)
    requires a != b
    ensures StrLess(a, b) || StrLess(b, a)
  {
    if |a| > 0 && |b| > 0 && a[0] == b[0] {
      assert a == [a[0]] + a[1..] && b == [b[0]] + b[1..];
      StrLessTotal(a[1..], b[1..]);
    }
  }

  predicate StrictlySorted(s: seq<string>)
  {
    forall i, j :: 0 <= i < j < |s| ==> StrLess(s[i], s[j])
  }

  /** Insert `x` into a strictly sorted list, unless it is already there. */
  function Insert(x: string, s: seq<string>): (r: seq<string>)
    requires StrictlySorted(s)
    ensures StrictlySorted(r)
    ensures forall y :: y in r <==> y == x || y in s
  {
    if s == [] then [x]
    else if x == s[0] then s
    else if StrLess(x, s[0]) then
      assert forall j :: 0 < j < |s| ==> StrLess(x, s[j]) by {
        forall j | 0 < j < |s| ensures StrLess(x, s[j]) { StrLessTransitive(x, s[0], s[j]); }
      }
      [x] + s
    else
      StrLessTotal(x, s[0]);
      var rest := Insert(x, s[1..]);
      assert forall y :: y in rest ==> StrLess(s[0], y);
      [s[0]] + rest
  }

  /** `np.unique`: the distinct names, in ascending order. */
  function SortedUnique(s: seq<string>): (r: seq<string>)
    ensures StrictlySorted(r)
    ensures forall y :: y in r <==> y in s
  {
    if s == [] then [] else Insert(s[|s| - 1], SortedUnique(s[..|s| - 1]))
  }

  /** `list.remove`: drop the first occurrence of `x`, if any. */
  function RemoveFirst(s: seq<string>, x: string): (r: seq<string>)
    ensures multiset(r) == multiset(s) - multiset{x}
  {
    if s == [] then []
    else
      assert s == [s[0]] + s[1..];
      if s[0] == x then s[1..] else [s[0]] + RemoveFirst(s[1..], x)
  }

  /** One star's alias rows: the normalised names and the `NEAName` flags. */
  method NormaliseAliases(star: string, fetched: seq<string>)
    returns (aliases: seq<string>, primary: seq<int>)
    ensures StrictlySorted(aliases)
    ensures forall a :: a != Placeholder ==> (a in aliases <==> a in fetched || a == star)
    ensures Placeholder in aliases <==> multiset(fetched)[Placeholder] >= 2
    ensures |primary| == |aliases|
    ensures forall i :: 0 <= i < |aliases| ==> primary[i] == if aliases[i] == star then 1 else 0
  {
    var tmp := fetched;
    if star !in tmp {
      tmp := tmp + [star];
    }
    ghost var withStar := tmp;
    assert forall a :: a in withStar <==> a in fetched || a == star;
    assert multiset(withStar)[Placeholder] == multiset(fetched)[Placeholder] + (if star !in fetched && star == Placeholder then 1 else 0);
    if Placeholder in tmp {
      tmp := RemoveFirst(tmp, Placeholder);
    }
    assert multiset(tmp)[Placeholder] == if multiset(withStar)[Placeholder] > 0 then multiset(withStar)[Placeholder] - 1 else 0;
    forall a | a != Placeholder
      ensures a in tmp <==> a in withStar
    {
      assert multiset(tmp)[a] == multiset(withStar)[a];
      assert a in tmp <==> a in multiset(tmp);
      assert a in withStar <==> a in multiset(withStar);
    }
    assert Placeholder in tmp <==> Placeholder in multiset(tmp);
    aliases := SortedUnique(tmp);
    primary := seq(|aliases|, i requires 0 <= i < |aliases| => if aliases[i] == star then 1 else 0);
  }

  /** Unless the star is itself called 'aliasdis', exactly one alias row is
      flagged as the primary name. */
  lemma ExactlyOnePrimary(star: string, aliases: seq<string>, primary: seq<int>)
    requires star != Placeholder && star in aliases && StrictlySorted(aliases)
    requires |primary| == |aliases|
    requires forall i :: 0 <= i < |aliases| ==> primary[i] == if aliases[i] == star then 1 else 0
    ensures exists i :: 0 <= i < |primary| && primary[i] == 1
              && forall j :: 0 <= j < |primary| && j != i ==> primary[j] == 0
  {
    var i :| 0 <= i < |aliases| && aliases[i] == star;
    forall j | 0 <= j < |primary| && j != i
      ensures primary[j] == 0
    {
      if j < i { assert StrLess(aliases[j], aliases[i]); StrLessIrreflexive(star); }
      else { assert StrLess(aliases[i], aliases[j]); StrLessIrreflexive(star); }
    }
  }
}
