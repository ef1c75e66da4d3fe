/** The array sort of ECMAScript: stable, driven by a comparator that answers with a
    signed number. Insertion stands for whatever algorithm the engine uses. */
module Sorting {

  /** What a comparator must satisfy for the order of `sort` to be defined. */
  ghost predicate IsComparator<T(!new)>(cmp: (T, T) -> int) {
    && (forall a :: cmp(a, a) == 0)
    && (forall a, b :: cmp(a, b) < 0 <==> cmp(b, a) > 0)
    && (forall a, b, c :: cmp(a, b) <= 0 && cmp(b, c) <= 0 ==> cmp(a, c) <= 0)
  }

  function Insert<T>(cmp: (T, T) -> int, x: T, s: seq<T>): seq<T> {
    if s == [] then [x]
    else if cmp(x, s[0]) <= 0 then [x] + s
    else [s[0]] + Insert(cmp, x, s[1..])
  }

  function StableSort<T>(cmp: (T, T) -> int, s: seq<T>): seq<T> {
    if s == [] then [] else Insert(cmp, s[0], StableSort(cmp, s[1..]))
  }

  ghost predicate SortedBy<T>(le: (T, T) -> bool, s: seq<T>) {
    forall i, j :: 0 <= i < j < |s| ==> le(s[i], s[j])
  }

  /** First by `cmp`, then by `tie`. */
  ghost function Then<T>(cmp: (T, T) -> int, tie: (T, T) -> bool): (T, T) -> bool {
    (a, b) => cmp(a, b) < 0 || (cmp(a, b) == 0 && tie(a, b))
  }

  lemma {:induction false} InsertPermutes<T>(cmp: (T, T) -> int, x: T, s: seq<T>)
    ensures multiset(Insert(cmp, x, s)) == multiset(s) + multiset{x}
  {
    if s != [] {
      InsertPermutes(cmp, x, s[1..]);
      assert s == [s[0]] + s[1..];
    }
  }

  lemma {:induction false} StableSortPermutes<T>(cmp: (T, T) -> int, s: seq<T>)
    ensures multiset(StableSort(cmp, s)) == multiset(s)
  {
    if s != [] {
      StableSortPermutes(cmp, s[1..]);
      InsertPermutes(cmp, s[0], StableSort(cmp, s[1..]));
      assert s == [s[0]] + s[1..];
    }
  }

  lemma {:induction false} InsertKeepsOrder<T(!new)>(cmp: (T, T) -> int, tie: (T, T) -> bool, x: T, s: seq<T>)
    requires IsComparator(cmp) && SortedBy(Then(cmp, tie), s)
    requires forall y :: y in s ==> tie(x, y)
    ensures SortedBy(Then(cmp, tie), Insert(cmp, x, s))
  {
    if s != [] {
      if cmp(x, s[0]) <= 0 {
        forall y | y in s
          ensures Then(cmp, tie)(x, y)
        {
          assert cmp(s[0], y) <= 0;
          assert cmp(x, y) <= 0;
        }
      } else {
        InsertKeepsOrder(cmp, tie, x, s[1..]);
        InsertPermutes(cmp, x, s[1..]);
        var rest := Insert(cmp, x, s[1..]);
        assert cmp(s[0], x) < 0;
        forall y | y in rest
          ensures Then(cmp, tie)(s[0], y)
        {
          assert y in multiset(rest);
          assert y == x || y in s[1..];
        }
      }
    }
  }

  /** Elements the comparator calls equal keep the order they came in. */
  lemma {:induction false} StableSortSorts<T(!new)>(cmp: (T, T) -> int, tie: (T, T) -> bool, s: seq<T>)
    requires IsComparator(cmp) && SortedBy(tie, s)
    ensures SortedBy(Then(cmp, tie), StableSort(cmp, s))
  {
    if s != [] {
      StableSortSorts(cmp, tie, s[1..]);
      StableSortPermutes(cmp, s[1..]);
      var rest := StableSort(cmp, s[1..]);
      forall y | y in rest
        ensures tie(s[0], y)
      {
        assert y in multiset(rest);
        assert y in s[1..];
      }
      InsertKeepsOrder(cmp, tie, s[0], rest);
    }
  }

  // ---------- permutations ----------

  lemma RemoveAt<T>(s: seq<T>, k: nat)
    requires k < |s|
    ensures multiset(s[..k] + s[k + 1..]) == multiset(s) - multiset{s[k]}
  {
    assert s == s[..k] + [s[k]] + s[k + 1..];
  }

  lemma RemoveFirst<T>(s: seq<T>)
    requires s != []
    ensures multiset(s[1..]) == multiset(s) - multiset{s[0]}
  {
    assert s == [s[0]] + s[1..];
  }

  /** Where the first element of s occurs in a permutation t of it, and what remains is again a permutation. */
  lemma Matching<T>(s: seq<T>, t: seq<T>) returns (k: nat)
    requires s != [] && multiset(s) == multiset(t)
    ensures k < |t| && t[k] == s[0]
    ensures multiset(s[1..]) == multiset(t[..k] + t[k + 1..])
  {
    assert s[0] in multiset(t);
    k :| 0 <= k < |t| && t[k] == s[0];
    RemoveFirst(s);
    RemoveAt(t, k);
  }

  lemma SameLength<T>(s: seq<T>, t: seq<T>)
    requires multiset(s) == multiset(t)
    ensures |s| == |t|
  {
    assert |multiset(s)| == |s| && |multiset(t)| == |t|;
  }

  /** Under an antisymmetric order there is only one sorted arrangement. */
  lemma {:induction false} SortedUnique<T(!new)>(le: (T, T) -> bool, s: seq<T>, t: seq<T>)
    requires forall a, b :: le(a, b) && le(b, a) ==> a == b
    requires SortedBy(le, s) && SortedBy(le, t) && multiset(s) == multiset(t)
    ensures s == t
  {
    SameLength(s, t);
    if s != [] {
      assert s[0] == t[0] by {
        assert s[0] in multiset(t) && t[0] in multiset(s);
      }
      RemoveFirst(s);
      RemoveFirst(t);
      SortedUnique(le, s[1..], t[1..]);
    }
  }

  // ---------- string order ----------

  /** The default order of `sort` on strings: by code units. */
  function CompareCodeUnits(a: string, b: string): int {
    if a == b then 0
    else if a == "" then -1
    else if b == "" then 1
    else if a[0] < b[0] then -1
    else if b[0] < a[0] then 1
    else CompareCodeUnits(a[1..], b[1..])
  }

  lemma {:induction false} CodeUnitsAntisymmetric(a: string, b: string)
    ensures CompareCodeUnits(a, b) == 0 <==> a == b
    ensures CompareCodeUnits(a, b) < 0 <==> CompareCodeUnits(b, a) > 0
  {
    if a != "" && b != "" && a[0] == b[0] {
      CodeUnitsAntisymmetric(a[1..], b[1..]);
      assert a == [a[0]] + a[1..] && b == [b[0]] + b[1..];
    }
  }

  lemma {:induction false} CodeUnitsTransitive(a: string, b: string, c: string)
    requires CompareCodeUnits(a, b) <= 0 && CompareCodeUnits(b, c) <= 0
    ensures CompareCodeUnits(a, c) <= 0
  {
    if a != b && b != c && a != c && a != "" && b != "" && c != "" && a[0] == b[0] == c[0] {
      CodeUnitsTransitive(a[1..], b[1..], c[1..]);
    }
  }

  /** The texts are alike up to k, where the first one ends or has the smaller code unit. */
  predicate SmallerAt(a: string, b: string, k: nat) {
    && k <= |a| && k < |b| && a[..k] == b[..k]
    && (k == |a| || a[k] < b[k])
  }

  /** The comparison is by the first difference. */
  lemma {:induction false} FirstDifferenceDecides(a: string, b: string)
    ensures CompareCodeUnits(a, b) < 0 <==> exists k: nat :: SmallerAt(a, b, k)
  {
    if a == "" {
      assert b != "" ==> SmallerAt(a, b, 0);
    } else if b != "" {
      FirstDifferenceDecides(a[1..], b[1..]);
      if a[0] == b[0] {
        SmallerInRest(a, b);
      } else {
        assert a[0] < b[0] ==> SmallerAt(a, b, 0);
        forall k: nat | SmallerAt(a, b, k)
          ensures a[0] < b[0]
        {
          assert k > 0 ==> a[..k][0] == b[..k][0];
        }
      }
    }
  }

  lemma SmallerInRest(a: string, b: string)
    requires a != "" && b != "" && a[0] == b[0]
    ensures (exists k: nat :: SmallerAt(a, b, k)) <==> exists k: nat :: SmallerAt(a[1..], b[1..], k)
  {
    forall k: nat | SmallerAt(a, b, k)
      ensures k > 0 && SmallerAt(a[1..], b[1..], k - 1)
    {
      assert a[1..][..k - 1] == a[..k][1..] && b[1..][..k - 1] == b[..k][1..];
    }
    forall k: nat | SmallerAt(a[1..], b[1..], k)
      ensures SmallerAt(a, b, k + 1)
    {
      assert a[..k + 1] == [a[0]] + a[1..][..k] && b[..k + 1] == [b[0]] + b[1..][..k];
    }
  }

  lemma CodeUnitsIsComparator()
    ensures IsComparator(CompareCodeUnits)
  {
    forall a, b
      ensures CompareCodeUnits(a, b) < 0 <==> CompareCodeUnits(b, a) > 0
    {
      CodeUnitsAntisymmetric(a, b);
    }
    forall a, b, c | CompareCodeUnits(a, b) <= 0 && CompareCodeUnits(b, c) <= 0
      ensures CompareCodeUnits(a, c) <= 0
    {
      CodeUnitsTransitive(a, b, c);
    }
  }
}
