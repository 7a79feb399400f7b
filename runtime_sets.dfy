/**
 * The set comparisons of the runtime library (`Common.js`): lists are compared
 * as sets after their duplicates are removed.  `_isSubset`, `_isProperSubset`
 * and `_setEq` are modelled twice: as written (the membership loop runs over
 * the de-duplicated length but reads the original list) and corrected (the loop
 * reads the de-duplicated list); the rest of the model uses the corrected ones.
 */
module RuntimeSets {
  import opened JsArrays
  import opened SequencedSets
  import RuntimeArrays

  /** The list with every repeated element dropped after its first occurrence. */
  function Dedup<T(==)>(s: seq<T>): (r: seq<T>)
    ensures |r| <= |s|
    ensures forall i :: 0 <= i < |s| ==> s[i] in r
    ensures forall i :: 0 <= i < |r| ==> r[i] in s
    ensures Distinct(r)
  {
    if |s| == 0 then []
    else
      var d := Dedup(s[..|s| - 1]);
      var last := s[|s| - 1];
      if last in d then d else d + [last]
  }

  /** The position of the first occurrence of `x` in `s`. */
  function FirstIndex<T(==)>(s: seq<T>, x: T): (r: nat)
    requires x in s
    ensures r < |s| && s[r] == x
    ensures forall i :: 0 <= i < r ==> s[i] != x
  {
    if x in s[..|s| - 1] then FirstIndex(s[..|s| - 1], x) else |s| - 1
  }

  /** `Dedup` keeps the first occurrences in the order in which they appear. */
  lemma {:induction false} DedupKeepsFirstOccurrenceOrder<T>(s: seq<T>)
    ensures forall i, j :: 0 <= i < j < |Dedup(s)| ==> FirstIndex(s, Dedup(s)[i]) < FirstIndex(s, Dedup(s)[j])
  {
    if |s| > 0 {
      var p := s[..|s| - 1];
      DedupKeepsFirstOccurrenceOrder(p);
      var d := Dedup(p);
      forall y | y in p
        ensures FirstIndex(s, y) == FirstIndex(p, y)
      {
      }
      forall i, j | 0 <= i < j < |Dedup(s)|
        ensures FirstIndex(s, Dedup(s)[i]) < FirstIndex(s, Dedup(s)[j])
      {
        if j == |d| {
          assert Dedup(s)[j] == s[|s| - 1] && s[|s| - 1] !in p;
        }
      }
    }
  }

  /** A list without repetitions has as many distinct elements as entries. */
  lemma {:induction false} DistinctCard<T>(s: seq<T>)
    requires Distinct(s)
    ensures |Elems(s)| == |s|
  {
    if |s| > 0 {
      var p := s[..|s| - 1];
      DistinctCard(p);
      assert Elems(s) == Elems(p) + {s[|s| - 1]};
    }
  }

  /** A subset is no larger, and a subset of the same size is the whole set. */
  lemma SubsetCard<T>(a: set<T>, b: set<T>)
    requires a <= b
    ensures |a| <= |b|
    ensures |a| == |b| ==> a == b
  {
    assert b == a + (b - a);
  }

  /** `_delDuplicates`: a new list holding the first occurrence of every element. */
  method DelDuplicates<T(==)>(ary: JsArray<T>) returns (result: JsArray<T>)
    ensures result.elems == Dedup(ary.elems)
  {
    result := new JsArray([]);
    for i := 0 to |ary.elems|
      invariant result.elems == Dedup(ary.elems[..i])
    {
      assert ary.elems[..i + 1][..i] == ary.elems[..i];
      var known := RuntimeArrays.AryIncludes(result, ary.elems[i]);
      if !known {
        result.Append(ary.elems[i]);
      }
    }
    assert ary.elems[..|ary.elems|] == ary.elems;
  }

  /** The membership loop of the set comparisons: the first `n` elements of `xs` all occur in `setB`. */
  method AllIncluded<T(==)>(xs: JsArray<T>, n: nat, setB: JsArray<T>) returns (r: bool)
    requires n <= |xs.elems|
    ensures r <==> forall i :: 0 <= i < n ==> xs.elems[i] in setB.elems
  {
    for i := 0 to n
      invariant forall k :: 0 <= k < i ==> xs.elems[k] in setB.elems
    {
      var included := RuntimeArrays.AryIncludes(setB, xs.elems[i]);
      if !included {
        return false;
      }
    }
    return true;
  }

  // ---------------------------------------------------------------------
  // As written: the loop bound is the de-duplicated length, the element read is from the original list

  /** The membership test as written: the first `|Dedup(sa)|` entries of `sa` (not of `Dedup(sa)`) are in `sb`. */
  predicate LeadingEntriesIncluded<T(==)>(sa: seq<T>, sb: seq<T>) {
    forall i :: 0 <= i < |Dedup(sa)| ==> sa[i] in sb
  }

  /** `_isSubset` as written. */
  method IsSubsetAsWritten<T(==)>(a: JsArray<T>, b: JsArray<T>) returns (r: bool)
    ensures r <==> a == b || (|Dedup(a.elems)| <= |Dedup(b.elems)| && LeadingEntriesIncluded(a.elems, b.elems))
  {
    if a == b {
      return true;
    }
    var setA := DelDuplicates(a);
    var setB := DelDuplicates(b);
    if |setA.elems| > |setB.elems| {
      return false;
    }
    r := AllIncluded(a, |setA.elems|, setB);
  }

  /** `_isProperSubset` as written. */
  method IsProperSubsetAsWritten<T(==)>(a: JsArray<T>, b: JsArray<T>) returns (r: bool)
    ensures r <==> a != b && |Dedup(a.elems)| < |Dedup(b.elems)| && LeadingEntriesIncluded(a.elems, b.elems)
  {
    if a == b {
      return false;
    }
    var setA := DelDuplicates(a);
    var setB := DelDuplicates(b);
    if |setA.elems| >= |setB.elems| {
      return false;
    }
    r := AllIncluded(a, |setA.elems|, setB);
  }

  /** `_setEq` as written. */
  method SetEqAsWritten<T(==)>(a: JsArray<T>, b: JsArray<T>) returns (r: bool)
    ensures r <==> a == b || (|Dedup(a.elems)| == |Dedup(b.elems)| && LeadingEntriesIncluded(a.elems, b.elems))
  {
    if a == b {
      return true;
    }
    var setA := DelDuplicates(a);
    var setB := DelDuplicates(b);
    if |setA.elems| != |setB.elems| {
      return false;
    }
    r := AllIncluded(a, |setA.elems|, setB);
  }

  lemma DedupOf113()
    ensures Dedup([1, 1, 3]) == [1, 3]
  {
    assert [1, 1, 3][..2] == [1, 1];
    assert [1, 1][..1] == [1];
    assert [1][..0] == [];
    assert Dedup([1]) == [1];
    assert Dedup([1, 1]) == [1];
  }

  lemma DedupOf124()
    ensures Dedup([1, 2]) == [1, 2]
    ensures Dedup([1, 2, 4]) == [1, 2, 4]
  {
    assert [1, 2, 4][..2] == [1, 2];
    assert [1, 2][..1] == [1];
    assert [1][..0] == [];
    assert Dedup([1]) == [1];
    assert Dedup([1, 2]) == [1, 2];
  }

  /**
   * The lists [1, 1, 3] and [1, 2] (and [1, 2, 4]) pass the comparisons as
   * written although 3 is in the first list and not in the second: only the
   * two leading entries (1 and 1) of the first list are looked up.
   */
  lemma SetComparisonsAsWrittenCounterexample()
    ensures var a, b, c := [1, 1, 3], [1, 2], [1, 2, 4];
      |Dedup(a)| <= |Dedup(b)| && |Dedup(a)| == |Dedup(b)| && LeadingEntriesIncluded(a, b)
      && |Dedup(a)| < |Dedup(c)| && LeadingEntriesIncluded(a, c)
      && 3 in a && 3 !in b && 3 !in c
  {
    DedupOf113();
    DedupOf124();
  }

  // ---------------------------------------------------------------------
  // Corrected: the loop reads the de-duplicated list

  /** The de-duplicated form of a list is contained in another list exactly when its elements are. */
  lemma DedupIncluded<T>(sa: seq<T>, sb: seq<T>)
    ensures Elems(sa) <= Elems(sb) ==> forall i :: 0 <= i < |Dedup(sa)| ==> Dedup(sa)[i] in Dedup(sb)
    ensures (forall i :: 0 <= i < |Dedup(sa)| ==> Dedup(sa)[i] in Dedup(sb)) ==> Elems(sa) <= Elems(sb)
  {
    var da := Dedup(sa);
    if Elems(sa) <= Elems(sb) {
      forall i | 0 <= i < |da|
        ensures da[i] in Dedup(sb)
      {
        assert da[i] in Elems(sa);
      }
    } else {
      var x :| x in Elems(sa) && x !in Elems(sb);
      var k :| 0 <= k < |sa| && sa[k] == x;
      assert x in da;
      var i :| 0 <= i < |da| && da[i] == x;
      assert x !in Dedup(sb);
    }
  }

  /** The size of the de-duplicated list is the number of distinct elements. */
  lemma DedupCard<T>(s: seq<T>)
    ensures |Dedup(s)| == |Elems(s)|
  {
    DistinctCard(Dedup(s));
    assert Elems(Dedup(s)) == Elems(s);
  }

  /** `_isSubset` with the loop reading the de-duplicated list: set inclusion. */
  method IsSubset<T(==)>(a: JsArray<T>, b: JsArray<T>) returns (r: bool)
    ensures r <==> Elems(a.elems) <= Elems(b.elems)
  {
    if a == b {
      return true;
    }
    var setA := DelDuplicates(a);
    var setB := DelDuplicates(b);
    DedupCard(a.elems);
    DedupCard(b.elems);
    if |setA.elems| > |setB.elems| {
      if Elems(a.elems) <= Elems(b.elems) {
        SubsetCard(Elems(a.elems), Elems(b.elems));
      }
      return false;
    }
    r := AllIncluded(setA, |setA.elems|, setB);
    DedupIncluded(a.elems, b.elems);
  }

  /** `_isProperSubset` corrected: strict set inclusion. */
  method IsProperSubset<T(==)>(a: JsArray<T>, b: JsArray<T>) returns (r: bool)
    ensures r <==> Elems(a.elems) < Elems(b.elems)
  {
    if a == b {
      return false;
    }
    var setA := DelDuplicates(a);
    var setB := DelDuplicates(b);
    DedupCard(a.elems);
    DedupCard(b.elems);
    if |setA.elems| >= |setB.elems| {
      if Elems(a.elems) <= Elems(b.elems) {
        SubsetCard(Elems(a.elems), Elems(b.elems));
      }
      assert !(Elems(a.elems) < Elems(b.elems));
      return false;
    }
    r := AllIncluded(setA, |setA.elems|, setB);
    DedupIncluded(a.elems, b.elems);
    assert |Elems(a.elems)| < |Elems(b.elems)|;
    assert Elems(a.elems) != Elems(b.elems);
  }

  /** `_setEq` corrected: the two lists hold the same elements. */
  method SetEq<T(==)>(a: JsArray<T>, b: JsArray<T>) returns (r: bool)
    ensures r <==> Elems(a.elems) == Elems(b.elems)
  {
    if a == b {
      return true;
    }
    var setA := DelDuplicates(a);
    var setB := DelDuplicates(b);
    DedupCard(a.elems);
    DedupCard(b.elems);
    if |setA.elems| != |setB.elems| {
      return false;
    }
    r := AllIncluded(setA, |setA.elems|, setB);
    DedupIncluded(a.elems, b.elems);
    if r {
      SubsetCard(Elems(a.elems), Elems(b.elems));
    }
  }

  /** `_isSuperset`. */
  method IsSuperset<T(==)>(a: JsArray<T>, b: JsArray<T>) returns (r: bool)
    ensures r <==> Elems(b.elems) <= Elems(a.elems)
  {
    r := IsSubset(b, a);
  }

  /** `_isProperSuperset`. */
  method IsProperSuperset<T(==)>(a: JsArray<T>, b: JsArray<T>) returns (r: bool)
    ensures r <==> Elems(b.elems) < Elems(a.elems)
  {
    r := IsProperSubset(b, a);
  }

  /** `_setNeq`. */
  method SetNeq<T(==)>(a: JsArray<T>, b: JsArray<T>) returns (r: bool)
    ensures r <==> Elems(a.elems) != Elems(b.elems)
  {
    var eq := SetEq(a, b);
    r := !eq;
  }
}
