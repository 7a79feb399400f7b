/**
 * Insertion-ordered sets, the `LinkedHashSet` / `SequencedSet` collections the
 * editor keeps its node lists in (a workspace's root, node and selection lists,
 * the copy and cut candidate lists).  A set is a sequence without repetitions;
 * `add` appends an absent element and `remove` drops an element where it stands.
 */
module SequencedSets {

  /** The elements of a list, as a set. */
  function Elems<T>(s: seq<T>): set<T> {
    set x | x in s
  }

  predicate Distinct<T(==)>(s: seq<T>) {
    forall i, j :: 0 <= i < j < |s| ==> s[i] != s[j]
  }

  /** `Collection.add` on a sequenced set: `x` goes to the end unless it is already there. */
  function Add<T(==,!new)>(s: seq<T>, x: T): (r: seq<T>)
    ensures Elems(r) == Elems(s) + {x}
    ensures forall y :: y in r <==> y in s || y == x
    ensures Distinct(s) ==> Distinct(r)
    ensures |s| <= |r| <= |s| + 1 && r[..|s|] == s
  {
    if x in s then s else s + [x]
  }

  /** `Collection.remove` on a sequenced set: `x` is taken out, the rest keeps its order. */
  function Remove<T(==,!new)>(s: seq<T>, x: T): (r: seq<T>)
    ensures Elems(r) == Elems(s) - {x}
    ensures forall y :: y in r <==> y in s && y != x
    ensures Distinct(s) ==> Distinct(r)
    ensures |r| <= |s|
    ensures x !in s ==> r == s
  {
    if s == [] then []
    else
      var rest := Remove(s[1..], x);
      ElemsConcat([s[0]], s[1..]);
      assert [s[0]] + s[1..] == s;
      if s[0] == x then rest
      else
        ElemsConcat([s[0]], rest);
        DistinctConcat([s[0]], rest);
        [s[0]] + rest
  }

  lemma ElemsConcat<T>(a: seq<T>, b: seq<T>)
    ensures Elems(a + b) == Elems(a) + Elems(b)
  {
    assert forall y | y in a + b :: y in a || y in b;
  }

  /** Two duplicate-free lists with no common element concatenate to a duplicate-free list. */
  lemma DistinctConcat<T>(a: seq<T>, b: seq<T>)
    ensures Distinct(a) && Distinct(b) && Elems(a) !! Elems(b) <==> Distinct(a + b)
  {
    if Distinct(a) && Distinct(b) && Elems(a) !! Elems(b) {
      forall i, j | 0 <= i < j < |a + b|
        ensures (a + b)[i] != (a + b)[j]
      {
        if j < |a| {
        } else if i < |a| {
          assert (a + b)[i] in Elems(a) && (a + b)[j] in Elems(b);
        } else {
          assert (a + b)[i] == b[i - |a|] && (a + b)[j] == b[j - |a|];
        }
      }
    }
    if Distinct(a + b) {
      forall i, j | 0 <= i < j < |b| ensures b[i] != b[j] {
        assert (a + b)[|a| + i] == b[i] && (a + b)[|a| + j] == b[j];
      }
      forall y | y in Elems(a) ensures y !in Elems(b) {
        var i :| 0 <= i < |a| && a[i] == y;
        forall j | 0 <= j < |b| ensures b[j] != y {
          assert (a + b)[i] != (a + b)[|a| + j];
        }
      }
      forall i, j | 0 <= i < j < |a| ensures a[i] != a[j] {
        assert (a + b)[i] == a[i] && (a + b)[j] == a[j];
      }
    }
  }

  /** `Collection.addAll`: each element of `xs` is added in turn. */
  function AddAll<T(==,!new)>(s: seq<T>, xs: seq<T>): (r: seq<T>)
    ensures Elems(r) == Elems(s) + Elems(xs)
    ensures Distinct(s) ==> Distinct(r)
    ensures |s| <= |r| && r[..|s|] == s
    decreases |xs|
  {
    if xs == [] then s
    else
      var s1 := Add(s, xs[0]);
      var r := AddAll(s1, xs[1..]);
      AddAllStep(s, xs, s1, r);
      r
  }

  /** The facts about one `add` followed by the rest of the batch give the facts about the batch. */
  lemma AddAllStep<T(!new)>(s: seq<T>, xs: seq<T>, s1: seq<T>, r: seq<T>)
    requires xs != [] && s1 == Add(s, xs[0])
    requires Elems(r) == Elems(s1) + Elems(xs[1..])
    requires Distinct(s1) ==> Distinct(r)
    requires |s1| <= |r| && r[..|s1|] == s1
    ensures Elems(r) == Elems(s) + Elems(xs)
    ensures Distinct(s) ==> Distinct(r)
    ensures |s| <= |r| && r[..|s|] == s
  {
    ElemsConcat([xs[0]], xs[1..]);
    assert [xs[0]] + xs[1..] == xs;
    assert r[..|s|] == r[..|s1|][..|s|];
  }

  /** What `addAll` appends comes from the added elements. */
  lemma {:induction false} AddAllAppends<T(!new)>(s: seq<T>, xs: seq<T>)
    ensures Elems(AddAll(s, xs)[|s|..]) <= Elems(xs)
  {
    AddAllAppendsAt(s, xs);
    var r := AddAll(s, xs);
    forall y | y in Elems(r[|s|..]) ensures y in Elems(xs) {
      var k :| 0 <= k < |r[|s|..]| && r[|s|..][k] == y;
      assert r[|s| + k] == y;
    }
  }

  lemma {:induction false} AddAllAppendsAt<T(!new)>(s: seq<T>, xs: seq<T>)
    ensures forall k | |s| <= k < |AddAll(s, xs)| :: AddAll(s, xs)[k] in xs
    decreases |xs|
  {
    if xs != [] {
      var s1 := Add(s, xs[0]);
      var r := AddAll(s1, xs[1..]);
      assert AddAll(s, xs) == r;
      AddAllAppendsAt(s1, xs[1..]);
      forall k | |s| <= k < |r| ensures r[k] in xs {
        if k < |s1| {
          assert r[k] == r[..|s1|][k] == s1[k] == xs[0];
        } else {
          assert r[k] in xs[1..];
        }
      }
    }
  }

  /** Each element of `xs` is removed in turn, as the undo log does with the elements of an addition. */
  function RemoveAll<T(==,!new)>(s: seq<T>, xs: seq<T>): (r: seq<T>)
    ensures Elems(r) == Elems(s) - Elems(xs)
    ensures forall y :: y in r <==> y in s && y !in xs
    ensures Distinct(s) ==> Distinct(r)
    decreases |xs|
  {
    if xs == [] then s
    else
      assert Elems(xs) == {xs[0]} + Elems(xs[1..]);
      RemoveAll(Remove(s, xs[0]), xs[1..])
  }

  /** A list with no element is the empty list. */
  lemma NoElemsEmpty<T>(s: seq<T>)
    ensures s == [] <==> Elems(s) == {}
  {
    if s != [] {
      assert s[0] in Elems(s);
    }
  }

  /** Removing distributes over concatenation. */
  lemma {:induction false} RemoveConcat<T(!new)>(a: seq<T>, b: seq<T>, x: T)
    ensures Remove(a + b, x) == Remove(a, x) + Remove(b, x)
  {
    if a == [] {
      assert a + b == b;
    } else {
      assert (a + b)[0] == a[0];
      assert (a + b)[1..] == a[1..] + b;
      RemoveConcat(a[1..], b, x);
    }
  }

  /** Removing a list of elements distributes over concatenation. */
  lemma {:induction false} RemoveAllConcat<T(!new)>(a: seq<T>, b: seq<T>, xs: seq<T>)
    ensures RemoveAll(a + b, xs) == RemoveAll(a, xs) + RemoveAll(b, xs)
    decreases |xs|
  {
    if xs != [] {
      RemoveConcat(a, b, xs[0]);
      RemoveAllConcat(Remove(a, xs[0]), Remove(b, xs[0]), xs[1..]);
    }
  }

  /** Removing elements that are not there leaves the list as it is. */
  lemma {:induction false} RemoveAllAbsent<T(!new)>(s: seq<T>, xs: seq<T>)
    requires Elems(s) !! Elems(xs)
    ensures RemoveAll(s, xs) == s
    decreases |xs|
  {
    if xs != [] {
      assert xs[0] in Elems(xs);
      assert Elems(xs[1..]) <= Elems(xs);
      RemoveAllAbsent(s, xs[1..]);
    }
  }

  /**
   * Adding elements that were absent and then removing them again gives back
   * the very same list, order included.
   */
  lemma RemoveAllUndoesAddAll<T(!new)>(s: seq<T>, xs: seq<T>)
    requires Elems(s) !! Elems(xs)
    ensures RemoveAll(AddAll(s, xs), xs) == s
  {
    var r := AddAll(s, xs);
    var t := r[|s|..];
    assert r == s + t;
    AddAllAppends(s, xs);
    RemoveAllConcat(s, t, xs);
    RemoveAllAbsent(s, xs);
    NoElemsEmpty(RemoveAll(t, xs));
  }

  /**
   * Removing elements that were present and adding them back gives back the same
   * elements; the re-added ones move to the end.
   */
  lemma AddAllRestoresRemoved<T(!new)>(s: seq<T>, xs: seq<T>)
    requires Elems(xs) <= Elems(s)
    ensures Elems(AddAll(RemoveAll(s, xs), xs)) == Elems(s)
    ensures Distinct(s) ==> Distinct(AddAll(RemoveAll(s, xs), xs))
  {
  }

  /** Adding one more element after a batch is the batch followed by that element. */
  lemma {:induction false} AddAllSnoc<T(!new)>(s: seq<T>, xs: seq<T>, x: T)
    ensures AddAll(s, xs + [x]) == Add(AddAll(s, xs), x)
    decreases |xs|
  {
    if xs == [] {
      assert xs + [x] == [x];
    } else {
      assert (xs + [x])[0] == xs[0] && (xs + [x])[1..] == xs[1..] + [x];
      AddAllSnoc(Add(s, xs[0]), xs[1..], x);
    }
  }

  /** Removing one more element after a batch is the batch followed by that removal. */
  lemma {:induction false} RemoveAllSnoc<T(!new)>(s: seq<T>, xs: seq<T>, x: T)
    ensures RemoveAll(s, xs + [x]) == Remove(RemoveAll(s, xs), x)
    decreases |xs|
  {
    if xs == [] {
      assert xs + [x] == [x];
    } else {
      assert (xs + [x])[0] == xs[0] && (xs + [x])[1..] == xs[1..] + [x];
      RemoveAllSnoc(Remove(s, xs[0]), xs[1..], x);
    }
  }

  /** Removing two batches in turn is removing their concatenation. */
  lemma {:induction false} RemoveAllThen<T(!new)>(s: seq<T>, xs: seq<T>, ys: seq<T>)
    ensures RemoveAll(s, xs + ys) == RemoveAll(RemoveAll(s, xs), ys)
    decreases |xs|
  {
    if xs == [] {
      assert xs + ys == ys;
    } else {
      assert (xs + ys)[0] == xs[0] && (xs + ys)[1..] == xs[1..] + ys;
      RemoveAllThen(Remove(s, xs[0]), xs[1..], ys);
    }
  }
}
