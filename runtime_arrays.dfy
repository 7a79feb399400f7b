/**
 * The list operations of the BunnyHop runtime library (`Common.js`).  A list
 * is a JavaScript array updated in place; every operation validates its index
 * and element count first and throws a program exception without touching the
 * array when a check fails.  Numbers are integers here, so `Math.trunc` is the
 * identity.
 */
module RuntimeArrays {
  import opened Wrappers
  import opened JsArrays

  /** `_maxArraySize`: the largest length a list may reach. */
  const MaxArraySize: int := 0xFFFF_FFFF

  /** The program exceptions the list operations throw (message texts are not modelled). */
  datatype ArrayError =
    | ListIsEmpty
    | InvalidListIdx(index: int, min: int, max: int)
    | InvalidArraySize(len: int, increment: int, max: int)
    | InvalidNumElems(num: int, min: int, max: int)

  type Checked<T> = Result<T, ArrayError>

  predicate InRange(num: int, min: int, max: int) {
    min <= num && num <= max
  }

  /**
   * `_checkAryIdx`: validates a list index that may count back from the end.
   * `margin` is 1 for operations that may address the position just past the
   * last element (insertion) and 0 otherwise.
   */
  function CheckAryIdx(index: int, len: nat, margin: int): (r: Checked<nat>)
    ensures r.Ok? <==> -(len + margin) <= index <= len - 1 + margin
    ensures r.Ok? ==> r.value <= len - 1 + margin
    ensures r.Ok? && index >= 0 ==> r.value == index
    ensures r.Ok? && index < 0 ==> r.value == len + margin + index
    ensures r.Err? && len == 0 ==> r.error == ListIsEmpty
    ensures r.Err? && len != 0 ==> r.error == InvalidListIdx(index, -(len + margin), len - 1 + margin)
  {
    var max := len - 1 + margin;
    var min := -(len + margin);
    if !InRange(index, min, max) then
      if len == 0 then Err(ListIsEmpty) else Err(InvalidListIdx(index, min, max))
    else
      Ok(if index < 0 then index - min else index)
  }

  /** Every valid position is reachable both by its own index and by the negative index counting from the end. */
  lemma CheckAryIdxBothSpellings(len: nat, margin: int, pos: nat)
    requires pos <= len - 1 + margin
    ensures CheckAryIdx(pos, len, margin) == Ok(pos)
    ensures CheckAryIdx(pos - (len + margin), len, margin) == Ok(pos)
  {
  }

  /** `_checkArySize`: a list of length `len` may grow by `increment`. */
  function CheckArySize(len: int, increment: int): (r: Checked<()>)
    ensures r.Ok? <==> 0 <= len + increment <= MaxArraySize
    ensures r.Err? ==> r.error == InvalidArraySize(len, increment, MaxArraySize)
  {
    if !InRange(len + increment, 0, MaxArraySize) then
      Err(InvalidArraySize(len, increment, MaxArraySize))
    else
      Ok(())
  }

  /** `_checkNumAryElems`: an element count must lie in [0, MaxArraySize]. */
  function CheckNumAryElems(num: int): (r: Checked<nat>)
    ensures r.Ok? <==> 0 <= num <= MaxArraySize
    ensures r.Ok? ==> r.value == num
    ensures r.Err? ==> r.error == InvalidNumElems(num, 0, MaxArraySize)
  {
    if !InRange(num, 0, MaxArraySize) then Err(InvalidNumElems(num, 0, MaxArraySize)) else Ok(num)
  }

  /** `n` copies of `v`. */
  function Repeat<T>(v: T, n: nat): (r: seq<T>)
    ensures |r| == n
    ensures forall i :: 0 <= i < n ==> r[i] == v
  {
    if n == 0 then [] else Repeat(v, n - 1) + [v]
  }

  function Min(a: int, b: int): int {
    if a < b then a else b
  }

  // ---------------------------------------------------------------------
  // Argument validation of each operation, in the order the source performs it

  /** The checks of `_aryPush`: the count, then the resulting size. */
  function PushArgs(len: nat, num: int): (r: Checked<nat>)
    ensures r.Ok? <==> 0 <= num && len + num <= MaxArraySize
    ensures r.Ok? ==> r.value == num
    ensures num < 0 || num > MaxArraySize ==> r == Err(InvalidNumElems(num, 0, MaxArraySize))
  {
    match CheckNumAryElems(num)
    case Err(e) => Err(e)
    case Ok(n) =>
      match CheckArySize(len, n)
      case Err(e) => Err(e)
      case Ok(_) => Ok(n)
  }

  /** The checks of `_aryInsert`: the index (one past the end allowed), the count, then the resulting size. */
  function InsertArgs(len: nat, index: int, num: int): (r: Checked<(nat, nat)>)
    ensures r.Ok? <==> CheckAryIdx(index, len, 1).Ok? && 0 <= num && len + num <= MaxArraySize
    ensures r.Ok? ==> r.value.0 <= len && r.value.1 == num
    ensures CheckAryIdx(index, len, 1).Err? ==> r == Err(CheckAryIdx(index, len, 1).error)
  {
    match CheckAryIdx(index, len, 1)
    case Err(e) => Err(e)
    case Ok(idx) =>
      match PushArgs(len, num)
      case Err(e) => Err(e)
      case Ok(n) => Ok((idx, n))
  }

  /** The checks of `_aryRemove` and `_aryExtract` on a non-empty list: the index, then the count. */
  function IdxAndCount(len: nat, index: int, num: int): (r: Checked<(nat, nat)>)
    ensures r.Ok? <==> CheckAryIdx(index, len, 0).Ok? && 0 <= num <= MaxArraySize
    ensures r.Ok? ==> r.value.0 < len && r.value.1 == num
    ensures CheckAryIdx(index, len, 0).Err? ==> r == Err(CheckAryIdx(index, len, 0).error)
  {
    match CheckAryIdx(index, len, 0)
    case Err(e) => Err(e)
    case Ok(idx) =>
      match CheckNumAryElems(num)
      case Err(e) => Err(e)
      case Ok(n) => Ok((idx, n))
  }

  // ---------------------------------------------------------------------
  // What each operation leaves in the list

  /** `num` copies of `v` placed in front of position `idx`. */
  function Inserted<T>(s: seq<T>, idx: nat, v: T, num: nat): seq<T>
    requires idx <= |s|
  {
    s[..idx] + Repeat(v, num) + s[idx..]
  }

  /** The list without the (at most `num`) elements starting at `idx`. */
  function Removed<T>(s: seq<T>, idx: nat, num: nat): seq<T>
    requires idx <= |s|
  {
    s[..idx] + s[idx + Min(num, |s| - idx)..]
  }

  /** The (at most `num`) elements starting at `idx`, in order. */
  function Extracted<T>(s: seq<T>, idx: nat, num: nat): seq<T>
    requires idx <= |s|
  {
    s[idx..idx + Min(num, |s| - idx)]
  }

  /** Inserting then removing the same run at the same position restores the list. */
  lemma RemoveUndoesInsert<T>(s: seq<T>, idx: nat, v: T, num: nat)
    requires idx <= |s|
    ensures Removed(Inserted(s, idx, v, num), idx, num) == s
    ensures Extracted(Inserted(s, idx, v, num), idx, num) == Repeat(v, num)
  {
    var t := Inserted(s, idx, v, num);
    assert t[..idx] == s[..idx];
    assert t[idx + num..] == s[idx..];
    assert t[idx..idx + num] == Repeat(v, num);
    assert s[..idx] + s[idx..] == s;
  }

  /** What `_aryExtract` keeps is exactly what `_aryRemove` deletes, and the rest is what remove keeps. */
  lemma RemoveAndExtractSplit<T>(s: seq<T>, idx: nat, num: nat)
    requires idx <= |s|
    ensures s == s[..idx] + Extracted(s, idx, num) + Removed(s, idx, num)[idx..]
    ensures |Removed(s, idx, num)| + |Extracted(s, idx, num)| == |s|
  {
    var stop := idx + Min(num, |s| - idx);
    assert Removed(s, idx, num)[idx..] == s[stop..];
    assert s[..idx] + s[idx..stop] + s[stop..] == s;
  }

  // ---------------------------------------------------------------------
  // The operations

  /** The loop `for (i = 0; i < n; ++i) ary[ary.length] = v`. */
  method AppendCopies<T>(ary: JsArray<T>, v: T, n: nat)
    modifies ary
    ensures ary.elems == old(ary.elems) + Repeat(v, n)
  {
    var i := 0;
    while i < n
      invariant 0 <= i <= n
      invariant ary.elems == old(ary.elems) + Repeat(v, i)
    {
      ary.Append(v);
      i := i + 1;
    }
  }

  /** `_aryPush`: appends `num` copies of `v`. */
  method AryPush<T>(ary: JsArray<T>, v: T, num: int) returns (r: Checked<()>)
    modifies ary
    ensures PushArgs(|old(ary.elems)|, num).Err? ==>
      r == Err(PushArgs(|old(ary.elems)|, num).error) && ary.elems == old(ary.elems)
    ensures PushArgs(|old(ary.elems)|, num).Ok? ==>
      r.Ok? && ary.elems == old(ary.elems) + Repeat(v, num)
  {
    var checked := PushArgs(|ary.elems|, num);
    if checked.Err? {
      return Err(checked.error);
    }
    AppendCopies(ary, v, checked.value);
    return Ok(());
  }

  /** The loop `for (i = lo; i < hi; ++i) ary[ary.length] = ary[i]`. */
  method AppendOwnRange<T>(ary: JsArray<T>, lo: nat, hi: nat)
    requires lo <= hi <= |ary.elems|
    modifies ary
    ensures ary.elems == old(ary.elems) + old(ary.elems)[lo..hi]
  {
    var i := lo;
    while i < hi
      invariant lo <= i <= hi
      invariant ary.elems == old(ary.elems) + old(ary.elems)[lo..i]
    {
      ary.Append(ary.elems[i]);
      i := i + 1;
    }
  }

  /** The loop `for (i = lo + count - 1; i >= lo; --i) ary[i + n] = ary[i]`: a back-to-front shift by `n`. */
  method ShiftBack<T>(ary: JsArray<T>, lo: nat, count: nat, n: nat)
    requires lo + count + n <= |ary.elems|
    modifies ary
    ensures |ary.elems| == |old(ary.elems)|
    ensures forall x {:trigger ary.elems[x]} :: 0 <= x < |ary.elems| ==>
      ary.elems[x] == if lo + n <= x < lo + count + n then old(ary.elems)[x - n] else old(ary.elems)[x]
  {
    var j := lo + count - 1;
    while j >= lo
      invariant lo - 1 <= j <= lo + count - 1
      invariant |ary.elems| == |old(ary.elems)|
      invariant forall x {:trigger ary.elems[x]} :: 0 <= x < |ary.elems| ==>
        ary.elems[x] == if j + 1 + n <= x < lo + count + n then old(ary.elems)[x - n] else old(ary.elems)[x]
    {
      ary.Put(j + n, ary.elems[j]);
      j := j - 1;
    }
  }

  /** The loop `for (i = lo; i < hi; ++i) ary[i] = v`. */
  method Fill<T>(ary: JsArray<T>, lo: nat, hi: nat, v: T)
    requires lo <= hi <= |ary.elems|
    modifies ary
    ensures |ary.elems| == |old(ary.elems)|
    ensures forall x {:trigger ary.elems[x]} :: 0 <= x < |ary.elems| ==> ary.elems[x] == if lo <= x < hi then v else old(ary.elems)[x]
  {
    for i := lo to hi
      invariant |ary.elems| == |old(ary.elems)|
      invariant forall x {:trigger ary.elems[x]} :: 0 <= x < |ary.elems| ==> ary.elems[x] == if lo <= x < i then v else old(ary.elems)[x]
    {
      ary.Put(i, v);
    }
  }

  /**
   * `_aryInsert`: inserts `num` copies of `v` before position `index` without
   * ever making the array sparse: first the copies that land past the old end
   * are appended, then the tail elements that spill past the old end, then the
   * remaining tail is shifted back-to-front, and finally the gap is filled.
   */
  method AryInsert<T>(ary: JsArray<T>, index: int, v: T, num: int) returns (r: Checked<()>)
    modifies ary
    ensures InsertArgs(|old(ary.elems)|, index, num).Err? ==>
      r == Err(InsertArgs(|old(ary.elems)|, index, num).error) && ary.elems == old(ary.elems)
    ensures InsertArgs(|old(ary.elems)|, index, num).Ok? ==>
      r.Ok? && ary.elems == Inserted(old(ary.elems), InsertArgs(|old(ary.elems)|, index, num).value.0, v, num)
  {
    var checked := InsertArgs(|ary.elems|, index, num);
    if checked.Err? {
      return Err(checked.error);
    }
    var idx, n := checked.value.0, checked.value.1;
    ghost var s0 := ary.elems;
    var len := |ary.elems|;
    var numToShift := len - idx;
    var numToPush := if n - numToShift > 0 then n - numToShift else 0;
    AppendCopies(ary, v, numToPush);
    var numToSpillOut := Min(numToShift, n);
    AppendOwnRange(ary, len - numToSpillOut, len);
    ghost var m := ary.elems;
    assert m == s0 + Repeat(v, numToPush) + s0[len - numToSpillOut..len];
    InsertTailLayout(s0, m, idx, v, n);
    var numToCopy := numToShift - numToSpillOut;
    ShiftBack(ary, idx, numToCopy, n);
    Fill(ary, idx, idx + n - numToPush, v);
    assert forall x :: 0 <= x < len + n ==> ary.elems[x] == Inserted(s0, idx, v, n)[x];
    return Ok(());
  }

  /** The array after the two appending phases of `_aryInsert`, position by position. */
  lemma InsertTailLayout<T>(s0: seq<T>, m: seq<T>, idx: nat, v: T, n: nat)
    requires idx <= |s0|
    requires var push := if n - (|s0| - idx) > 0 then n - (|s0| - idx) else 0;
             m == s0 + Repeat(v, push) + s0[|s0| - Min(|s0| - idx, n)..]
    ensures |m| == |s0| + n
    ensures forall x :: 0 <= x < |s0| ==> m[x] == s0[x]
    ensures forall x :: |s0| <= x < idx + n ==> m[x] == v
    ensures forall x :: |s0| <= x < |s0| + n && idx + n <= x ==> m[x] == s0[x - n]
  {
  }

  /** `_aryRemove`: deletes up to `num` elements from `index` on; an empty list is left alone without any check. */
  method AryRemove<T>(ary: JsArray<T>, index: int, num: int) returns (r: Checked<()>)
    modifies ary
    ensures |old(ary.elems)| == 0 ==> r.Ok? && ary.elems == old(ary.elems)
    ensures |old(ary.elems)| > 0 && IdxAndCount(|old(ary.elems)|, index, num).Err? ==>
      r == Err(IdxAndCount(|old(ary.elems)|, index, num).error) && ary.elems == old(ary.elems)
    ensures |old(ary.elems)| > 0 && IdxAndCount(|old(ary.elems)|, index, num).Ok? ==>
      r.Ok? && ary.elems == Removed(old(ary.elems), IdxAndCount(|old(ary.elems)|, index, num).value.0, num)
  {
    if |ary.elems| == 0 {
      return Ok(());
    }
    var checked := IdxAndCount(|ary.elems|, index, num);
    if checked.Err? {
      return Err(checked.error);
    }
    ary.Splice(checked.value.0, checked.value.1);
    return Ok(());
  }

  /** `_aryExtract`: keeps only the (at most `num`) elements from `index` on, moving them to the front. */
  method AryExtract<T>(ary: JsArray<T>, index: int, num: int) returns (r: Checked<()>)
    modifies ary
    ensures |old(ary.elems)| == 0 ==> r.Ok? && ary.elems == old(ary.elems)
    ensures |old(ary.elems)| > 0 && IdxAndCount(|old(ary.elems)|, index, num).Err? ==>
      r == Err(IdxAndCount(|old(ary.elems)|, index, num).error) && ary.elems == old(ary.elems)
    ensures |old(ary.elems)| > 0 && IdxAndCount(|old(ary.elems)|, index, num).Ok? ==>
      r.Ok? && ary.elems == Extracted(old(ary.elems), IdxAndCount(|old(ary.elems)|, index, num).value.0, num)
  {
    if |ary.elems| == 0 {
      return Ok(());
    }
    var checked := IdxAndCount(|ary.elems|, index, num);
    if checked.Err? {
      return Err(checked.error);
    }
    var idx, n := checked.value.0, checked.value.1;
    ghost var s0 := ary.elems;
    var len := Min(|ary.elems| - idx, n);
    for i := 0 to len
      invariant |ary.elems| == |s0|
      invariant forall x :: 0 <= x < i ==> ary.elems[x] == s0[idx + x]
      invariant forall x :: i <= x < |s0| ==> ary.elems[x] == s0[x]
    {
      ary.Put(i, ary.elems[i + idx]);
    }
    ary.Splice(len, |ary.elems|);
    assert forall x :: 0 <= x < len ==> ary.elems[x] == Extracted(s0, idx, n)[x];
    return Ok(());
  }

  /** `_aryClear`. */
  method AryClear<T>(ary: JsArray<T>)
    modifies ary
    ensures ary.elems == []
  {
    ary.Splice(0, |ary.elems|);
  }

  /** The checks of `_aryAddAll`: the insertion index (one past the end allowed), then the combined size. */
  function AddAllArgs(lenA: nat, index: int, lenB: nat): (r: Checked<nat>)
    ensures r.Ok? <==> CheckAryIdx(index, lenA, 1).Ok? && lenA + lenB <= MaxArraySize
    ensures r.Ok? ==> r.value <= lenA
  {
    match CheckAryIdx(index, lenA, 1)
    case Err(e) => Err(e)
    case Ok(idx) =>
      match CheckArySize(lenA, lenB)
      case Err(e) => Err(e)
      case Ok(_) => Ok(idx)
  }

  /** The list `_aryAddAll(a, idx, b)` is meant to produce: all of `b` inserted before position `idx` of `a`. */
  function AddedAll<T>(a: seq<T>, idx: nat, b: seq<T>): seq<T>
    requires idx <= |a|
  {
    a[..idx] + b + a[idx..]
  }

  /**
   * `_aryAddAll` as written: the tail of `a` is saved, `a` is truncated at
   * `idx`, then `b` and the tail are appended.  When `a` and `b` are the same
   * list the truncation also shortens `b`.
   */
  method AryAddAllAsWritten<T>(a: JsArray<T>, index: int, b: JsArray<T>) returns (r: Checked<()>)
    modifies a
    ensures AddAllArgs(|old(a.elems)|, index, |old(b.elems)|).Err? ==>
      r.Err? && a.elems == old(a.elems)
    ensures AddAllArgs(|old(a.elems)|, index, |old(b.elems)|).Ok? ==>
      var idx := AddAllArgs(|old(a.elems)|, index, |old(b.elems)|).value;
      r.Ok? && a.elems == old(a.elems)[..idx] + (if a == b then old(a.elems)[..idx] else old(b.elems)) + old(a.elems)[idx..]
  {
    var checked := AddAllArgs(|a.elems|, index, |b.elems|);
    if checked.Err? {
      return Err(checked.error);
    }
    var idx := checked.value;
    var tails := a.elems[idx..];
    a.Truncate(idx);
    a.AppendAll(b.elems);
    a.AppendAll(tails);
    return Ok(());
  }

  /** Adding a list into itself as written loses elements whenever the insertion point is not the end. */
  lemma SelfAddAllLosesElements<T>(s: seq<T>, idx: nat)
    requires idx < |s|
    ensures s[..idx] + s[..idx] + s[idx..] != AddedAll(s, idx, s)
  {
    assert |s[..idx] + s[..idx] + s[idx..]| < |AddedAll(s, idx, s)|;
  }

  /** The concrete case: adding `[1, 2]` into itself at index 1 gives `[1, 1, 2]`, not `[1, 1, 2, 2]`. */
  lemma SelfAddAllExample()
    ensures var s := [1, 2]; s[..1] + s[..1] + s[1..] == [1, 1, 2] && AddedAll(s, 1, s) == [1, 1, 2, 2]
  {
  }

  /** `_aryAddAll` with `b` copied (`slice()`) before `a` is truncated, so that aliasing no longer matters. */
  method AryAddAll<T>(a: JsArray<T>, index: int, b: JsArray<T>) returns (r: Checked<()>)
    modifies a
    ensures AddAllArgs(|old(a.elems)|, index, |old(b.elems)|).Err? ==>
      r == Err(AddAllArgs(|old(a.elems)|, index, |old(b.elems)|).error) && a.elems == old(a.elems)
    ensures AddAllArgs(|old(a.elems)|, index, |old(b.elems)|).Ok? ==>
      r.Ok? && a.elems == AddedAll(old(a.elems), AddAllArgs(|old(a.elems)|, index, |old(b.elems)|).value, old(b.elems))
  {
    var checked := AddAllArgs(|a.elems|, index, |b.elems|);
    if checked.Err? {
      return Err(checked.error);
    }
    var idx := checked.value;
    var added := b.elems;
    var tails := a.elems[idx..];
    a.Truncate(idx);
    a.AppendAll(added);
    a.AppendAll(tails);
    return Ok(());
  }

  /** `_aryGet`: a non-negative index reads from the front, a negative one counts back from the end. */
  function AryGet<T>(s: seq<T>, index: int): (r: Checked<T>)
    ensures 0 <= index < |s| ==> r == Ok(s[index])
    ensures -|s| <= index < 0 ==> r == Ok(s[|s| + index])
    ensures index >= |s| || index < -|s| ==> r.Err?
    ensures |s| == 0 ==> r == Err(ListIsEmpty)
  {
    match CheckAryIdx(index, |s|, 0)
    case Err(e) => Err(e)
    case Ok(idx) => Ok(s[idx])
  }

  /** `_aryGetLast`. */
  function AryGetLast<T>(s: seq<T>): (r: Checked<T>)
    ensures |s| == 0 ==> r == Err(ListIsEmpty)
    ensures |s| > 0 ==> r == Ok(s[|s| - 1])
  {
    match CheckAryIdx(|s| - 1, |s|, 0)
    case Err(e) => Err(e)
    case Ok(idx) => Ok(s[idx])
  }

  /** `_arySet`: overwrites the element the index designates (negative indices count from the end). */
  method ArySet<T>(ary: JsArray<T>, index: int, v: T) returns (r: Checked<()>)
    modifies ary
    ensures CheckAryIdx(index, |old(ary.elems)|, 0).Err? ==>
      r == Err(CheckAryIdx(index, |old(ary.elems)|, 0).error) && ary.elems == old(ary.elems)
    ensures CheckAryIdx(index, |old(ary.elems)|, 0).Ok? ==>
      r.Ok? && ary.elems == old(ary.elems)[CheckAryIdx(index, |old(ary.elems)|, 0).value := v]
  {
    var checked := CheckAryIdx(index, |ary.elems|, 0);
    if checked.Err? {
      return Err(checked.error);
    }
    ary.Put(checked.value, v);
    return Ok(());
  }

  /** After a successful `_arySet`, `_aryGet` with the same index reads the stored value. */
  lemma GetAfterSet<T>(s: seq<T>, index: int, v: T)
    requires CheckAryIdx(index, |s|, 0).Ok?
    ensures AryGet(s[CheckAryIdx(index, |s|, 0).value := v], index) == Ok(v)
  {
  }

  // ---------------------------------------------------------------------
  // Searches

  /** `_aryFirstIndexOf`: the first position holding `elem`, `None` (the source's `NaN`) if there is none. */
  method AryFirstIndexOf<T(==)>(ary: JsArray<T>, elem: T) returns (r: Option<nat>)
    ensures r.Some? ==> r.value < |ary.elems| && ary.elems[r.value] == elem
    ensures r.Some? ==> forall j :: 0 <= j < r.value ==> ary.elems[j] != elem
    ensures r.None? <==> elem !in ary.elems
  {
    for i := 0 to |ary.elems|
      invariant forall j :: 0 <= j < i ==> ary.elems[j] != elem
    {
      if ary.elems[i] == elem {
        return Some(i);
      }
    }
    return None;
  }

  /** `_aryLastIndexOf`: the last position holding `elem`, `None` if there is none. */
  method AryLastIndexOf<T(==)>(ary: JsArray<T>, elem: T) returns (r: Option<nat>)
    ensures r.Some? ==> r.value < |ary.elems| && ary.elems[r.value] == elem
    ensures r.Some? ==> forall j :: r.value < j < |ary.elems| ==> ary.elems[j] != elem
    ensures r.None? <==> elem !in ary.elems
  {
    var i := |ary.elems| - 1;
    while i >= 0
      invariant -1 <= i < |ary.elems|
      invariant forall j :: i < j < |ary.elems| ==> ary.elems[j] != elem
    {
      if ary.elems[i] == elem {
        return Some(i);
      }
      i := i - 1;
    }
    return None;
  }

  /** `_aryIncludes`. */
  method AryIncludes<T(==)>(ary: JsArray<T>, elem: T) returns (r: bool)
    ensures r <==> elem in ary.elems
  {
    var found := AryFirstIndexOf(ary, elem);
    return found.Some?;
  }

  /** `_aryEq`: the same list, or equal lengths and equal elements pairwise. */
  method AryEq<T(==)>(a: JsArray<T>, b: JsArray<T>) returns (r: bool)
    ensures r <==> |a.elems| == |b.elems| && forall i :: 0 <= i < |a.elems| ==> a.elems[i] == b.elems[i]
  {
    if a == b {
      return true;
    }
    if |a.elems| != |b.elems| {
      return false;
    }
    for i := 0 to |a.elems|
      invariant forall j :: 0 <= j < i ==> a.elems[j] == b.elems[j]
    {
      if a.elems[i] != b.elems[i] {
        return false;
      }
    }
    return true;
  }

  /** `_aryNeq`. */
  method AryNeq<T(==)>(a: JsArray<T>, b: JsArray<T>) returns (r: bool)
    ensures r <==> a.elems != b.elems
  {
    var eq := AryEq(a, b);
    if eq {
      assert a.elems == b.elems;
    }
    return !eq;
  }
}
