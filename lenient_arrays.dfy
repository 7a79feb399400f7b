/**
 * The older, lenient list operations (`CommonCode.js`): an out-of-range index
 * is silently ignored (or yields the caller's default) instead of raising an
 * exception, and negative indices never count from the end.  `Math.floor` is
 * the identity on the integer indices modelled here.
 */
module LenientArrays {
  import opened Wrappers
  import opened JsArrays
  import opened Colors
  import RuntimeArrays

  /** `_aryPush`. */
  method AryPush<T>(ary: JsArray<T>, v: T)
    modifies ary
    ensures ary.elems == old(ary.elems) + [v]
  {
    ary.Append(v);
  }

  /** `_aryInsert`: inserts `v` before position `idx` when 0 <= idx <= length, otherwise does nothing. */
  method AryInsert<T>(ary: JsArray<T>, idx: int, v: T)
    modifies ary
    ensures 0 <= idx <= |old(ary.elems)| ==> ary.elems == old(ary.elems)[..idx] + [v] + old(ary.elems)[idx..]
    ensures !(0 <= idx <= |old(ary.elems)|) ==> ary.elems == old(ary.elems)
  {
    if 0 <= idx <= |ary.elems| {
      ary.SpliceInsert(idx, v);
    }
  }

  /** `_aryRemove`: deletes the element at `idx` when 0 <= idx < length, otherwise does nothing. */
  method AryRemove<T>(ary: JsArray<T>, idx: int)
    modifies ary
    ensures 0 <= idx < |old(ary.elems)| ==> ary.elems == old(ary.elems)[..idx] + old(ary.elems)[idx + 1..]
    ensures !(0 <= idx < |old(ary.elems)|) ==> ary.elems == old(ary.elems)
  {
    if 0 <= idx < |ary.elems| {
      ary.Splice(idx, 1);
    }
  }

  /** `_aryClear`: `ary.length = 0`. */
  method AryClear<T>(ary: JsArray<T>)
    modifies ary
    ensures ary.elems == []
  {
    ary.Truncate(0);
  }

  /** `_aryAddAll`: appends all of `b` in order; `push.apply` reads `b` first, so `a` may be `b`. */
  method AryAddAll<T>(a: JsArray<T>, b: JsArray<T>)
    modifies a
    ensures a.elems == old(a.elems) + old(b.elems)
  {
    a.AppendAll(b.elems);
  }

  /** `_aryGet`: the element at `idx` when 0 <= idx < length, the default otherwise. */
  function AryGet<T>(s: seq<T>, idx: int, dflt: T): (r: T)
    ensures 0 <= idx < |s| ==> r == s[idx]
    ensures !(0 <= idx < |s|) ==> r == dflt
  {
    if 0 <= idx < |s| then s[idx] else dflt
  }

  /** `_aryGetLast`: the last element, the default on an empty list. */
  function AryGetLast<T>(s: seq<T>, dflt: T): (r: T)
    ensures |s| == 0 ==> r == dflt
    ensures |s| > 0 ==> r == s[|s| - 1]
  {
    if |s| >= 1 then s[|s| - 1] else dflt
  }

  /** `_arySet`: overwrites the element at `idx` when 0 <= idx < length, otherwise does nothing. */
  method ArySet<T>(ary: JsArray<T>, idx: int, v: T)
    modifies ary
    ensures 0 <= idx < |old(ary.elems)| ==> ary.elems == old(ary.elems)[idx := v]
    ensures !(0 <= idx < |old(ary.elems)|) ==> ary.elems == old(ary.elems)
  {
    if 0 <= idx < |ary.elems| {
      ary.Put(idx, v);
    }
  }

  /**
   * The lenient and the strict library agree wherever the strict one accepts a
   * non-negative index; a negative index counts from the end only in the
   * strict library and reads the default in the lenient one.
   */
  lemma LenientGetMatchesStrict<T>(s: seq<T>, idx: int, dflt: T)
    ensures 0 <= idx < |s| ==> RuntimeArrays.AryGet(s, idx) == Ok(AryGet(s, idx, dflt))
    ensures idx >= |s| ==> RuntimeArrays.AryGet(s, idx).Err? && AryGet(s, idx, dflt) == dflt
    ensures -|s| <= idx < 0 ==> RuntimeArrays.AryGet(s, idx).Ok? && AryGet(s, idx, dflt) == dflt
    ensures |s| > 0 ==> RuntimeArrays.AryGetLast(s) == Ok(AryGetLast(s, dflt))
  {
  }

  /** A lenient insertion at a position inside the list is the strict insertion of one copy. */
  lemma LenientInsertMatchesStrict<T>(s: seq<T>, idx: nat, v: T)
    requires idx <= |s|
    ensures s[..idx] + [v] + s[idx..] == RuntimeArrays.Inserted(s, idx, v, 1)
    ensures (s[..idx] + [v] + s[idx..])[..idx] + (s[..idx] + [v] + s[idx..])[idx + 1..] == s
  {
    assert RuntimeArrays.Repeat(v, 1) == [v];
    var t := s[..idx] + [v] + s[idx..];
    assert t[..idx] == s[..idx];
    assert t[idx + 1..] == s[idx..];
    assert s[..idx] + s[idx..] == s;
  }

  /** `_compareColors`: 'eq' asks for equality, 'neq' for inequality; any other operator is an error (`None`). */
  function CompareColors(a: Color, b: Color, eq: string): (r: Option<bool>)
    ensures eq == "eq" ==> r == Some(a.red == b.red && a.green == b.green && a.blue == b.blue)
    ensures eq == "neq" ==> r == Some(!(a.red == b.red && a.green == b.green && a.blue == b.blue))
    ensures eq != "eq" && eq != "neq" ==> r == None
  {
    var equality := a.red == b.red && a.green == b.green && a.blue == b.blue;
    if eq == "eq" then Some(equality)
    else if eq == "neq" then Some(!equality)
    else None
  }

  /** 'eq' and 'neq' always give opposite answers, and 'eq' is equality of colours. */
  lemma CompareColorsOpposite(a: Color, b: Color)
    ensures CompareColors(a, b, "eq").Some? && CompareColors(a, b, "neq").Some?
    ensures CompareColors(a, b, "eq").value == !CompareColors(a, b, "neq").value
    ensures CompareColors(a, b, "eq").value <==> a == b
  {
  }
}
