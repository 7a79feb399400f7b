/**
 * A JavaScript array as the runtime library sees it: a growable sequence of
 * values updated in place.  The methods are the few built-in operations the
 * library code uses (`ary[ary.length] = v`, `ary[i] = v`, `splice`, setting
 * `length`, `push.apply`); the library functions are written on top of them.
 */
module JsArrays {
  class JsArray<T> {
    var elems: seq<T>

    constructor (init: seq<T>)
      ensures elems == init
    {
      elems := init;
    }

    /** `ary[ary.length] = v` and `ary.push(v)`. */
    method Append(v: T)
      modifies this
      ensures elems == old(elems) + [v]
    {
      elems := elems + [v];
    }

    /** `ary[i] = v` for an index inside the array. */
    method Put(i: nat, v: T)
      requires i < |elems|
      modifies this
      ensures elems == old(elems)[i := v]
    {
      elems := elems[i := v];
    }

    /** `Array.prototype.push.apply(ary, vs)`: the argument is read before anything is appended. */
    method AppendAll(vs: seq<T>)
      modifies this
      ensures elems == old(elems) + vs
    {
      elems := elems + vs;
    }

    /** `ary.splice(start, count)` for a start inside the array: at most the rest of the array is deleted. */
    method Splice(start: nat, count: nat)
      requires start <= |elems|
      modifies this
      ensures var stop := if count < |old(elems)| - start then start + count else |old(elems)|;
              elems == old(elems)[..start] + old(elems)[stop..]
    {
      var stop := if count < |elems| - start then start + count else |elems|;
      elems := elems[..start] + elems[stop..];
    }

    /** `ary.splice(start, 0, v)`. */
    method SpliceInsert(start: nat, v: T)
      requires start <= |elems|
      modifies this
      ensures elems == old(elems)[..start] + [v] + old(elems)[start..]
    {
      elems := elems[..start] + [v] + elems[start..];
    }

    /** `ary.length = n` for `n` not above the current length. */
    method Truncate(n: nat)
      requires n <= |elems|
      modifies this
      ensures elems == old(elems)[..n]
    {
      elems := elems[..n];
    }
  }
}
