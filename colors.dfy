/**
 * Colour arithmetic shared by both runtime libraries (`Common.js` and
 * `CommonCode.js` define `_clamp`, `_addColor` and `_subColor` identically):
 * components are added or subtracted and clamped to [0, 255].
 */
module Colors {
  /** `_Color`: a red/green/blue triple. */
  datatype Color = Color(red: int, green: int, blue: int)

  const Black := Color(0, 0, 0)

  predicate ValidColor(c: Color) {
    0 <= c.red <= 255 && 0 <= c.green <= 255 && 0 <= c.blue <= 255
  }

  /** `_clamp`: `v` limited to [min, max]; below `min` gives `min`, above `max` gives `max`. */
  function Clamp(v: int, min: int, max: int): (r: int)
    ensures min <= v <= max ==> r == v
    ensures v < min ==> r == min
    ensures min <= v && max < v ==> r == max
    ensures min <= max ==> min <= r <= max
  {
    if v < min then min
    else if v > max then max
    else v
  }

  /** Clamping twice is clamping once. */
  lemma ClampIdempotent(v: int, min: int, max: int)
    requires min <= max
    ensures Clamp(Clamp(v, min, max), min, max) == Clamp(v, min, max)
  {
  }

  /** Clamping preserves the order of its inputs. */
  lemma ClampMonotone(v: int, w: int, min: int, max: int)
    requires v <= w
    requires min <= max
    ensures Clamp(v, min, max) <= Clamp(w, min, max)
  {
  }

  /** `_addColor`: component-wise sum, clamped to [0, 255]. */
  function AddColor(left: Color, right: Color): (r: Color)
    ensures ValidColor(r)
    ensures 0 <= left.red + right.red <= 255 ==> r.red == left.red + right.red
    ensures 0 <= left.green + right.green <= 255 ==> r.green == left.green + right.green
    ensures 0 <= left.blue + right.blue <= 255 ==> r.blue == left.blue + right.blue
  {
    Color(Clamp(left.red + right.red, 0, 255),
          Clamp(left.green + right.green, 0, 255),
          Clamp(left.blue + right.blue, 0, 255))
  }

  /** `_subColor`: component-wise difference, clamped to [0, 255]. */
  function SubColor(left: Color, right: Color): (r: Color)
    ensures ValidColor(r)
    ensures 0 <= left.red - right.red <= 255 ==> r.red == left.red - right.red
    ensures 0 <= left.green - right.green <= 255 ==> r.green == left.green - right.green
    ensures 0 <= left.blue - right.blue <= 255 ==> r.blue == left.blue - right.blue
  {
    Color(Clamp(left.red - right.red, 0, 255),
          Clamp(left.green - right.green, 0, 255),
          Clamp(left.blue - right.blue, 0, 255))
  }

  /** Adding is symmetric, black is neutral for valid colours, and a colour minus itself is black. */
  lemma ColorArithmetic(a: Color, b: Color)
    ensures AddColor(a, b) == AddColor(b, a)
    ensures ValidColor(a) ==> AddColor(a, Black) == a && SubColor(a, Black) == a
    ensures SubColor(a, a) == Black
  {
  }

  /** Subtracting what was added gives back a valid colour whenever no component was clamped. */
  lemma SubUndoesAdd(a: Color, b: Color)
    requires ValidColor(a) && ValidColor(b)
    requires a.red + b.red <= 255 && a.green + b.green <= 255 && a.blue + b.blue <= 255
    ensures SubColor(AddColor(a, b), b) == a
  {
  }
}
