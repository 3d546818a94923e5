/** Direction codes of the gesture engine.
    Each code is a byte: one bit per compass direction (up, down, left, right),
    and a diagonal is the union of one vertical bit and one horizontal bit. */
module MouseGestureCodes {

  const GESTURE_NONE: bv8 := 0
  const GESTURE_UP: bv8 := 1
  const GESTURE_DOWN: bv8 := 2
  const GESTURE_LEFT: bv8 := 4
  const GESTURE_RIGHT: bv8 := 8
  const GESTURE_UP_LEFT: bv8 := GESTURE_UP | GESTURE_LEFT
  const GESTURE_UP_RIGHT: bv8 := GESTURE_UP | GESTURE_RIGHT
  const GESTURE_DOWN_LEFT: bv8 := GESTURE_DOWN | GESTURE_LEFT
  const GESTURE_DOWN_RIGHT: bv8 := GESTURE_DOWN | GESTURE_RIGHT

  /** The bits of the vertical axis and of the horizontal axis. */
  const VERTICAL_BITS: bv8 := GESTURE_UP | GESTURE_DOWN
  const HORIZONTAL_BITS: bv8 := GESTURE_LEFT | GESTURE_RIGHT

  predicate IsHorizontal(d: bv8) {
    d == GESTURE_LEFT || d == GESTURE_RIGHT
  }

  predicate IsVertical(d: bv8) {
    d == GESTURE_UP || d == GESTURE_DOWN
  }

  predicate IsDiagonal(d: bv8) {
    d == GESTURE_UP_LEFT || d == GESTURE_UP_RIGHT || d == GESTURE_DOWN_LEFT || d == GESTURE_DOWN_RIGHT
  }

  /** One of the eight codes a classified stroke can have (never GESTURE_NONE). */
  predicate IsDirection(d: bv8) {
    IsHorizontal(d) || IsVertical(d) || IsDiagonal(d)
  }

  /** A code in the encoding's shape: within the low four bits and with at
      most one bit set on each axis. */
  predicate WellFormedCode(d: bv8) {
    d & 0xF0 == 0 && d & VERTICAL_BITS != VERTICAL_BITS && d & HORIZONTAL_BITS != HORIZONTAL_BITS
  }

  /** GESTURE_X: the horizontal code for the sign of x; zero counts as left. */
  function GestureX(x: int): (r: bv8)
    ensures IsHorizontal(r)
    ensures r == GESTURE_RIGHT <==> x > 0
  {
    if x > 0 then GESTURE_RIGHT else GESTURE_LEFT
  }

  /** GESTURE_Y: the vertical code for the sign of y; zero counts as up
      (screen coordinates, y grows downwards). */
  function GestureY(y: int): (r: bv8)
    ensures IsVertical(r)
    ensures r == GESTURE_DOWN <==> y > 0
  {
    if y > 0 then GESTURE_DOWN else GESTURE_UP
  }

  /** GESTURE_XY: the diagonal that combines the two signs. */
  function GestureXY(x: int, y: int): (r: bv8)
    ensures IsDiagonal(r)
    ensures r & HORIZONTAL_BITS == GestureX(x) && r & VERTICAL_BITS == GestureY(y)
  {
    GestureX(x) | GestureY(y)
  }

  /** The nine constants are pairwise distinct, NONE is zero, the four
      cardinal codes are the single bits 1, 2, 4, 8, and each diagonal is
      the union of a vertical bit and a horizontal bit. */
  lemma ConstantsDistinct()
    ensures |{GESTURE_NONE, GESTURE_UP, GESTURE_DOWN, GESTURE_LEFT, GESTURE_RIGHT,
              GESTURE_UP_LEFT, GESTURE_UP_RIGHT, GESTURE_DOWN_LEFT, GESTURE_DOWN_RIGHT}| == 9
    ensures GESTURE_NONE == 0
    ensures GESTURE_UP == 1 << 0 && GESTURE_DOWN == 1 << 1 && GESTURE_LEFT == 1 << 2 && GESTURE_RIGHT == 1 << 3
  {
  }

  /** Every diagonal code has exactly one vertical bit and exactly one
      horizontal bit, and every other direction code has bits on one axis only. */
  lemma DiagonalsAreUnions(d: bv8)
    requires IsDirection(d)
    ensures IsDiagonal(d) <==> IsVertical(d & VERTICAL_BITS) && IsHorizontal(d & HORIZONTAL_BITS)
    ensures IsDiagonal(d) ==> d == (d & VERTICAL_BITS) | (d & HORIZONTAL_BITS)
  {
  }

  /** Every direction code, and so every result of the three macros, is
      nonzero and well formed. */
  lemma DirectionsWellFormed(d: bv8)
    requires IsDirection(d)
    ensures d != GESTURE_NONE && d < 16 && WellFormedCode(d)
  {
  }

  /** The three macros always yield a well-formed nonzero code. */
  lemma MacrosWellFormed(x: int, y: int)
    ensures WellFormedCode(GestureX(x)) && GestureX(x) != GESTURE_NONE
    ensures WellFormedCode(GestureY(y)) && GestureY(y) != GESTURE_NONE
    ensures WellFormedCode(GestureXY(x, y)) && GestureXY(x, y) != GESTURE_NONE
  {
    DirectionsWellFormed(GestureX(x));
    DirectionsWellFormed(GestureY(y));
    DirectionsWellFormed(GestureXY(x, y));
  }
}
