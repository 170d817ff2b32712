/** The two helpers the progress control takes from the player's utility module. */
module Utils {

  /** A value that may be absent: an option object that was not configured. */
  datatype Option<+T> = None | Some(value: T)

  function Min(a: real, b: real): real { if a <= b then a else b }

  function Max(a: real, b: real): real { if a <= b then b else a }

  /** `clamp(num, lo, hi)`: `num` pushed into the interval `[lo, hi]`. */
  function Clamp(x: real, lo: real, hi: real): (r: real)
    ensures lo <= hi ==> lo <= r <= hi
    ensures lo <= x <= hi ==> r == x
    ensures x < lo <= hi ==> r == lo
    ensures lo <= hi < x ==> r == hi
  {
    Max(Min(x, hi), lo)
  }

  /** A part of a positive whole is a fraction in `[0, 1]`. */
  lemma FractionBounds(part: real, whole: real)
    requires whole > 0.0 && 0.0 <= part <= whole
    ensures 0.0 <= part / whole <= 1.0
  {
  }
}
