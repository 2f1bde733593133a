/** JavaScript numbers and dates as the model sees them: IEEE details
    (-0, rounding, the 2^53 limit) are abstracted to mathematical reals. */
module JsTypes {

  /** A JavaScript `number`: NaN, one of the two infinities, or a finite value. */
  datatype Num = NaN | PosInf | NegInf | Finite(r: real)
  {
    predicate IsNaN() { NaN? }

    /** `Number.isFinite` */
    predicate IsFinite() { Finite? }
  }

  /** A JavaScript `Date`, identified by its time value (which may be NaN). */
  datatype JsDate = JsDate(time: Num)

  /** Division by a positive constant, as IEEE division behaves on each kind of value. */
  function DivBy(n: Num, d: real): (r: Num)
    requires d > 0.0
    ensures n.IsNaN() <==> r.IsNaN()
    ensures n.IsFinite() <==> r.IsFinite()
    ensures n.Finite? ==> r.r * d == n.r
  {
    match n
    case Finite(x) => Finite(x / d)
    case _ => n
  }

  /** `Math.abs` on a finite value. */
  function Abs(x: real): real { if x < 0.0 then -x else x }

  /** `n < x` for a finite bound: false for NaN and +Infinity, true for
      -Infinity. */
  predicate LessThan(n: Num, x: real) {
    match n
    case Finite(v) => v < x
    case NegInf => true
    case _ => false
  }
}
