/**
 * The built-in constraints of `Int`, `Long` and `Short` nodes. A number is a
 * `Value.Int`; the width of each Kotlin overload is the type of its bound.
 */
module NumberConstraints {
  import opened Values
  import opened Text
  import opened Constraints

  /** A predicate on integers, read on a value: a value that is not a number never passes. */
  function OnInt(p: int -> bool): Value -> bool
  {
    (v: Value) => v.Int? && p(v.i)
  }

  /** `gte(value)`, shared by the three widths. */
  function Gte(value: int): (r: ConstraintValue)
    ensures forall x :: r.accepts(Int(x)) <==> x >= value
    ensures forall v :: r.message(v) == "Must be greater than or equal to " + IntToString(value)
  {
    Make("Must be greater than or equal to " + IntToString(value), OnInt(x => x >= value))
  }

  /** `gt(value)`: equality fails. */
  function Gt(value: int): (r: ConstraintValue)
    ensures forall x :: r.accepts(Int(x)) <==> x > value
    ensures forall v :: r.message(v) == "Must be greater than " + IntToString(value)
  {
    Make("Must be greater than " + IntToString(value), OnInt(x => x > value))
  }

  /** `lte(value)`. */
  function Lte(value: int): (r: ConstraintValue)
    ensures forall x :: r.accepts(Int(x)) <==> x <= value
    ensures forall v :: r.message(v) == "Must be less than or equal to " + IntToString(value)
  {
    Make("Must be less than or equal to " + IntToString(value), OnInt(x => x <= value))
  }

  /** `lt(value)`. */
  function Lt(value: int): (r: ConstraintValue)
    ensures forall x :: r.accepts(Int(x)) <==> x < value
    ensures forall v :: r.message(v) == "Must be less than " + IntToString(value)
  {
    Make("Must be less than " + IntToString(value), OnInt(x => x < value))
  }

  /** `between(start..endInclusive)`: both ends included; an empty range accepts nothing. */
  function Between(start: int, endInclusive: int): (r: ConstraintValue)
    ensures forall x :: r.accepts(Int(x)) <==> start <= x <= endInclusive
    ensures forall v :: r.message(v) == "Must be between " + IntToString(start) + " and " + IntToString(endInclusive)
  {
    Make("Must be between " + IntToString(start) + " and " + IntToString(endInclusive),
         OnInt(x => start <= x <= endInclusive))
  }

  // The Kotlin overloads, by the width of their bound.

  function IntGte(value: int32): ConstraintValue { Gte(value as int) }
  function IntGt(value: int32): ConstraintValue { Gt(value as int) }
  function IntLte(value: int32): ConstraintValue { Lte(value as int) }
  function IntLt(value: int32): ConstraintValue { Lt(value as int) }
  function IntBetween(start: int32, endInclusive: int32): ConstraintValue { Between(start as int, endInclusive as int) }

  function LongGte(value: int64): ConstraintValue { Gte(value as int) }
  function LongGt(value: int64): ConstraintValue { Gt(value as int) }
  function LongLte(value: int64): ConstraintValue { Lte(value as int) }
  function LongLt(value: int64): ConstraintValue { Lt(value as int) }
  function LongBetween(start: int64, endInclusive: int64): ConstraintValue { Between(start as int, endInclusive as int) }

  function ShortGte(value: int16): ConstraintValue { Gte(value as int) }
  function ShortGt(value: int16): ConstraintValue { Gt(value as int) }
  /** Kotlin's `Validation<Short>.lte` takes a `Long` bound. */
  function ShortLte(value: int64): ConstraintValue { Lte(value as int) }
  function ShortLt(value: int16): ConstraintValue { Lt(value as int) }
  /** Kotlin's `Validation<Short>.between` takes an `IntRange`. */
  function ShortBetween(start: int32, endInclusive: int32): ConstraintValue { Between(start as int, endInclusive as int) }

  /** A `Long` constraint with an `Int`-sized bound accepts the same values, with the same message, as the `Int` one. */
  lemma LongBehavesLikeInt(a: int32, b: int32, x: int)
    ensures LongGte(a as int64).accepts(Int(x)) == IntGte(a).accepts(Int(x))
    ensures LongGt(a as int64).accepts(Int(x)) == IntGt(a).accepts(Int(x))
    ensures LongLte(a as int64).accepts(Int(x)) == IntLte(a).accepts(Int(x))
    ensures LongLt(a as int64).accepts(Int(x)) == IntLt(a).accepts(Int(x))
    ensures LongBetween(a as int64, b as int64).accepts(Int(x)) == IntBetween(a, b).accepts(Int(x))
    ensures forall v :: LongBetween(a as int64, b as int64).message(v) == IntBetween(a, b).message(v)
  {
  }

  /** The range of `between` is closed: both endpoints pass, their neighbours outside fail. */
  lemma BetweenEndpoints(start: int, endInclusive: int)
    requires start <= endInclusive
    ensures Between(start, endInclusive).accepts(Int(start)) && Between(start, endInclusive).accepts(Int(endInclusive))
    ensures !Between(start, endInclusive).accepts(Int(start - 1)) && !Between(start, endInclusive).accepts(Int(endInclusive + 1))
  {
  }

  /** `between(a..b)` is `gte(a)` and `lte(b)` together. */
  lemma BetweenIsGteAndLte(start: int, endInclusive: int, v: Value)
    ensures Between(start, endInclusive).accepts(v) <==> Gte(start).accepts(v) && Lte(endInclusive).accepts(v)
  {
  }

  /** `gt(a)` is `gte(a + 1)` on integers, and `lt(a)` is `lte(a - 1)`. */
  lemma StrictIsShiftedInclusive(a: int, v: Value)
    ensures Gt(a).accepts(v) <==> Gte(a + 1).accepts(v)
    ensures Lt(a).accepts(v) <==> Lte(a - 1).accepts(v)
  {
  }

  /** The message example: `between(1..10)` reports "Must be between 1 and 10". */
  lemma BetweenMessageExample(v: Value)
    ensures Between(1, 10).message(v) == "Must be between 1 and 10"
  {
    assert IntToString(1) == "1";
    assert IntToString(10) == "10";
  }
}
