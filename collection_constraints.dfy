/** The built-in constraints of a collection node: all of them look at the size only. */
module CollectionConstraints {
  import opened Values
  import opened Text
  import opened Constraints

  /** A predicate on the size of a collection, read on a value: a value that is not a collection never passes. */
  function OnSize(p: int -> bool): Value -> bool
  {
    (v: Value) => v.Seq? && p(|v.elems|)
  }

  /** `notEmpty()` on a collection. */
  function NotEmpty(): (r: ConstraintValue)
    ensures forall es :: r.accepts(Seq(es)) <==> |es| != 0
    ensures forall v :: r.message(v) == "Cannot be empty"
  {
    Make("Cannot be empty", OnSize(n => n != 0))
  }

  /** `minSize(n)`. */
  function MinSize(minSize: int32): (r: ConstraintValue)
    ensures forall es :: r.accepts(Seq(es)) <==> |es| >= minSize as int
    ensures forall v :: r.message(v) == "Should have at least " + IntToString(minSize as int) + " elements"
  {
    Make("Should have at least " + IntToString(minSize as int) + " elements", OnSize(n => n >= minSize as int))
  }

  /** `maxSize(n)`. */
  function MaxSize(maxSize: int32): (r: ConstraintValue)
    ensures forall es :: r.accepts(Seq(es)) <==> |es| <= maxSize as int
    ensures forall v :: r.message(v) == "Should have at most " + IntToString(maxSize as int) + " elements"
  {
    Make("Should have at most " + IntToString(maxSize as int) + " elements", OnSize(n => n <= maxSize as int))
  }

  /** Two collections of the same size are judged alike, whatever their elements. */
  lemma SizeOnly(a: seq<Value>, b: seq<Value>, n: int32)
    requires |a| == |b|
    ensures NotEmpty().accepts(Seq(a)) == NotEmpty().accepts(Seq(b))
    ensures MinSize(n).accepts(Seq(a)) == MinSize(n).accepts(Seq(b))
    ensures MaxSize(n).accepts(Seq(a)) == MaxSize(n).accepts(Seq(b))
  {
  }

  /** `notEmpty()` is `minSize(1)`, apart from the message. */
  lemma NotEmptyIsMinSizeOne(v: Value)
    ensures NotEmpty().accepts(v) <==> MinSize(1).accepts(v)
  {
  }
}
