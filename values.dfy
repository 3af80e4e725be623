/**
 * The validated value, in place of Kotlin objects and reflection.
 * An object reads its properties by name; a property is identified by its name
 * and its getter is `Get`.
 */
module Values {

  datatype Value =
    | Null
    | Str(s: string)
    | Int(i: int)
    | Obj(fields: seq<Field>)
    | Seq(elems: seq<Value>)

  datatype Field = Field(name: string, value: Value)

  /** Kotlin's `Short`, `Int` and `Long`: the widths of the bounds passed to the number constraints. */
  newtype int16 = x: int | -0x8000 <= x < 0x8000
  newtype int32 = x: int | -0x8000_0000 <= x < 0x8000_0000
  newtype int64 = x: int | -0x8000_0000_0000_0000 <= x < 0x8000_0000_0000_0000

  predicate NoneNamedBefore(fields: seq<Field>, name: string, i: nat)
    requires i <= |fields|
  {
    forall j :: 0 <= j < i ==> fields[j].name != name
  }

  /** The value of the first field called `name`, or `Null` when there is none. */
  function Lookup(fields: seq<Field>, name: string): (r: Value)
    ensures (forall i :: 0 <= i < |fields| ==> fields[i].name != name) ==> r == Null
    ensures forall i :: 0 <= i < |fields| && fields[i].name == name && NoneNamedBefore(fields, name, i) ==> r == fields[i].value
  {
    if fields == [] then Null
    else if fields[0].name == name then fields[0].value
    else Lookup(fields[1..], name)
  }

  /** The getter of property `name`: a field read on an object, `Null` on anything else. */
  function Get(v: Value, name: string): (r: Value)
    ensures !v.Obj? ==> r == Null
  {
    if v.Obj? then Lookup(v.fields, name) else Null
  }

  /** The ordered elements of a collection value; any other value has none. */
  function Elements(v: Value): (r: seq<Value>)
    ensures v.Seq? ==> r == v.elems
    ensures !v.Seq? ==> r == []
  {
    if v.Seq? then v.elems else []
  }

  /** A size measure: the children and elements of a value are strictly smaller than it. */
  function Size(v: Value): nat
  {
    match v
    case Null => 0
    case Str(_) => 1
    case Int(_) => 1
    case Obj(fields) => 1 + FieldsSize(fields)
    case Seq(elems) => 1 + ElemsSize(elems)
  }

  function FieldsSize(fields: seq<Field>): nat
  {
    if fields == [] then 0 else Size(fields[0].value) + FieldsSize(fields[1..])
  }

  function ElemsSize(elems: seq<Value>): nat
  {
    if elems == [] then 0 else Size(elems[0]) + ElemsSize(elems[1..])
  }

  lemma {:induction false} LookupSmaller(fields: seq<Field>, name: string)
    ensures Size(Lookup(fields, name)) <= FieldsSize(fields)
  {
    if fields != [] && fields[0].name != name {
      LookupSmaller(fields[1..], name);
    }
  }

  /** Reading a property of a present value gives a strictly smaller value. */
  lemma GetSmaller(v: Value, name: string)
    requires v != Null
    ensures Size(Get(v, name)) < Size(v)
  {
    if v.Obj? {
      LookupSmaller(v.fields, name);
    }
  }

  lemma {:induction false} ElemSmaller(elems: seq<Value>, i: nat)
    requires i < |elems|
    ensures Size(elems[i]) <= ElemsSize(elems)
  {
    if i > 0 {
      ElemSmaller(elems[1..], i - 1);
    }
  }

  /** Every element of a collection is strictly smaller than the collection. */
  lemma ElementSmaller(v: Value, i: nat)
    requires i < |Elements(v)|
    ensures Size(Elements(v)[i]) < Size(v)
  {
    ElemSmaller(v.elems, i);
  }

  /** An element of a property's collection is strictly smaller than the value holding the property. */
  lemma PropertyElementSmaller(v: Value, name: string, i: nat)
    requires v != Null && i < |Elements(Get(v, name))|
    ensures Size(Elements(Get(v, name))[i]) < Size(v)
  {
    GetSmaller(v, name);
    ElementSmaller(Get(v, name), i);
  }
}
