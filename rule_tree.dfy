/**
 * The meaning of a validation tree, as values: what the builder calls of
 * `Validation` produce (`Apply`) and what `validate` reports (`Eval`,
 * `Validate`). The mutable `Validation` class is proved against these.
 */
module RuleTree {
  import opened Values
  import opened Text
  import opened PathError
  import opened ErrorList
  import opened Results
  import opened Constraints
  import StringConstraints

  /**
   * One builder call made inside a dynamic block on the fresh node it receives:
   * the calls that do not register further dynamic rules.
   */
  datatype Edit =
    | Constrain(constraint: ConstraintValue)   // `addConstraint` or a built-in, its `message` overrides applied
    | Bind(property: string, init: seq<Op>)   // `property { init }`
    | Each(property: string, init: seq<Op>)   // `property each { init }`
    | FailFast(failFast: bool)                // `failFast(b)`

  /** One builder call in an init block (`Validation<T>.() -> Unit`). */
  datatype Op =
    | Do(edit: Edit)
    | WhenIs(property: string, constant: Value, block: Value -> seq<Edit>)
    | IfNotNull(property: string, init: seq<Op>)
    | NotNull(property: string, message: string, init: seq<Op>)
    | NotNullOrBlank(property: string, message: string, init: seq<Op>)
    | WithValue(block: Value -> seq<Edit>)

  /** A dynamic rule (`Validation<Value>.(Value) -> Unit`): the calls it makes on the fresh node, given the value. */
  type Rule = Value -> seq<Edit>

  /** The state of a `Validation` node. `bindings` is the insertion-ordered map from property to child nodes. */
  datatype Node = Node(
    path: string,
    elements: bool,
    failFast: bool,
    nullMessage: string,
    constraints: seq<ConstraintValue>,
    bindings: seq<Binding>,
    rules: seq<Rule>)

  datatype Binding = Binding(property: string, nodes: seq<Node>)

  /** The default message for a null value. */
  const DefaultNullMessage: string := "is required"

  /** A node as the constructor leaves it. */
  function NewNode(path: string, elements: bool, failFast: bool, nullMessage: string): Node
  {
    Node(path, elements, failFast, nullMessage, [], [], [])
  }

  /** `appendToPropertyPath`: the property alone under a blank path, else joined with a dot. */
  function AppendToPropertyPath(path: string, property: string): (r: string)
    ensures IsBlank(path) ==> r == property
    ensures !IsBlank(path) ==> r == path + "." + property
  {
    if IsBlank(path) then property else path + "." + property
  }

  function Properties(bs: seq<Binding>): seq<string>
  {
    seq(|bs|, i requires 0 <= i < |bs| => bs[i].property)
  }

  /** Map keys: each property is bound at most once. */
  predicate DistinctProperties(bs: seq<Binding>)
  {
    forall i, j :: 0 <= i < j < |bs| ==> bs[i].property != bs[j].property
  }

  /** `putIfAbsent(property, [])` then `add(child)` on the bindings; `AddChildShape` says what it does. */
  function AddChild(bs: seq<Binding>, property: string, child: Node): seq<Binding>
  {
    if bs == [] then [Binding(property, [child])]
    else if bs[0].property == property then [Binding(property, bs[0].nodes + [child])] + bs[1..]
    else [bs[0]] + AddChild(bs[1..], property, child)
  }

  /** A new key goes last with the child alone; a known key keeps its place and gets the child at the end. */
  lemma {:induction false} AddChildShape(bs: seq<Binding>, property: string, child: Node)
    ensures var r := AddChild(bs, property, child);
      && (property !in Properties(bs) ==> r == bs + [Binding(property, [child])])
      && |r| == (if property in Properties(bs) then |bs| else |bs| + 1)
      && (forall i :: 0 <= i < |bs| ==> r[i].property == bs[i].property)
      && (DistinctProperties(bs) ==> DistinctProperties(r))
      && (DistinctProperties(bs) ==>
            forall i :: 0 <= i < |bs| ==> r[i].nodes == if bs[i].property == property then bs[i].nodes + [child] else bs[i].nodes)
    decreases |bs|
  {
    AddChildAppends(bs, property, child);
    AddChildProperties(bs, property, child);
    AddChildDistinct(bs, property, child);
    AddChildNodes(bs, property, child);
  }

  lemma {:induction false} PropertiesTail(bs: seq<Binding>)
    requires bs != []
    ensures Properties(bs) == [bs[0].property] + Properties(bs[1..])
  {
  }

  lemma {:induction false} AddChildAppends(bs: seq<Binding>, property: string, child: Node)
    ensures property !in Properties(bs) ==> AddChild(bs, property, child) == bs + [Binding(property, [child])]
    decreases |bs|
  {
    if bs != [] && property !in Properties(bs) {
      PropertiesTail(bs);
      AddChildAppends(bs[1..], property, child);
      var b := Binding(property, [child]);
      calc {
        AddChild(bs, property, child);
        [bs[0]] + AddChild(bs[1..], property, child);
        [bs[0]] + (bs[1..] + [b]);
        { assert bs == [bs[0]] + bs[1..]; }
        bs + [b];
      }
    }
  }

  lemma {:induction false} AddChildProperties(bs: seq<Binding>, property: string, child: Node)
    ensures var r := AddChild(bs, property, child);
      && |r| == (if property in Properties(bs) then |bs| else |bs| + 1)
      && (forall i :: 0 <= i < |bs| ==> r[i].property == bs[i].property)
    decreases |bs|
  {
    if bs != [] {
      PropertiesTail(bs);
      if bs[0].property != property {
        AddChildProperties(bs[1..], property, child);
      }
    }
  }

  lemma {:induction false} AddChildDistinct(bs: seq<Binding>, property: string, child: Node)
    ensures DistinctProperties(bs) ==> DistinctProperties(AddChild(bs, property, child))
  {
    var r := AddChild(bs, property, child);
    AddChildProperties(bs, property, child);
    if DistinctProperties(bs) {
      if property !in Properties(bs) {
        AddChildAppends(bs, property, child);
        forall i, j | 0 <= i < j < |r|
          ensures r[i].property != r[j].property
        {
          if j == |bs| {
            assert Properties(bs)[i] == bs[i].property;
          }
        }
      }
    }
  }

  lemma {:induction false} AddChildNodes(bs: seq<Binding>, property: string, child: Node)
    ensures |AddChild(bs, property, child)| >= |bs|
    ensures var r := AddChild(bs, property, child);
      DistinctProperties(bs) ==>
        forall i :: 0 <= i < |bs| ==> r[i].nodes == if bs[i].property == property then bs[i].nodes + [child] else bs[i].nodes
    decreases |bs|
  {
    AddChildProperties(bs, property, child);
    if bs != [] && DistinctProperties(bs) && bs[0].property != property {
      assert DistinctProperties(bs[1..]) by {
        forall i, j | 0 <= i < j < |bs[1..]|
          ensures bs[1..][i].property != bs[1..][j].property
        {
          assert bs[1..][i] == bs[i + 1] && bs[1..][j] == bs[j + 1];
        }
      }
      AddChildNodes(bs[1..], property, child);
    }
  }

  /** The rule `whenIs` registers. */
  function WhenIsRule(property: string, constant: Value, block: Rule): Rule
  {
    v => if Get(v, property) == constant then block(v) else []
  }

  /** The rule `ifNotNull` registers: bind the property on the fresh node when it is present. */
  function IfNotNullRule(property: string, init: seq<Op>): Rule
  {
    v => if Get(v, property) != Null then [Bind(property, init)] else []
  }

  /** The init block `notNullOrBlank` passes to `notNull`: `notBlank() message errorMessage`, then the caller's block. */
  function NotBlankInit(message: string, init: seq<Op>): seq<Op>
  {
    [Do(Constrain(WithMessage(StringConstraints.NotBlank(), message)))] + init
  }

  /** A new child node under `property`, with the current `failFast`. */
  function ChildNode(n: Node, property: string, elements: bool, nullMessage: string): Node
  {
    NewNode(AppendToPropertyPath(n.path, property), elements, n.failFast, nullMessage)
  }

  function BindChild(n: Node, property: string, child: Node): Node
  {
    n.(bindings := AddChild(n.bindings, property, child))
  }

  /** `addChildValidation`: a child under the extended path, inheriting the current `failFast`, built by `init`, then bound. */
  function AddChildValidation(n: Node, property: string, init: seq<Op>, elements: bool, nullMessage: string): Node
    decreases init, 1
  {
    BindChild(n, property, Apply(ChildNode(n, property, elements, nullMessage), init))
  }

  /** The builder calls of an init block, run in order. */
  function Apply(n: Node, ops: seq<Op>): Node
    decreases ops, 0
  {
    if ops == [] then n else ApplyOp(Apply(n, ops[..|ops| - 1]), ops[|ops| - 1])
  }

  function ApplyOp(n: Node, op: Op): Node
    decreases op
  {
    match op
    case Do(e) => ApplyEdit(n, e)
    case WhenIs(p, c, block) => n.(rules := n.rules + [WhenIsRule(p, c, block)])
    case IfNotNull(p, init) => n.(rules := n.rules + [IfNotNullRule(p, init)])
    case NotNull(p, m, init) =>
      var withChild := BindChild(n, p, ChildNode(n, p, false, m));
      withChild.(rules := withChild.rules + [IfNotNullRule(p, init)])
    case NotNullOrBlank(p, m, init) =>
      var withChild := BindChild(n, p, ChildNode(n, p, false, m));
      withChild.(rules := withChild.rules + [IfNotNullRule(p, NotBlankInit(m, init))])
    case WithValue(block) => n.(rules := n.rules + [block])
  }

  function ApplyEdit(n: Node, e: Edit): Node
    decreases e
  {
    match e
    case Constrain(c) => n.(constraints := n.constraints + [c])
    case Bind(p, init) => AddChildValidation(n, p, init, false, n.nullMessage)
    case Each(p, init) => AddChildValidation(n, p, init, true, n.nullMessage)
    case FailFast(b) => n.(failFast := b)
  }

  function ApplyEdits(n: Node, es: seq<Edit>): Node
  {
    if es == [] then n else ApplyEdit(ApplyEdits(n, es[..|es| - 1]), es[|es| - 1])
  }

  /** Each rule run in turn on the fresh node, with the value. */
  function ApplyRules(n: Node, rules: seq<Rule>, v: Value): Node
  {
    if rules == [] then n else ApplyEdits(ApplyRules(n, rules[..|rules| - 1], v), rules[|rules| - 1](v))
  }

  /** The fresh node of `validate`: same path and current `failFast`, default flags, with every rule run on it. */
  function Ephemeral(n: Node, v: Value): Node
  {
    ApplyRules(NewNode(n.path, false, n.failFast, DefaultNullMessage), n.rules, v)
  }

  /** The failing constraints' errors, in declared order. */
  function Failures(cs: seq<ConstraintValue>, path: string, v: Value): seq<ValidationError>
  {
    if cs == [] then []
    else Failures(cs[..|cs| - 1], path, v) +
         (match cs[|cs| - 1].Check(path, v) case Some(e) => [e] case None => [])
  }

  /** The node's own errors: every failure, or with `failFast` only the first. */
  function OwnErrors(n: Node, v: Value): seq<ValidationError>
  {
    var fs := Failures(n.constraints, n.path, v);
    if n.failFast && |fs| > 1 then fs[..1] else fs
  }

  /** `indexed(property, i)` applied to each error. */
  function IndexAll(es: seq<ValidationError>, property: string, i: int): (r: seq<ValidationError>)
    ensures |r| == |es|
    ensures forall j :: 0 <= j < |es| ==> r[j] == es[j].Indexed(property, i)
  {
    seq(|es|, j requires 0 <= j < |es| => es[j].Indexed(property, i))
  }

  /** The errors `validate` collects for a node and a value, in order. */
  function Eval(n: Node, v: Value): seq<ValidationError>
    decreases Size(v), if n.rules == [] then 3 else 6
  {
    if v == Null then [ValidationError(n.path, n.nullMessage)]
    else OwnErrors(n, v) + (if n.rules == [] then [] else DynamicErrors(n, v)) + ChildErrors(n.bindings, v)
  }

  /** A present value: the node's own errors, then its dynamic rules' errors, then its children's. */
  lemma {:induction false} EvalPresent(n: Node, v: Value, own: seq<ValidationError>, dynamic: seq<ValidationError>, children: seq<ValidationError>)
    requires v != Null && own == OwnErrors(n, v) && children == ChildErrors(n.bindings, v)
    requires dynamic == if n.rules == [] then [] else DynamicErrors(n, v)
    ensures Eval(n, v) == own + dynamic + children
  {
  }

  /** The errors of the fresh node the dynamic rules build. */
  function DynamicErrors(n: Node, v: Value): seq<ValidationError>
    requires v != Null
    decreases Size(v), 5
  {
    RulesErrors(n.path, n.failFast, n.rules, v)
  }

  /** The errors of a fresh node at `path` after every rule ran on it with the value. */
  function RulesErrors(path: string, failFast: bool, rules: seq<Rule>, v: Value): seq<ValidationError>
    requires v != Null
    decreases Size(v), 4
  {
    var start := NewNode(path, false, failFast, DefaultNullMessage);
    ApplyRulesKeepsRules(start, rules, v);
    Eval(ApplyRules(start, rules, v), v)
  }

  /** The dynamic errors are those of `Ephemeral(n, v)`, which has no rules of its own. */
  lemma {:induction false} DynamicErrorsOfEphemeral(n: Node, v: Value)
    requires v != Null
    ensures Ephemeral(n, v).rules == []
    ensures DynamicErrors(n, v) == Eval(Ephemeral(n, v), v)
  {
    EphemeralHasNoRules(n, v);
  }

  /** The errors of the dynamic step are those of the node the rules build. */
  lemma {:induction false} RulesErrorsOfNode(path: string, failFast: bool, rules: seq<Rule>, v: Value, d: Node)
    requires v != Null && d == ApplyRules(NewNode(path, false, failFast, DefaultNullMessage), rules, v)
    ensures RulesErrors(path, failFast, rules, v) == Eval(d, v)
  {
  }

  /** The bindings in order; within a binding its nodes in order. */
  function ChildErrors(bs: seq<Binding>, v: Value): seq<ValidationError>
    requires v != Null
    decreases Size(v), 2, |bs|
  {
    if bs == [] then []
    else ChildErrors(bs[..|bs| - 1], v) + NodesErrors(bs[|bs| - 1].nodes, bs[|bs| - 1].property, v)
  }

  /** A property's nodes, run on the property's value (on each element for an `each` node). */
  function NodesErrors(ns: seq<Node>, property: string, v: Value): seq<ValidationError>
    requires v != Null
    decreases Size(v), 1, |ns|
  {
    if ns == [] then []
    else NodesErrors(ns[..|ns| - 1], property, v) + NodeErrors(ns[|ns| - 1], property, v)
  }

  /** One node of a property: on each element for an `each` node, on the property's value otherwise. */
  function NodeErrors(m: Node, property: string, v: Value): seq<ValidationError>
    requires v != Null
    decreases Size(v), 0, 1
  {
    if m.elements then ElementsErrors(m, property, v, |Elements(Get(v, property))|)
    else (GetSmaller(v, property); Eval(m, Get(v, property)))
  }

  /** A plain node of a property sees the property's value. */
  lemma {:induction false} PlainNodeErrorsAt(m: Node, property: string, v: Value)
    requires v != Null && !m.elements
    ensures NodeErrors(m, property, v) == Eval(m, Get(v, property))
  {
  }

  /** The first `k` elements of the property's collection, each error path indexed by the element's position. */
  function ElementsErrors(m: Node, property: string, v: Value, k: nat): seq<ValidationError>
    requires v != Null && k <= |Elements(Get(v, property))|
    decreases Size(v), 0, 0, k
  {
    if k == 0 then []
    else
      PropertyElementSmaller(v, property, k - 1);
      ElementsErrors(m, property, v, k - 1) + IndexAll(Eval(m, Elements(Get(v, property))[k - 1]), property, k - 1)
  }
  /** One element more: its errors, indexed by its position, come after those of the earlier elements. */
  lemma {:induction false} ElementsErrorsStep(m: Node, property: string, v: Value, k: nat)
    requires v != Null && k < |Elements(Get(v, property))|
    ensures ElementsErrors(m, property, v, k + 1) ==
            ElementsErrors(m, property, v, k) + IndexAll(Eval(m, Elements(Get(v, property))[k]), property, k)
  {
  }


  /** `validate(value)`: `Success` iff no error was collected; the value is carried unchanged. */
  function Validate(n: Node, v: Value): (r: ValidationResult<Value>)
    ensures r.value == v
    ensures r.Success? <==> Eval(n, v) == []
    ensures r.Failure? ==> r.AllErrors() == Eval(n, v)
  {
    var es := Eval(n, v);
    if es == [] then Success(v) else FailureWith(v, es)
  }

  /** Edits never register rules, so the fresh node's rules stay as they were. */
  lemma {:induction false} ApplyEditKeepsRules(n: Node, e: Edit)
    ensures ApplyEdit(n, e).rules == n.rules
  {
    match e
    case Constrain(_) =>
    case Bind(p, init) =>
    case Each(p, init) =>
    case FailFast(_) =>
  }

  lemma {:induction false} ApplyEditsKeepsRules(n: Node, es: seq<Edit>)
    ensures ApplyEdits(n, es).rules == n.rules
  {
    if es != [] {
      ApplyEditsKeepsRules(n, es[..|es| - 1]);
      ApplyEditKeepsRules(ApplyEdits(n, es[..|es| - 1]), es[|es| - 1]);
    }
  }

  lemma {:induction false} ApplyRulesKeepsRules(n: Node, rules: seq<Rule>, v: Value)
    ensures ApplyRules(n, rules, v).rules == n.rules
  {
    if rules != [] {
      ApplyRulesKeepsRules(n, rules[..|rules| - 1], v);
      ApplyEditsKeepsRules(ApplyRules(n, rules[..|rules| - 1], v), rules[|rules| - 1](v));
    }
  }

  /** The fresh node of the dynamic rules has none of its own. */
  lemma {:induction false} EphemeralHasNoRules(n: Node, v: Value)
    ensures Ephemeral(n, v).rules == []
  {
    ApplyRulesKeepsRules(NewNode(n.path, false, n.failFast, DefaultNullMessage), n.rules, v);
  }
}
