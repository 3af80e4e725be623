/** What `validate` and the builder calls guarantee, proved about the rule-tree semantics. */
module RuleTreeFacts {
  import opened Wrappers
  import opened Values
  import opened Text
  import opened PathError
  import opened Results
  import opened Constraints
  import opened RuleTree

  // ----- unfolding the builder one call at a time -----

  lemma {:induction false} ApplySnoc(n: Node, ops: seq<Op>, op: Op)
    ensures Apply(n, ops + [op]) == ApplyOp(Apply(n, ops), op)
  {
    assert (ops + [op])[..|ops|] == ops;
  }

  lemma {:induction false} ApplyEditsSnoc(n: Node, es: seq<Edit>, e: Edit)
    ensures ApplyEdits(n, es + [e]) == ApplyEdit(ApplyEdits(n, es), e)
  {
    assert (es + [e])[..|es|] == es;
  }

  lemma {:induction false} ApplyRulesSnoc(n: Node, rules: seq<Rule>, r: Rule, v: Value)
    ensures ApplyRules(n, rules + [r], v) == ApplyEdits(ApplyRules(n, rules, v), r(v))
  {
    assert (rules + [r])[..|rules|] == rules;
  }

  /** The fresh node for one more rule is the old fresh node with that rule's calls applied. */
  lemma {:induction false} EphemeralSnoc(n: Node, r: Rule, v: Value)
    ensures Ephemeral(n.(rules := n.rules + [r]), v) == ApplyEdits(Ephemeral(n, v), r(v))
  {
    ApplyRulesSnoc(NewNode(n.path, false, n.failFast, DefaultNullMessage), n.rules, r, v);
  }

  // ----- null values -----

  /** A null value fails with exactly the node's null message at its path; nothing else is consulted. */
  lemma {:induction false} NullShortCircuits(n: Node)
    ensures Eval(n, Null) == [ValidationError(n.path, n.nullMessage)]
    ensures Validate(n, Null) == FailureAt(Null, n.path, n.nullMessage)
  {
  }

  // ----- own constraints and fail-fast -----

  /** The failures of a concatenation are the failures of each part, in order. */
  lemma {:induction false} FailuresAppend(a: seq<ConstraintValue>, b: seq<ConstraintValue>, path: string, v: Value)
    ensures Failures(a + b, path, v) == Failures(a, path, v) + Failures(b, path, v)
    decreases |b|
  {
    if b == [] {
      assert a + b == a;
    } else {
      FailuresAppend(a, b[..|b| - 1], path, v);
      assert (a + b)[..|a + b| - 1] == a + b[..|b| - 1];
      assert (a + b)[|a + b| - 1] == b[|b| - 1];
    }
  }

  /** With `failFast`, the failures up to the first one are all that is kept. */
  lemma {:induction false} FailFastStopsAt(cs: seq<ConstraintValue>, i: nat, path: string, v: Value)
    requires i <= |cs| && |Failures(cs[..i], path, v)| == 1
    ensures var fs := Failures(cs, path, v); (if |fs| > 1 then fs[..1] else fs) == Failures(cs[..i], path, v)
  {
    FailuresAppend(cs[..i], cs[i..], path, v);
    assert cs[..i] + cs[i..] == cs;
  }

  /** No error iff every constraint holds. */
  lemma {:induction false} FailuresEmptyIffAllPass(cs: seq<ConstraintValue>, path: string, v: Value)
    ensures Failures(cs, path, v) == [] <==> forall i :: 0 <= i < |cs| ==> cs[i].accepts(v)
  {
    if cs != [] {
      var init := cs[..|cs| - 1];
      FailuresEmptyIffAllPass(init, path, v);
      assert forall i :: 0 <= i < |init| ==> init[i] == cs[i];
    }
  }

  /** Every error is at the node's path and carries the message of a failing constraint, one per failing constraint. */
  lemma {:induction false} FailuresAreFailingConstraints(cs: seq<ConstraintValue>, path: string, v: Value)
    ensures |Failures(cs, path, v)| == |FailingIndices(cs, v)|
    ensures forall j :: 0 <= j < |Failures(cs, path, v)| ==>
      Failures(cs, path, v)[j] == ValidationError(path, cs[FailingIndices(cs, v)[j]].message(v))
  {
    if cs != [] {
      var init := cs[..|cs| - 1];
      FailuresAreFailingConstraints(init, path, v);
      assert forall i :: 0 <= i < |init| ==> init[i] == cs[i];
    }
  }

  /** Reference: the positions of the failing constraints, in increasing order. */
  function FailingIndices(cs: seq<ConstraintValue>, v: Value): (r: seq<nat>)
    ensures forall j :: 0 <= j < |r| ==> r[j] < |cs|
  {
    if cs == [] then []
    else FailingIndices(cs[..|cs| - 1], v) + (if cs[|cs| - 1].accepts(v) then [] else [|cs| - 1])
  }

  /** The failing-index list is exactly the failing positions, each once, in increasing order. */
  lemma {:induction false} FailingIndicesExact(cs: seq<ConstraintValue>, v: Value)
    ensures forall j, k :: 0 <= j < k < |FailingIndices(cs, v)| ==> FailingIndices(cs, v)[j] < FailingIndices(cs, v)[k]
    ensures forall i :: 0 <= i < |cs| ==> (i in FailingIndices(cs, v) <==> !cs[i].accepts(v))
  {
    if cs != [] {
      var init := cs[..|cs| - 1];
      FailingIndicesExact(init, v);
      assert forall i :: 0 <= i < |init| ==> init[i] == cs[i];
    }
  }

  /** The first error is the first failing constraint's. */
  lemma {:induction false} FailuresStartWithFirstFailure(cs: seq<ConstraintValue>, path: string, v: Value, i: nat)
    requires i < |cs| && !cs[i].accepts(v) && forall j :: 0 <= j < i ==> cs[j].accepts(v)
    ensures Failures(cs, path, v) != [] && Failures(cs, path, v)[0] == ValidationError(path, cs[i].message(v))
  {
    FailuresAppend(cs[..i], cs[i..], path, v);
    assert cs[..i] + cs[i..] == cs;
    FailuresEmptyIffAllPass(cs[..i], path, v);
    FailuresAppend([cs[i]], cs[i + 1..], path, v);
    assert [cs[i]] + cs[i + 1..] == cs[i..];
    assert Failures([cs[i]], path, v) == Failures([], path, v) + [ValidationError(path, cs[i].message(v))];
  }

  /** With `failFast`, at most one own error: the first failing constraint's, or none when all hold. */
  lemma {:induction false} FailFastReportsFirstFailure(n: Node, v: Value)
    requires n.failFast
    ensures |OwnErrors(n, v)| <= 1
    ensures OwnErrors(n, v) == [] <==> forall i :: 0 <= i < |n.constraints| ==> n.constraints[i].accepts(v)
    ensures forall i :: 0 <= i < |n.constraints| && !n.constraints[i].accepts(v) &&
                        (forall j :: 0 <= j < i ==> n.constraints[j].accepts(v)) ==>
              OwnErrors(n, v) == [ValidationError(n.path, n.constraints[i].message(v))]
  {
    FailuresEmptyIffAllPass(n.constraints, n.path, v);
    forall i | 0 <= i < |n.constraints| && !n.constraints[i].accepts(v) &&
               (forall j :: 0 <= j < i ==> n.constraints[j].accepts(v))
      ensures OwnErrors(n, v) == [ValidationError(n.path, n.constraints[i].message(v))]
    {
      FailuresStartWithFirstFailure(n.constraints, n.path, v, i);
    }
  }

  /** Without `failFast`, one own error per failing constraint, in declared order. */
  lemma {:induction false} NoFailFastReportsEveryFailure(n: Node, v: Value)
    requires !n.failFast
    ensures OwnErrors(n, v) == Failures(n.constraints, n.path, v)
    ensures |OwnErrors(n, v)| == |FailingIndices(n.constraints, v)|
    ensures forall j :: 0 <= j < |OwnErrors(n, v)| ==>
      OwnErrors(n, v)[j] == ValidationError(n.path, n.constraints[FailingIndices(n.constraints, v)[j]].message(v))
  {
    FailuresAreFailingConstraints(n.constraints, n.path, v);
  }

  // ----- order of the error list -----

  /** The child errors of the bindings of a concatenation, in order. */
  lemma {:induction false} ChildErrorsAppend(a: seq<Binding>, b: seq<Binding>, v: Value)
    requires v != Null
    ensures ChildErrors(a + b, v) == ChildErrors(a, v) + ChildErrors(b, v)
    decreases |b|
  {
    if b == [] {
      assert a + b == a;
    } else {
      ChildErrorsAppend(a, b[..|b| - 1], v);
      assert (a + b)[..|a + b| - 1] == a + b[..|b| - 1];
      assert (a + b)[|a + b| - 1] == b[|b| - 1];
    }
  }

  /**
   * For a present value the error list is the own errors, then the dynamic rules'
   * errors, then the children's; and `Success` holds iff all three are empty.
   * Fail-fast and failing own constraints never stop the children from running.
   */
  lemma {:induction false} ErrorOrder(n: Node, v: Value)
    requires v != Null
    ensures |OwnErrors(n, v)| <= |Eval(n, v)|
    ensures Eval(n, v)[..|OwnErrors(n, v)|] == OwnErrors(n, v)
    ensures |ChildErrors(n.bindings, v)| <= |Eval(n, v)|
    ensures Eval(n, v)[|Eval(n, v)| - |ChildErrors(n.bindings, v)|..] == ChildErrors(n.bindings, v)
    ensures Validate(n, v).Success? <==>
      OwnErrors(n, v) == [] && (n.rules == [] || DynamicErrors(n, v) == []) && ChildErrors(n.bindings, v) == []
  {
    var own := OwnErrors(n, v);
    var dyn := if n.rules == [] then [] else DynamicErrors(n, v);
    var kids := ChildErrors(n.bindings, v);
    assert Eval(n, v) == own + dyn + kids;
    assert (own + dyn + kids)[..|own|] == own;
    assert (own + dyn + kids)[|own + dyn|..] == kids;
  }

  /** A node with no constraints, bindings or rules accepts every present value. */
  lemma {:induction false} BareNodeAccepts(path: string, elements: bool, failFast: bool, nullMessage: string, v: Value)
    requires v != Null
    ensures Eval(NewNode(path, elements, failFast, nullMessage), v) == []
  {
  }

  // ----- child paths and the builder -----

  lemma {:induction false} ApplyEditKeepsHeader(n: Node, e: Edit)
    ensures ApplyEdit(n, e).path == n.path
    ensures ApplyEdit(n, e).elements == n.elements
    ensures ApplyEdit(n, e).nullMessage == n.nullMessage
  {
    match e
    case Constrain(_) =>
    case Bind(p, init) =>
    case Each(p, init) =>
    case FailFast(_) =>
  }

  lemma {:induction false} ApplyOpKeepsHeader(n: Node, op: Op)
    ensures ApplyOp(n, op).path == n.path
    ensures ApplyOp(n, op).elements == n.elements
    ensures ApplyOp(n, op).nullMessage == n.nullMessage
  {
    match op
    case Do(e) => ApplyEditKeepsHeader(n, e);
    case WhenIs(_, _, _) =>
    case IfNotNull(_, _) =>
    case NotNull(_, _, _) =>
    case NotNullOrBlank(_, _, _) =>
    case WithValue(_) =>
  }

  /** The builder never changes a node's path, element flag or null message. */
  lemma {:induction false} ApplyKeepsHeader(n: Node, ops: seq<Op>)
    ensures Apply(n, ops).path == n.path
    ensures Apply(n, ops).elements == n.elements
    ensures Apply(n, ops).nullMessage == n.nullMessage
  {
    if ops != [] {
      ApplyKeepsHeader(n, ops[..|ops| - 1]);
      ApplyOpKeepsHeader(Apply(n, ops[..|ops| - 1]), ops[|ops| - 1]);
    }
  }

  lemma {:induction false} ApplyEditsKeepsHeader(n: Node, es: seq<Edit>)
    ensures ApplyEdits(n, es).path == n.path
    ensures ApplyEdits(n, es).elements == n.elements
    ensures ApplyEdits(n, es).nullMessage == n.nullMessage
  {
    if es != [] {
      ApplyEditsKeepsHeader(n, es[..|es| - 1]);
      ApplyEditKeepsHeader(ApplyEdits(n, es[..|es| - 1]), es[|es| - 1]);
    }
  }

  lemma {:induction false} ApplyRulesKeepsHeader(n: Node, rules: seq<Rule>, v: Value)
    ensures ApplyRules(n, rules, v).path == n.path
    ensures ApplyRules(n, rules, v).elements == n.elements
    ensures ApplyRules(n, rules, v).nullMessage == n.nullMessage
  {
    if rules != [] {
      ApplyRulesKeepsHeader(n, rules[..|rules| - 1], v);
      ApplyEditsKeepsHeader(ApplyRules(n, rules[..|rules| - 1], v), rules[|rules| - 1](v));
    }
  }

  /** The fresh node of the dynamic rules reuses the node's path, validates no collection and has the default null message. */
  lemma {:induction false} EphemeralHeader(n: Node, v: Value)
    ensures Ephemeral(n, v).path == n.path
    ensures !Ephemeral(n, v).elements
    ensures Ephemeral(n, v).nullMessage == DefaultNullMessage
    ensures Ephemeral(n, v).rules == []
  {
    ApplyRulesKeepsHeader(NewNode(n.path, false, n.failFast, DefaultNullMessage), n.rules, v);
    EphemeralHasNoRules(n, v);
  }

  /**
   * Binding a property adds, under that property, the child that `init` builds
   * from a node at the extended path with the current `failFast`; all other
   * bindings are kept, and a new property goes last.
   */
  lemma {:induction false} BindAddsChild(n: Node, property: string, init: seq<Op>)
    requires DistinctProperties(n.bindings)
    ensures var child := Apply(NewNode(AppendToPropertyPath(n.path, property), false, n.failFast, n.nullMessage), init);
            var r := ApplyEdit(n, Bind(property, init));
            r == n.(bindings := AddChild(n.bindings, property, child)) &&
            child.path == AppendToPropertyPath(n.path, property) &&
            r.path == n.path && r.failFast == n.failFast && r.constraints == n.constraints && r.rules == n.rules &&
            DistinctProperties(r.bindings) &&
            |r.bindings| == (if property in Properties(n.bindings) then |n.bindings| else |n.bindings| + 1) &&
            (property !in Properties(n.bindings) ==> r.bindings == n.bindings + [Binding(property, [child])]) &&
            (forall i :: 0 <= i < |n.bindings| ==> r.bindings[i].property == n.bindings[i].property) &&
            (forall i :: 0 <= i < |n.bindings| ==>
               r.bindings[i].nodes == if n.bindings[i].property == property then n.bindings[i].nodes + [child] else n.bindings[i].nodes)
  {
    var child := Apply(NewNode(AppendToPropertyPath(n.path, property), false, n.failFast, n.nullMessage), init);
    ApplyKeepsHeader(NewNode(AppendToPropertyPath(n.path, property), false, n.failFast, n.nullMessage), init);
    AddChildShape(n.bindings, property, child);
  }

  /** The child path examples: a blank parent path gives the property alone, otherwise the dotted join. */
  lemma {:induction false} ChildPathExamples()
    ensures AppendToPropertyPath("", "name") == "name"
    ensures AppendToPropertyPath("   ", "name") == "name"
    ensures AppendToPropertyPath("address", "city") == "address.city"
  {
    assert IsBlank("   ") by {
      assert "   "[1..] == "  " && "  "[1..] == " " && " "[1..] == "";
    }
    assert !IsBlank("address");
  }

  // ----- fail-fast is copied when a child is created -----

  /** The `failFast` value the top-level calls leave: the last `failFast(b)`, or the initial one. */
  function LastFailFast(ops: seq<Op>, initial: bool): bool
  {
    if ops == [] then initial
    else match ops[|ops| - 1]
      case Do(FailFast(b)) => b
      case _ => LastFailFast(ops[..|ops| - 1], initial)
  }

  lemma {:induction false} ApplyEditFailFast(n: Node, e: Edit)
    ensures ApplyEdit(n, e).failFast == if e.FailFast? then e.failFast else n.failFast
  {
    match e
    case Constrain(_) =>
    case Bind(p, init) =>
    case Each(p, init) =>
    case FailFast(_) =>
  }

  /** Nothing but `failFast(b)` changes the flag. */
  lemma {:induction false} ApplyOpFailFast(n: Node, op: Op)
    ensures ApplyOp(n, op).failFast == if op.Do? && op.edit.FailFast? then op.edit.failFast else n.failFast
  {
    match op
    case Do(e) => ApplyEditFailFast(n, e);
    case WhenIs(_, _, _) =>
    case IfNotNull(_, _) =>
    case NotNull(_, _, _) =>
    case NotNullOrBlank(_, _, _) =>
    case WithValue(_) =>
  }

  lemma {:induction false} ApplyFailFast(n: Node, ops: seq<Op>)
    ensures Apply(n, ops).failFast == LastFailFast(ops, n.failFast)
  {
    if ops != [] {
      ApplyFailFast(n, ops[..|ops| - 1]);
      ApplyOpFailFast(Apply(n, ops[..|ops| - 1]), ops[|ops| - 1]);
    }
  }

  /**
   * `failFast(b)` changes only the node's own flag: children bound earlier keep
   * the value they copied, and a child bound afterwards starts with `b`.
   */
  lemma {:induction false} FailFastAffectsLaterChildrenOnly(n: Node, b: bool, property: string, init: seq<Op>)
    requires property !in Properties(n.bindings)
    ensures ApplyEdit(n, FailFast(b)).bindings == n.bindings
    ensures Apply(n, [Do(FailFast(b)), Do(Bind(property, init))]).bindings ==
            n.bindings + [Binding(property, [Apply(NewNode(AppendToPropertyPath(n.path, property), false, b, n.nullMessage), init)])]
  {
    var n1 := n.(failFast := b);
    ApplySnoc(n, [], Do(FailFast(b)));
    ApplySnoc(n, [Do(FailFast(b))], Do(Bind(property, init)));
    assert [Do(FailFast(b))] + [Do(Bind(property, init))] == [Do(FailFast(b)), Do(Bind(property, init))];
    assert Apply(n, [Do(FailFast(b)), Do(Bind(property, init))]) == ApplyEdit(n1, Bind(property, init));
    var child := Apply(NewNode(AppendToPropertyPath(n.path, property), false, b, n.nullMessage), init);
    assert ApplyEdit(n1, Bind(property, init)) == n1.(bindings := AddChild(n.bindings, property, child));
    AddChildShape(n.bindings, property, child);
  }

  // ----- bindings -----

  lemma {:induction false} NodesErrorsAppend(a: seq<Node>, b: seq<Node>, property: string, v: Value)
    requires v != Null
    ensures NodesErrors(a + b, property, v) == NodesErrors(a, property, v) + NodesErrors(b, property, v)
    decreases |b|
  {
    if b == [] {
      assert a + b == a;
    } else {
      NodesErrorsAppend(a, b[..|b| - 1], property, v);
      assert (a + b)[..|a + b| - 1] == a + b[..|b| - 1];
      assert (a + b)[|a + b| - 1] == b[|b| - 1];
    }
  }

  /** The errors of one more binding come after all earlier ones. */
  lemma {:induction false} ChildErrorsSnoc(bs: seq<Binding>, b: Binding, v: Value)
    requires v != Null
    ensures ChildErrors(bs + [b], v) == ChildErrors(bs, v) + NodesErrors(b.nodes, b.property, v)
  {
    assert (bs + [b])[..|bs|] == bs;
  }

  /** The entries' errors, one entry more: how `validate` walks them. */
  lemma {:induction false} ChildErrorsPrefix(bs: seq<Binding>, i: nat, v: Value)
    requires v != Null && i < |bs|
    ensures ChildErrors(bs[..i + 1], v) == ChildErrors(bs[..i], v) + NodesErrors(bs[i].nodes, bs[i].property, v)
  {
    assert bs[..i + 1][..i] == bs[..i];
  }

  /** A property's errors, one node more: how `validate` walks a property's validations. */
  lemma {:induction false} NodesErrorsPrefix(ns: seq<Node>, j: nat, property: string, v: Value)
    requires v != Null && j < |ns|
    ensures NodesErrors(ns[..j + 1], property, v) == NodesErrors(ns[..j], property, v) + NodeErrors(ns[j], property, v)
  {
    assert ns[..j + 1][..j] == ns[..j];
  }

  /** A plain child node sees the property's value. */
  lemma {:induction false} PlainNodeErrors(m: Node, property: string, v: Value)
    requires v != Null && !m.elements
    ensures NodesErrors([m], property, v) == Eval(m, Get(v, property))
  {
    assert [m][..0] == [];
  }

  /** Two plain child nodes of one property: the first one's errors, then the second one's. */
  lemma {:induction false} TwoPlainNodesErrors(a: Node, b: Node, property: string, v: Value)
    requires v != Null && !a.elements && !b.elements
    ensures NodesErrors([a, b], property, v) == Eval(a, Get(v, property)) + Eval(b, Get(v, property))
  {
    assert [a, b][..1] == [a];
    PlainNodeErrors(a, property, v);
  }

  /** Adding a binding to a node adds that binding's errors at the end of the node's errors. */
  lemma {:induction false} EvalWithBinding(n: Node, b: Binding, v: Value)
    requires v != Null
    ensures Eval(n.(bindings := n.bindings + [b]), v) == Eval(n, v) + NodesErrors(b.nodes, b.property, v)
  {
    var n' := n.(bindings := n.bindings + [b]);
    assert Ephemeral(n', v) == Ephemeral(n, v);
    ChildErrorsSnoc(n.bindings, b, v);
  }

  /** The bindings after binding a new property a first time. */
  lemma {:induction false} BindNewProperty(n: Node, property: string, child: Node)
    requires property !in Properties(n.bindings)
    ensures BindChild(n, property, child) == n.(bindings := n.bindings + [Binding(property, [child])])
  {
    AddChildShape(n.bindings, property, child);
  }

  /** A second child for the property bound last joins that last entry. */
  lemma {:induction false} AddChildToLast(bs: seq<Binding>, property: string, a: Node, b: Node)
    requires property !in Properties(bs)
    ensures AddChild(bs + [Binding(property, [a])], property, b) == bs + [Binding(property, [a, b])]
  {
    var xs := bs + [Binding(property, [a])];
    if bs == [] {
      assert xs == [Binding(property, [a])];
      assert [a] + [b] == [a, b];
    } else {
      assert Properties(bs)[0] == bs[0].property;
      assert Properties(bs[1..]) == Properties(bs)[1..];
      assert xs[0] == bs[0] && xs[1..] == bs[1..] + [Binding(property, [a])];
      AddChildToLast(bs[1..], property, a, b);
      assert Properties(xs)[0] == bs[0].property;
      assert AddChild(xs, property, b) == [bs[0]] + AddChild(xs[1..], property, b);
      assert [bs[0]] + (bs[1..] + [Binding(property, [a, b])]) == bs + [Binding(property, [a, b])];
    }
  }

  /** Binding the same property twice keeps one entry with both nodes, in order. */
  lemma {:induction false} SamePropertyTwiceBindings(n: Node, property: string, a: Node, b: Node)
    requires property !in Properties(n.bindings)
    ensures AddChild(AddChild(n.bindings, property, a), property, b) == n.bindings + [Binding(property, [a, b])]
  {
    AddChildShape(n.bindings, property, a);
    AddChildToLast(n.bindings, property, a, b);
  }

  /** Two `bind` calls on one new property: one entry holding both child nodes, in order. */
  lemma {:induction false} BindTwice(n: Node, property: string, first: seq<Op>, second: seq<Op>)
    requires property !in Properties(n.bindings)
    ensures var base := ChildNode(n, property, false, n.nullMessage);
            ApplyEdit(ApplyEdit(n, Bind(property, first)), Bind(property, second)) ==
            n.(bindings := n.bindings + [Binding(property, [Apply(base, first), Apply(base, second)])])
  {
    var base := ChildNode(n, property, false, n.nullMessage);
    var a := Apply(base, first);
    var b := Apply(base, second);
    var n1 := BindChild(n, property, a);
    assert ApplyEdit(n, Bind(property, first)) == n1;
    assert ChildNode(n1, property, false, n1.nullMessage) == base;
    SamePropertyTwiceBindings(n, property, a, b);
  }

  /** Binding the same property twice keeps one entry with both nodes, and both run, in order. */
  lemma {:induction false} SamePropertyTwice(n: Node, property: string, first: seq<Op>, second: seq<Op>, v: Value)
    requires v != Null && property !in Properties(n.bindings)
    ensures var n2 := ApplyEdit(ApplyEdit(n, Bind(property, first)), Bind(property, second));
            var base := ChildNode(n, property, false, n.nullMessage);
            Eval(n2, v) == Eval(n, v) + Eval(Apply(base, first), Get(v, property)) + Eval(Apply(base, second), Get(v, property))
  {
    var base := ChildNode(n, property, false, n.nullMessage);
    BindTwice(n, property, first, second);
    ApplyKeepsHeader(base, first);
    ApplyKeepsHeader(base, second);
    EvalWithTwoPlainNodes(n, property, Apply(base, first), Apply(base, second), v);
  }

  /** A binding of two plain nodes adds the errors of the first and then of the second. */
  lemma {:induction false} EvalWithTwoPlainNodes(n: Node, property: string, a: Node, b: Node, v: Value)
    requires v != Null && !a.elements && !b.elements
    ensures Eval(n.(bindings := n.bindings + [Binding(property, [a, b])]), v) ==
            Eval(n, v) + Eval(a, Get(v, property)) + Eval(b, Get(v, property))
  {
    EvalWithBinding(n, Binding(property, [a, b]), v);
    TwoPlainNodesErrors(a, b, property, v);
    var e, ea, eb := Eval(n, v), Eval(a, Get(v, property)), Eval(b, Get(v, property));
    assert e + (ea + eb) == e + ea + eb;
  }

  // ----- collection elements -----

  /** An `each` node over an empty collection reports nothing. */
  lemma {:induction false} EachOverEmptyCollection(m: Node, property: string, v: Value)
    requires v != Null && m.elements && Elements(Get(v, property)) == []
    ensures NodesErrors([m], property, v) == []
  {
    assert [m][..0] == [];
    assert NodeErrors(m, property, v) == [];
  }

  lemma {:induction false} IndexAllMembers(es: seq<ValidationError>, property: string, i: int)
    ensures forall e :: e in IndexAll(es, property, i) <==> exists d :: d in es && e == d.Indexed(property, i)
  {
    forall e | e in IndexAll(es, property, i)
      ensures exists d :: d in es && e == d.Indexed(property, i)
    {
      var j :| 0 <= j < |es| && IndexAll(es, property, i)[j] == e;
      assert es[j] in es;
    }
    forall d | d in es
      ensures d.Indexed(property, i) in IndexAll(es, property, i)
    {
      var j :| 0 <= j < |es| && es[j] == d;
      assert IndexAll(es, property, i)[j] == d.Indexed(property, i);
    }
  }

  /**
   * The first `k` elements' errors of an `each` node are exactly the errors of
   * those elements, each rewritten by `indexed(property, i)` for its element's position `i`.
   */
  ghost predicate ElementsIndexed(m: Node, property: string, v: Value, k: nat)
    requires v != Null && k <= |Elements(Get(v, property))|
  {
    forall e :: e in ElementsErrors(m, property, v, k) <==>
      exists i, d :: 0 <= i < k && d in Eval(m, Elements(Get(v, property))[i]) && e == d.Indexed(property, i)
  }

  /** The errors of an `each` node are exactly its elements' errors, indexed by position. */
  lemma {:induction false} ElementsErrorsAreIndexed(m: Node, property: string, v: Value, k: nat)
    requires v != Null && k <= |Elements(Get(v, property))|
    ensures ElementsIndexed(m, property, v, k)
  {
    if k > 0 {
      ElementsErrorsAreIndexed(m, property, v, k - 1);
      ElementsErrorsIndexedStep(m, property, v, k);
    }
  }

  lemma {:induction false} ElementsErrorsIndexedStep(m: Node, property: string, v: Value, k: nat)
    requires v != Null && 0 < k <= |Elements(Get(v, property))|
    requires ElementsIndexed(m, property, v, k - 1)
    ensures ElementsIndexed(m, property, v, k)
  {
    ElementsErrorsStep(m, property, v, k - 1);
    IndexedSnoc(ElementsErrors(m, property, v, k - 1), ElementsErrors(m, property, v, k), m, property, Elements(Get(v, property)), k);
  }

  /** One more position: the indexed errors of the last position join those of the earlier ones. */
  lemma {:induction false} IndexedSnoc(prev: seq<ValidationError>, all: seq<ValidationError>, m: Node, property: string, elems: seq<Value>, k: nat)
    requires 0 < k <= |elems| && all == prev + IndexAll(Eval(m, elems[k - 1]), property, k - 1)
    requires forall e :: e in prev <==> exists i, d :: 0 <= i < k - 1 && d in Eval(m, elems[i]) && e == d.Indexed(property, i)
    ensures forall e :: e in all <==> exists i, d :: 0 <= i < k && d in Eval(m, elems[i]) && e == d.Indexed(property, i)
  {
    var last := Eval(m, elems[k - 1]);
    IndexAllMembers(last, property, k - 1);
    forall e | e in all
      ensures exists i, d :: 0 <= i < k && d in Eval(m, elems[i]) && e == d.Indexed(property, i)
    {
      if e !in prev {
        var d :| d in last && e == d.Indexed(property, k - 1);
      }
    }
    forall i, d | 0 <= i < k && d in Eval(m, elems[i])
      ensures d.Indexed(property, i) in all
    {
      if i == k - 1 {
        assert d.Indexed(property, i) in IndexAll(last, property, k - 1);
      }
    }
  }

  // ----- dynamic rules -----

  /** A rule that makes no call for this value changes nothing in the result. */
  lemma {:induction false} SilentRuleChangesNothing(n: Node, r: Rule, v: Value)
    requires v != Null && r(v) == []
    ensures Eval(n.(rules := n.rules + [r]), v) == Eval(n, v)
  {
    EphemeralSnoc(n, r, v);
    DynamicErrorsOfEphemeral(n.(rules := n.rules + [r]), v);
    if n.rules == [] {
      assert Ephemeral(n, v) == NewNode(n.path, false, n.failFast, DefaultNullMessage);
      BareNodeAccepts(n.path, false, n.failFast, DefaultNullMessage, v);
    } else {
      DynamicErrorsOfEphemeral(n, v);
    }
  }

  /** `whenIs` contributes nothing when the property differs from the constant. */
  lemma {:induction false} WhenIsOnlyOnMatch(n: Node, property: string, constant: Value, block: Rule, v: Value)
    requires v != Null
    ensures Get(v, property) != constant ==> Eval(ApplyOp(n, WhenIs(property, constant, block)), v) == Eval(n, v)
    ensures Get(v, property) == constant ==>
      Ephemeral(ApplyOp(n, WhenIs(property, constant, block)), v) == ApplyEdits(Ephemeral(n, v), block(v))
  {
    EphemeralSnoc(n, WhenIsRule(property, constant, block), v);
    if Get(v, property) != constant {
      SilentRuleChangesNothing(n, WhenIsRule(property, constant, block), v);
    }
  }

  /** `ifNotNull` contributes nothing on a null property, and binds the property on the fresh node otherwise. */
  lemma {:induction false} IfNotNullOnlyWhenPresent(n: Node, property: string, init: seq<Op>, v: Value)
    requires v != Null
    ensures Get(v, property) == Null ==> Eval(ApplyOp(n, IfNotNull(property, init)), v) == Eval(n, v)
    ensures Get(v, property) != Null ==>
      Ephemeral(ApplyOp(n, IfNotNull(property, init)), v) == ApplyEdit(Ephemeral(n, v), Bind(property, init))
  {
    if Get(v, property) == Null {
      SilentRuleChangesNothing(n, IfNotNullRule(property, init), v);
    } else {
      EphemeralSnoc(n, IfNotNullRule(property, init), v);
      ApplyEditsSnoc(Ephemeral(n, v), [], Bind(property, init));
    }
  }

  /** `notNull(message)` on a null property of a present value: exactly one more error, the custom message at the child path. */
  lemma {:induction false} NotNullOnNullProperty(n: Node, property: string, message: string, init: seq<Op>, v: Value)
    requires v != Null && Get(v, property) == Null && property !in Properties(n.bindings)
    ensures Eval(ApplyOp(n, NotNull(property, message, init)), v) ==
            Eval(n, v) + [ValidationError(AppendToPropertyPath(n.path, property), message)]
  {
    var child := ChildNode(n, property, false, message);
    var withChild := BindChild(n, property, child);
    BindNewProperty(n, property, child);
    SilentRuleChangesNothing(withChild, IfNotNullRule(property, init), v);
    EvalWithBinding(n, Binding(property, [child]), v);
    PlainNodeErrors(child, property, v);
  }

  /** `notNullOrBlank(message)` on a null property of a present value: exactly one more error, the custom message at the child path. */
  lemma {:induction false} NotNullOrBlankOnNullProperty(n: Node, property: string, message: string, init: seq<Op>, v: Value)
    requires v != Null && Get(v, property) == Null && property !in Properties(n.bindings)
    ensures Eval(ApplyOp(n, NotNullOrBlank(property, message, init)), v) ==
            Eval(n, v) + [ValidationError(AppendToPropertyPath(n.path, property), message)]
  {
    var child := ChildNode(n, property, false, message);
    var withChild := BindChild(n, property, child);
    BindNewProperty(n, property, child);
    SilentRuleChangesNothing(withChild, IfNotNullRule(property, NotBlankInit(message, init)), v);
    EvalWithBinding(n, Binding(property, [child]), v);
    PlainNodeErrors(child, property, v);
  }
}
