/**
 * `io.validk.Validation`: the mutable validation node. Its builder methods
 * change the node in place; `Model()` reads the node and everything below
 * it as a `RuleTree.Node`, and every method is proved against the functions
 * of `RuleTree`.
 */
module Validations {
  import opened Values
  import opened PathError
  import opened ErrorList
  import opened Results
  import opened Constraints
  import opened RuleTree
  import opened RuleTreeFacts

  /** The current states of a list of constraint objects, in order. */
  function States(cs: seq<Constraint>): (r: seq<ConstraintValue>)
    reads set i | 0 <= i < |cs| :: cs[i]
    ensures |r| == |cs|
    ensures forall i :: 0 <= i < |cs| ==> r[i] == cs[i].State()
  {
    if cs == [] then [] else States(cs[..|cs| - 1]) + [cs[|cs| - 1].State()]
  }

  lemma {:induction false} StatesSnoc(cs: seq<Constraint>, c: Constraint)
    ensures States(cs + [c]) == States(cs) + [c.State()]
  {
    assert (cs + [c])[..|cs|] == cs;
  }

  /** One entry of `childValidations`: a property and the child validations registered for it, in order. */
  datatype ChildList = ChildList(property: string, validations: seq<Validation>)

  function Keys(cls: seq<ChildList>): (r: seq<string>)
    ensures |r| == |cls|
    ensures forall i :: 0 <= i < |cls| ==> r[i] == cls[i].property
  {
    if cls == [] then [] else [cls[0].property] + Keys(cls[1..])
  }

  /** The entries of a map: no key twice. */
  predicate DistinctKeys(cls: seq<ChildList>)
  {
    forall i, j :: 0 <= i < j < |cls| ==> cls[i].property != cls[j].property
  }

  /**
   * `childValidations.putIfAbsent(property, mutableListOf())` then `childValidations[property]!!.add(child)`
   * on the insertion-ordered map: a new key goes last, a known key keeps its place and gets the child at the end.
   */
  function AddChildList(cls: seq<ChildList>, property: string, child: Validation): (r: seq<ChildList>)
    ensures Keys(r) == if property in Keys(cls) then Keys(cls) else Keys(cls) + [property]
    ensures DistinctKeys(cls) ==> DistinctKeys(r)
  {
    if cls == [] then [ChildList(property, [child])]
    else if cls[0].property == property then [ChildList(property, cls[0].validations + [child])] + cls[1..]
    else
      assert Keys(cls) == [cls[0].property] + Keys(cls[1..]);
      [cls[0]] + AddChildList(cls[1..], property, child)
  }

  /** The block of `ifFailed { errors.addAll(it.errors) }`. */
  function AddAll(errors: seq<ValidationError>, failure: ValidationErrors): seq<ValidationError>
  {
    errors + failure.errors
  }

  /** The block of `ifFailed { errors.addAll(it.errors.map { it.indexed(property, index) }) }`. */
  function AddIndexed(property: string, index: int): (seq<ValidationError>, ValidationErrors) -> seq<ValidationError>
  {
    (errors: seq<ValidationError>, failure: ValidationErrors) => errors + IndexAll(failure.errors, property, index)
  }

  /** Adding a validation's errors after `ifFailed`: nothing on success, every error on failure. */
  lemma {:induction false} AddAllFailures(n: Node, w: Value, errors: seq<ValidationError>)
    ensures RuleTree.Validate(n, w).IfFailed(errors, AddAll) == errors + Eval(n, w)
  {
  }

  lemma {:induction false} AddIndexedFailures(n: Node, w: Value, errors: seq<ValidationError>, property: string, index: int)
    ensures RuleTree.Validate(n, w).IfFailed(errors, AddIndexed(property, index)) ==
              errors + IndexAll(Eval(n, w), property, index)
  {
  }

  class Validation {
    const path: string
    const elements: bool
    const nullMessage: string
    var failFast: bool
    var constraints: seq<Constraint>
    /** `childValidations`, as its entries in insertion order. */
    var childValidations: seq<ChildList>
    var dynamics: seq<Rule>

    /** This node, every node below it, and every constraint object they hold. */
    ghost var Repr: set<object>

    ghost predicate Valid()
      reads this, Repr
      decreases Repr, 1
    {
      this in Repr &&
      (forall i :: 0 <= i < |constraints| ==> constraints[i] in Repr) &&
      ChildrenValid(childValidations, Repr - {this})
    }

    /** The entries have distinct keys and valid child nodes drawn from `frame`. */
    static ghost predicate ChildrenValid(cls: seq<ChildList>, frame: set<object>)
      reads frame
      decreases frame, 3
    {
      DistinctKeys(cls) && forall i :: 0 <= i < |cls| ==> NodesValid(cls[i].validations, frame)
    }

    static ghost predicate NodesValid(ns: seq<Validation>, frame: set<object>)
      reads frame
      decreases frame, 2
    {
      forall j :: 0 <= j < |ns| ==> ns[j] in frame && ns[j].Repr <= frame && ns[j].Valid()
    }

    /** The node and everything under it as a value. */
    ghost function Model(): Node
      reads this, Repr
      requires Valid()
      decreases Repr, 1
    {
      Node(path, elements, failFast, nullMessage, States(constraints),
           BindingsOf(childValidations, Repr - {this}), dynamics)
    }

    /** The entries with the models of their child nodes. */
    static ghost function BindingsOf(cls: seq<ChildList>, frame: set<object>): (r: seq<Binding>)
      reads frame
      requires ChildrenValid(cls, frame)
      ensures |r| == |cls|
      decreases frame, 3, |cls|
    {
      if cls == [] then []
      else [Binding(cls[0].property, ModelsOf(cls[0].validations, frame))] + BindingsOf(cls[1..], frame)
    }

    /** The models of a list of nodes. */
    static ghost function ModelsOf(ns: seq<Validation>, frame: set<object>): (r: seq<Node>)
      reads frame
      requires NodesValid(ns, frame)
      ensures |r| == |ns|
      decreases frame, 2, |ns|
    {
      if ns == [] then [] else [ns[0].Model()] + ModelsOf(ns[1..], frame)
    }

    /** `Validation(propertyPath, validatesCollectionElements, failFast, nullMessage)`: no constraints, children or rules. */
    constructor (path: string, elements: bool, failFast: bool, nullMessage: string)
      ensures Valid() && Model() == NewNode(path, elements, failFast, nullMessage)
      ensures Repr == {this}
    {
      this.path := path;
      this.elements := elements;
      this.failFast := failFast;
      this.nullMessage := nullMessage;
      constraints := [];
      childValidations := [];
      dynamics := [];
      Repr := {this};
    }

    /** `failFast(b)`: from now on, and for children added from now on. */
    method FailFast(b: bool)
      requires Valid()
      modifies this
      ensures Valid() && Model() == ApplyEdit(old(Model()), Edit.FailFast(b))
      ensures Repr == old(Repr)
    {
      failFast := b;
    }

    /** `addConstraint(errorMessage, predicate)`: a new constraint object, appended and returned so that `message` can still change it. */
    method AddConstraint(errorMessage: string, accepts: Value -> bool) returns (c: Constraint)
      requires Valid()
      modifies this
      ensures Valid() && Model() == ApplyEdit(old(Model()), Constrain(Make(errorMessage, accepts)))
      ensures fresh(c) && c.State() == Make(errorMessage, accepts)
      ensures constraints == old(constraints) + [c] && Repr == old(Repr) + {c}
      ensures ChildrenValid(childValidations, Repr - {this, c})
    {
      c := new Constraint.WithText(errorMessage, accepts);
      AppendConstraint(c);
    }

    /** A built-in constraint with its message overrides already applied, as a dynamic block registers it. */
    method AddConstraintValue(cv: ConstraintValue) returns (c: Constraint)
      requires Valid()
      modifies this
      ensures Valid() && Model() == ApplyEdit(old(Model()), Constrain(cv))
      ensures fresh(c) && c.State() == cv
      ensures constraints == old(constraints) + [c] && Repr == old(Repr) + {c}
      ensures ChildrenValid(childValidations, Repr - {this, c})
    {
      c := new Constraint(cv.accepts, cv.message);
      AppendConstraint(c);
    }

    /** Registers the constraint object after the existing ones. */
    method AppendConstraint(c: Constraint)
      requires Valid() && c !in Repr
      modifies this
      ensures Valid() && Model() == old(Model()).(constraints := old(Model()).constraints + [c.State()])
      ensures constraints == old(constraints) + [c] && Repr == old(Repr) + {c}
      ensures ChildrenValid(childValidations, old(Repr) - {this})
    {
      ghost var frame := Repr - {this};
      ghost var cs := constraints;
      constraints, Repr := constraints + [c], Repr + {c};
      StatesUnchanged(cs);
      StatesSnoc(cs, c);
      ChildrenUnchanged((childValidations, frame));
      ChildrenValidGrows(childValidations, frame, Repr - {this});
      SameBindings(childValidations, frame, Repr - {this});
    }

    /** `withValue { block }`: a rule that runs the block with the value being validated. */
    method WithValue(block: Rule)
      requires Valid()
      modifies this
      ensures Valid() && Model() == ApplyOp(old(Model()), Op.WithValue(block))
      ensures Repr == old(Repr)
    {
      dynamics := dynamics + [block];
    }

    /** `property.whenIs(value, block)`: a rule that runs the block when the property equals the constant. */
    method WhenIs(property: string, constant: Value, block: Rule)
      requires Valid()
      modifies this
      ensures Valid() && Model() == ApplyOp(old(Model()), Op.WhenIs(property, constant, block))
      ensures Repr == old(Repr)
    {
      dynamics := dynamics + [WhenIsRule(property, constant, block)];
    }

    /** `property ifNotNull { init }`: a rule that binds the property when the value has it. */
    method IfNotNull(property: string, init: seq<Op>)
      requires Valid()
      modifies this
      ensures Valid() && Model() == ApplyOp(old(Model()), Op.IfNotNull(property, init))
      ensures Repr == old(Repr)
    {
      dynamics := dynamics + [IfNotNullRule(property, init)];
    }

    /** The last step of `addChildValidation`: the child joins its property's entry. */
    method Attach(property: string, child: Validation)
      requires Valid() && child.Valid() && this !in child.Repr
      modifies this
      ensures Valid() && Model() == BindChild(old(Model()), property, old(child.Model()))
      ensures Repr == old(Repr) + old(child.Repr)
    {
      ghost var frame := Repr - {this};
      ghost var f2 := frame + child.Repr;
      var cls := AddChildList(childValidations, property, child);
      AttachBindings(childValidations, frame, property, child, f2);
      childValidations, Repr := cls, Repr + child.Repr;
      ChildrenUnchanged((cls, f2));
      assert Repr - {this} == f2;
    }

    /** A fresh validation at `path`, built by `init`: the child `addChildValidation` creates. */
    static method NewChild(path: string, elements: bool, failFast: bool, nullMessage: string, init: seq<Op>)
      returns (child: Validation)
      ensures child.Valid() && fresh(child.Repr)
      ensures child.Model() == Apply(NewNode(path, elements, failFast, nullMessage), init)
      decreases init, 1
    {
      child := new Validation(path, elements, failFast, nullMessage);
      child.Run(init);
    }

    /** `addChildValidation`: a child under the extended path with the current `failFast`, built by `init`, then bound. */
    method AddChildValidation(property: string, init: seq<Op>, elements: bool, nullMessage: string) returns (child: Validation)
      requires Valid()
      modifies this
      ensures Valid() && Model() == RuleTree.AddChildValidation(old(Model()), property, init, elements, nullMessage)
      ensures fresh(Repr - old(Repr))
      decreases init, 2
    {
      ghost var m := Model();
      child := NewChild(AppendToPropertyPath(path, property), elements, failFast, nullMessage, init);
      assert child.Model() == Apply(ChildNode(m, property, elements, nullMessage), init);
      Attach(property, child);
    }

    /** `property { init }`. */
    method Invoke(property: string, init: seq<Op>)
      requires Valid()
      modifies this
      ensures Valid() && Model() == ApplyEdit(old(Model()), Bind(property, init))
      ensures fresh(Repr - old(Repr))
      decreases init, 3
    {
      var _ := AddChildValidation(property, init, false, nullMessage);
    }

    /** `property each { init }`: the child validates every element of the collection. */
    method Each(property: string, init: seq<Op>)
      requires Valid()
      modifies this
      ensures Valid() && Model() == ApplyEdit(old(Model()), Edit.Each(property, init))
      ensures fresh(Repr - old(Repr))
      decreases init, 3
    {
      var _ := AddChildValidation(property, init, true, nullMessage);
    }

    /** The child `notNull` binds: no constraints, `errorMessage` as its null message. */
    method AttachEmpty(property: string, errorMessage: string)
      requires Valid()
      modifies this
      ensures Valid() && Model() == BindChild(old(Model()), property, ChildNode(old(Model()), property, false, errorMessage))
      ensures fresh(Repr - old(Repr))
    {
      ghost var m := Model();
      var child := new Validation(AppendToPropertyPath(path, property), false, failFast, errorMessage);
      assert child.Model() == ChildNode(m, property, false, errorMessage);
      Attach(property, child);
    }

    /**
     * `property.notNull(errorMessage) { init }`: a child with no constraints whose null message is
     * `errorMessage` (its init block `{}` does nothing), and on this node a rule binding `init` when
     * the property is present.
     */
    method NotNull(property: string, errorMessage: string, init: seq<Op>)
      requires Valid()
      modifies this
      ensures Valid() && Model() == ApplyOp(old(Model()), Op.NotNull(property, errorMessage, init))
      ensures fresh(Repr - old(Repr))
    {
      ghost var m := Model();
      AttachEmpty(property, errorMessage);
      ghost var w := Model();
      assert w == BindChild(m, property, ChildNode(m, property, false, errorMessage));
      IfNotNull(property, init);
      assert Model() == w.(rules := w.rules + [IfNotNullRule(property, init)]);
    }

    /** `property.notNullOrBlank(errorMessage) { init }`: `notNull` whose block starts with `notBlank() message errorMessage`. */
    method NotNullOrBlank(property: string, errorMessage: string, init: seq<Op>)
      requires Valid()
      modifies this
      ensures Valid() && Model() == ApplyOp(old(Model()), Op.NotNullOrBlank(property, errorMessage, init))
      ensures fresh(Repr - old(Repr))
    {
      NotNull(property, errorMessage, NotBlankInit(errorMessage, init));
    }

    /** One builder call of an init block. */
    method RunOp(op: Op)
      requires Valid()
      modifies this
      ensures Valid() && Model() == ApplyOp(old(Model()), op)
      ensures fresh(Repr - old(Repr))
      decreases op
    {
      match op {
        case Do(e) => RunEdit(e);
        case WhenIs(p, c, block) => WhenIs(p, c, block);
        case IfNotNull(p, init) => IfNotNull(p, init);
        case NotNull(p, m, init) => NotNull(p, m, init);
        case NotNullOrBlank(p, m, init) => NotNullOrBlank(p, m, init);
        case WithValue(block) => WithValue(block);
      }
    }

    /** One builder call of a dynamic block. */
    method RunEdit(e: Edit)
      requires Valid()
      modifies this
      ensures Valid() && Model() == ApplyEdit(old(Model()), e)
      ensures fresh(Repr - old(Repr))
      decreases e
    {
      match e {
        case Constrain(cv) => var _ := AddConstraintValue(cv);
        case Bind(p, init) => Invoke(p, init);
        case Each(p, init) => Each(p, init);
        case FailFast(b) => FailFast(b);
      }
    }

    /** An init block: its builder calls on this node, in order. */
    method Run(ops: seq<Op>)
      requires Valid()
      modifies this
      ensures Valid() && Model() == Apply(old(Model()), ops)
      ensures fresh(Repr - old(Repr))
      decreases ops, 0
    {
      var i := 0;
      while i < |ops|
        invariant 0 <= i <= |ops|
        invariant Valid() && Model() == Apply(old(Model()), ops[..i])
        invariant fresh(Repr - old(Repr))
      {
        assert ops[..i + 1][..i] == ops[..i];
        RunOp(ops[i]);
        i := i + 1;
      }
      assert ops[..|ops|] == ops;
    }

    /** The calls a dynamic block returned, in order. */
    method RunEdits(es: seq<Edit>)
      requires Valid()
      modifies this
      ensures Valid() && Model() == ApplyEdits(old(Model()), es)
      ensures fresh(Repr - old(Repr))
    {
      var i := 0;
      while i < |es|
        invariant 0 <= i <= |es|
        invariant Valid() && Model() == ApplyEdits(old(Model()), es[..i])
        invariant fresh(Repr - old(Repr))
      {
        assert es[..i + 1][..i] == es[..i];
        RunEdit(es[i]);
        i := i + 1;
      }
      assert es[..|es|] == es;
    }

    /** `dynamicValidations.forEach { it(dynamicValidation, value) }`: every rule, in order, on this node. */
    method RunRules(rules: seq<Rule>, value: Value)
      requires Valid()
      modifies this
      ensures Valid() && Model() == ApplyRules(old(Model()), rules, value)
      ensures fresh(Repr - old(Repr))
    {
      ghost var start := Model();
      var i := 0;
      while i < |rules|
        invariant 0 <= i <= |rules|
        invariant Valid() && Model() == ApplyRules(start, rules[..i], value)
        invariant fresh(Repr - old(Repr))
      {
        RunEdits(rules[i](value));
        assert rules[..i + 1] == rules[..i] + [rules[i]];
        ApplyRulesSnoc(start, rules[..i], rules[i], value);
        i := i + 1;
      }
      assert rules[..|rules|] == rules;
    }

    /** The companion `Validation(propertyPath) { init }`: a root node (`failFast` on, default null message), then `init`. */
    static method Create(path: string, init: seq<Op>) returns (r: Validation)
      ensures fresh(r) && r.Valid() && fresh(r.Repr)
      ensures r.Model() == Apply(NewNode(path, false, true, DefaultNullMessage), init)
    {
      r := new Validation(path, false, true, DefaultNullMessage);
      r.Run(init);
    }

    // ----- validate -----

    /** `validate(value)`: the result the rule tree gives for this node's model. */
    method Validate(v: Value) returns (r: ValidationResult<Value>)
      requires Valid()
      ensures r == RuleTree.Validate(Model(), v)
      decreases Size(v), if dynamics == [] then 3 else 5
    {
      ghost var m := Model();
      if v == Null {
        return FailureAt(v, path, nullMessage);
      }
      assert m.path == path && m.failFast == failFast && m.constraints == States(constraints);
      assert m.rules == dynamics && m.bindings == BindingsOf(childValidations, Repr - {this});
      var errors := OwnErrorsOf(constraints, path, failFast, v);
      var dynamicErrors := [];
      if |dynamics| > 0 {
        dynamicErrors := RulesErrorsOf(path, failFast, dynamics, v);
      }
      var childErrors := ChildErrorsOf(childValidations, Repr - {this}, v);
      EvalPresent(m, v, errors, dynamicErrors, childErrors);
      errors := errors + dynamicErrors + childErrors;
      ModelUnchanged(this);
      if errors == [] {
        r := Success(v);
      } else {
        r := FailureWith(v, errors);
      }
    }

    /** Constraint objects that did not change have the same states. */
    static twostate lemma StatesUnchanged(cs: seq<Constraint>)
      requires forall i :: 0 <= i < |cs| ==> unchanged(cs[i])
      ensures States(cs) == old(States(cs))
    {
    }

    /** Entries (with the frame they are read through) none of whose objects changed read as the same bindings. */
    static twostate lemma ChildrenUnchanged(entries: (seq<ChildList>, set<object>))
      requires old(ChildrenValid(entries.0, entries.1)) && unchanged(entries.1)
      ensures ChildrenValid(entries.0, entries.1)
      ensures BindingsOf(entries.0, entries.1) == old(BindingsOf(entries.0, entries.1))
    {
    }

    /** A validation none of whose objects changed has the same model. */
    static twostate lemma ModelUnchanged(x: Validation)
      requires old(x.Valid()) && unchanged(x) && unchanged(old(x.Repr))
      ensures x.Valid() && x.Model() == old(x.Model())
    {
    }

    /** Child nodes held inside an unchanged part of the frame have the same models. */
    static twostate lemma {:induction false} NodesUnchangedIn(x: (seq<Validation>, set<object>, set<object>))
      requires old(NodesValid(x.0, x.1)) && old(NodesValid(x.0, x.2)) && unchanged(x.2)
      ensures NodesValid(x.0, x.1) && ModelsOf(x.0, x.1) == old(ModelsOf(x.0, x.1))
      decreases |x.0|
    {
      if x.0 != [] {
        ModelUnchanged(x.0[0]);
        NodesUnchangedIn((x.0[1..], x.1, x.2));
      }
    }

    /** Entries whose nodes lie in an unchanged part of the frame read as the same bindings through the whole frame. */
    static twostate lemma {:induction false} ChildrenUnchangedIn(x: (seq<ChildList>, set<object>, set<object>))
      requires old(ChildrenValid(x.0, x.1)) && old(ChildrenValid(x.0, x.2)) && unchanged(x.2)
      ensures ChildrenValid(x.0, x.1) && BindingsOf(x.0, x.1) == old(BindingsOf(x.0, x.1))
      decreases |x.0|
    {
      forall i | 0 <= i < |x.0|
        ensures NodesValid(x.0[i].validations, x.1)
      {
        NodesUnchangedIn((x.0[i].validations, x.1, x.2));
      }
      if x.0 != [] {
        NodesUnchangedIn((x.0[0].validations, x.1, x.2));
        ChildrenUnchangedIn((x.0[1..], x.1, x.2));
      }
    }

    /**
     * A constraint object the node holds, and that no child node reaches, changed
     * (by `message`, say) while nothing else did: the node stays valid, and its model
     * reads the object's new state wherever the node holds it, everything else as before.
     */
    static twostate lemma MessageSeen(x: (Validation, Constraint))
      requires old(x.0.Valid()) && old(ChildrenValid(x.0.childValidations, x.0.Repr - {x.0, x.1}))
      requires unchanged(x.0) && unchanged(old(x.0.Repr) - {x.1})
      ensures x.0.Valid()
      ensures x.0.Model() == old(x.0.Model()).(constraints := x.0.Model().constraints)
      ensures |x.0.Model().constraints| == |old(x.0.Model().constraints)|
      ensures forall i :: 0 <= i < |x.0.constraints| ==>
                x.0.Model().constraints[i] == if x.0.constraints[i] == x.1 then x.1.State() else old(x.0.Model().constraints[i])
    {
      var v, c := x.0, x.1;
      ChildrenUnchangedIn((v.childValidations, v.Repr - {v}, v.Repr - {v, c}));
      forall i | 0 <= i < |v.constraints| && v.constraints[i] != c
        ensures v.constraints[i].State() == old(v.constraints[i].State())
      {
        assert v.constraints[i] in old(v.Repr) - {c};
      }
    }

    /** The constraints in order, stopping after the first error when `failFast` is on. */
    static method OwnErrorsOf(cs: seq<Constraint>, path: string, failFast: bool, v: Value) returns (es: seq<ValidationError>)
      ensures var fs := Failures(States(cs), path, v); es == if failFast && |fs| > 1 then fs[..1] else fs
    {
      ghost var sts := States(cs);
      es := [];
      var i := 0;
      while i < |cs|
        invariant 0 <= i <= |cs|
        invariant es == Failures(sts[..i], path, v)
        invariant failFast ==> es == []
      {
        assert sts[..i + 1][..i] == sts[..i];
        var error := cs[i].Check(path, v);
        if error.Some? {
          es := es + [error.value];
        }
        i := i + 1;
        if failFast && es != [] {
          FailFastStopsAt(sts, i, path, v);
          break;
        }
      }
      assert i == |cs| ==> sts[..i] == sts;
    }

    /** A fresh node at `path` with the given `failFast`, every rule run on it with the value, then validated. */
    static method RulesErrorsOf(path: string, failFast: bool, rules: seq<Rule>, v: Value) returns (es: seq<ValidationError>)
      requires v != Null
      ensures es == RulesErrors(path, failFast, rules, v)
      decreases Size(v), 4
    {
      var dynamicValidation := RulesNode(path, failFast, rules, v);
      ghost var d := dynamicValidation.Model();
      label Built:
      var r := dynamicValidation.Validate(v);
      ModelUnchanged@Built(dynamicValidation);
      es := r.IfFailed([], AddAll);
      AddAllFailures(d, v, []);
      RulesErrorsOfNode(path, failFast, rules, v, d);
    }

    /** The fresh node of `validate`'s dynamic step: every rule run on it with the value. */
    static method RulesNode(path: string, failFast: bool, rules: seq<Rule>, v: Value) returns (d: Validation)
      ensures d.Valid() && fresh(d.Repr) && d.dynamics == []
      ensures d.Model() == ApplyRules(NewNode(path, false, failFast, DefaultNullMessage), rules, v)
    {
      d := new Validation(path, false, failFast, DefaultNullMessage);
      ghost var start := d.Model();
      d.RunRules(rules, v);
      ApplyRulesKeepsRules(start, rules, v);
    }

    /** Every entry in insertion order, each property's validations in registration order. */
    static method ChildErrorsOf(cls: seq<ChildList>, ghost frame: set<object>, v: Value) returns (es: seq<ValidationError>)
      requires ChildrenValid(cls, frame) && v != Null
      ensures es == ChildErrors(BindingsOf(cls, frame), v)
      decreases Size(v), 2
    {
      ghost var bs := BindingsOf(cls, frame);
      es := [];
      var i := 0;
      while i < |cls|
        invariant 0 <= i <= |cls|
        invariant es == ChildErrors(bs[..i], v)
      {
        var propertyErrors := NodesErrorsOf(cls[i].validations, frame, cls[i].property, v);
        assert es + propertyErrors == ChildErrors(bs[..i + 1], v) by {
          BindingsOfAt(cls, frame, i);
          ChildErrorsPrefix(bs, i, v);
        }
        es := es + propertyErrors;
        i := i + 1;
      }
      assert bs[..i] == bs;
    }

    /** One property's validations run on the property's value, or on each of its elements. */
    static method NodesErrorsOf(ns: seq<Validation>, ghost frame: set<object>, property: string, v: Value)
      returns (es: seq<ValidationError>)
      requires NodesValid(ns, frame) && v != Null
      ensures es == NodesErrors(ModelsOf(ns, frame), property, v)
      decreases Size(v), 1
    {
      ghost var ms := ModelsOf(ns, frame);
      es := [];
      var j := 0;
      while j < |ns|
        invariant 0 <= j <= |ns|
        invariant es == NodesErrors(ms[..j], property, v)
      {
        var nodeErrors := NodeErrorsOf(ns[j], property, v);
        assert es + nodeErrors == NodesErrors(ms[..j + 1], property, v) by {
          ModelsOfAt(ns, frame, j);
          NodesErrorsPrefix(ms, j, property, v);
        }
        es := es + nodeErrors;
        j := j + 1;
      }
      assert ms[..j] == ms;
    }

    /** One validation of a property: on each element for an `each` validation, on the property's value otherwise. */
    static method NodeErrorsOf(validation: Validation, property: string, v: Value) returns (es: seq<ValidationError>)
      requires validation.Valid() && v != Null
      ensures es == NodeErrors(validation.Model(), property, v)
      decreases Size(v), 0, 1
    {
      ghost var m := validation.Model();
      if validation.elements {
        es := ElementsErrorsOf(validation, property, v);
      } else {
        var propertyValue := Get(v, property);
        GetSmaller(v, property);
        label Before:
        var r := validation.Validate(propertyValue);
        ModelUnchanged@Before(validation);
        es := r.IfFailed([], AddAll);
        AddAllFailures(m, propertyValue, []);
        PlainNodeErrorsAt(m, property, v);
      }
    }

    /** An `each` validation: every element of the collection, its errors indexed by the element's position. */
    static method ElementsErrorsOf(m: Validation, property: string, v: Value) returns (es: seq<ValidationError>)
      requires m.Valid() && v != Null
      ensures es == ElementsErrors(m.Model(), property, v, |Elements(Get(v, property))|)
      decreases Size(v), 0, 0
    {
      ghost var mm := m.Model();
      var elems := Elements(Get(v, property));
      es := [];
      var k := 0;
      while k < |elems|
        invariant 0 <= k <= |elems|
        invariant m.Valid() && m.Model() == mm
        invariant es == ElementsErrors(mm, property, v, k)
      {
        PropertyElementSmaller(v, property, k);
        label Before:
        var r := m.Validate(elems[k]);
        ModelUnchanged@Before(m);
        AddIndexedFailures(mm, elems[k], es, property, k);
        ElementsErrorsStep(mm, property, v, k);
        es := r.IfFailed(es, AddIndexed(property, k));
        k := k + 1;
      }
    }

    // ----- reading the entries as bindings -----

    /** A larger frame keeps the children valid. */
    static lemma {:induction false} NodesValidGrows(ns: seq<Validation>, f1: set<object>, f2: set<object>)
      requires NodesValid(ns, f1) && f1 <= f2
      ensures NodesValid(ns, f2)
    {
    }

    static lemma {:induction false} ChildrenValidGrows(cls: seq<ChildList>, f1: set<object>, f2: set<object>)
      requires ChildrenValid(cls, f1) && f1 <= f2
      ensures ChildrenValid(cls, f2)
    {
      forall i | 0 <= i < |cls|
        ensures NodesValid(cls[i].validations, f2)
      {
        NodesValidGrows(cls[i].validations, f1, f2);
      }
    }

    /** The models do not depend on the frame they are read through. */
    static lemma {:induction false} SameModels(ns: seq<Validation>, f1: set<object>, f2: set<object>)
      requires NodesValid(ns, f1) && NodesValid(ns, f2)
      ensures ModelsOf(ns, f1) == ModelsOf(ns, f2)
      decreases |ns|
    {
      if ns != [] {
        SameModels(ns[1..], f1, f2);
      }
    }

    static lemma {:induction false} SameBindings(cls: seq<ChildList>, f1: set<object>, f2: set<object>)
      requires ChildrenValid(cls, f1) && ChildrenValid(cls, f2)
      ensures BindingsOf(cls, f1) == BindingsOf(cls, f2)
      decreases |cls|
    {
      if cls != [] {
        SameModels(cls[0].validations, f1, f2);
        assert ChildrenValid(cls[1..], f1) && ChildrenValid(cls[1..], f2);
        SameBindings(cls[1..], f1, f2);
      }
    }

    /** The `j`-th model is the `j`-th node's. */
    static lemma {:induction false} ModelsOfAt(ns: seq<Validation>, frame: set<object>, j: nat)
      requires NodesValid(ns, frame) && j < |ns|
      ensures ModelsOf(ns, frame)[j] == ns[j].Model()
      decreases |ns|
    {
      if j > 0 {
        ModelsOfAt(ns[1..], frame, j - 1);
      }
    }

    /** The `i`-th binding is the `i`-th entry with its nodes' models. */
    static lemma {:induction false} BindingsOfAt(cls: seq<ChildList>, frame: set<object>, i: nat)
      requires ChildrenValid(cls, frame) && i < |cls|
      ensures BindingsOf(cls, frame)[i] == Binding(cls[i].property, ModelsOf(cls[i].validations, frame))
      decreases |cls|
    {
      if i > 0 {
        assert ChildrenValid(cls[1..], frame);
        BindingsOfAt(cls[1..], frame, i - 1);
      }
    }

    /** The models of a list with one more node: the old models, then the new node's model. */
    static lemma {:induction false} ModelsOfSnoc(ns: seq<Validation>, x: Validation, f: set<object>, f2: set<object>)
      requires NodesValid(ns, f) && f <= f2
      requires x in f2 && x.Repr <= f2 && x.Valid()
      ensures NodesValid(ns + [x], f2)
      ensures ModelsOf(ns + [x], f2) == ModelsOf(ns, f) + [x.Model()]
      decreases |ns|
    {
      NodesValidGrows(ns, f, f2);
      if ns == [] {
        assert [] + [x] == [x];
      } else {
        assert (ns + [x])[1..] == ns[1..] + [x];
        ModelsOfSnoc(ns[1..], x, f, f2);
      }
    }

    /** Attaching a child reads as `AddChild` on the bindings. */
    static lemma {:induction false} AttachBindings(cls: seq<ChildList>, f: set<object>, property: string, child: Validation, f2: set<object>)
      requires ChildrenValid(cls, f) && f <= f2
      requires child in f2 && child.Repr <= f2 && child.Valid()
      ensures ChildrenValid(AddChildList(cls, property, child), f2)
      ensures BindingsOf(AddChildList(cls, property, child), f2) == AddChild(BindingsOf(cls, f), property, child.Model())
      decreases |cls|
    {
      ChildrenValidGrows(cls, f, f2);
      var bs := BindingsOf(cls, f);
      if cls == [] {
        ModelsOfSnoc([], child, f, f2);
        assert [] + [child] == [child];
        var r := AddChildList(cls, property, child);
        assert r == [ChildList(property, [child])] && r[1..] == [];
        assert ModelsOf([child], f2) == [child.Model()];
        assert BindingsOf(r, f2) == [Binding(property, [child.Model()])] + BindingsOf(r[1..], f2);
      } else if cls[0].property == property {
        ModelsOfSnoc(cls[0].validations, child, f, f2);
        assert ChildrenValid(cls[1..], f) && ChildrenValid(cls[1..], f2);
        SameBindings(cls[1..], f, f2);
        assert bs[0].property == property;
      } else {
        assert ChildrenValid(cls[1..], f);
        AttachBindings(cls[1..], f, property, child, f2);
        SameModels(cls[0].validations, f, f2);
        assert bs[0].property != property;
        var r := AddChildList(cls, property, child);
        assert r[1..] == AddChildList(cls[1..], property, child);
      }
    }
  }
}
