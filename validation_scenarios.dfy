/**
 * Whole validations from the library's tests: a person with a `name` and an
 * `age`, built through the builder calls and validated end to end.
 */
module Scenarios {
  import opened Values
  import opened PathError
  import opened Results
  import opened Constraints
  import opened StringConstraints
  import opened NumberConstraints
  import opened RuleTree
  import opened RuleTreeFacts
  import opened Validations

  const NamePattern: string := "[a-zA-Z]+ [a-zA-Z]+"

  predicate IsAsciiLetter(c: char)
  {
    'a' <= c <= 'z' || 'A' <= c <= 'Z'
  }

  /**
   * `s` matches `[a-zA-Z]+ [a-zA-Z]+` as a whole: exactly one space, with at least
   * one ASCII letter before it and after it and nothing but ASCII letters around it.
   */
  predicate MatchesNamePattern(s: string)
  {
    exists i :: 0 < i < |s| - 1 && s[i] == ' ' && forall k :: 0 <= k < |s| && k != i ==> IsAsciiLetter(s[k])
  }

  /** `"John Smith"` matches the pattern. */
  lemma JohnSmithMatches()
    ensures MatchesNamePattern("John Smith")
  {
    var s := "John Smith";
    assert s[4] == ' ' && forall k :: 0 <= k < |s| && k != 4 ==> IsAsciiLetter(s[k]);
  }

  /** The matcher the person validation uses for its pattern. */
  function NameMatcher(): string -> bool
  {
    s => MatchesNamePattern(s)
  }

  /** `"test"` holds no space, so it does not match the pattern. */
  lemma TestDoesNotMatch()
    ensures !NameMatcher()("test")
  {
    var s := "test";
    forall i | 0 < i < |s| - 1
      ensures s[i] != ' '
    {
    }
  }

  /** A person object with its two properties. */
  function Person(name: string, age: int): Value
  {
    Obj([Field("name", Str(name)), Field("age", Int(age))])
  }

  /** `Person::name { notBlank(); matches(NamePattern); minLength(n) }`. */
  function NameOps(matcher: string -> bool, minLength: int32): seq<Op>
  {
    [Do(Constrain(NotBlank())), Do(Constrain(Matches(NamePattern, matcher))), Do(Constrain(MinLength(minLength)))]
  }

  /** `Person::age { gte(18) }`. */
  function AgeOps(): seq<Op>
  {
    [Do(Constrain(IntGte(18)))]
  }

  /** The init block of the validation: both properties, `failFast` left on. */
  function PersonOps(matcher: string -> bool, minLength: int32): seq<Op>
  {
    [Do(Bind("name", NameOps(matcher, minLength))), Do(Bind("age", AgeOps()))]
  }

  /** The root node `Validation { ... }` creates. */
  function Root(): Node
  {
    NewNode("", false, true, DefaultNullMessage)
  }

  /** A builder call that adds a constraint appends it to the node's constraints. */
  lemma {:induction false} ConstrainStep(n: Node, ops: seq<Op>, c: ConstraintValue)
    ensures Apply(n, ops + [Do(Constrain(c))]) == Apply(n, ops).(constraints := Apply(n, ops).constraints + [c])
  {
    ApplySnoc(n, ops, Do(Constrain(c)));
  }

  /** The `name` child: the three constraints, in order, at path `name`. */
  lemma {:induction false} NameChild(matcher: string -> bool, minLength: int32)
    ensures Apply(ChildNode(Root(), "name", false, DefaultNullMessage), NameOps(matcher, minLength)) == NameNode(matcher, minLength)
  {
    var c0 := NewNode("name", false, true, DefaultNullMessage);
    var a, b, c := NotBlank(), Matches(NamePattern, matcher), MinLength(minLength);
    var op0, op1, op2 := Do(Constrain(a)), Do(Constrain(b)), Do(Constrain(c));
    assert ChildNode(Root(), "name", false, DefaultNullMessage) == c0;
    ConstrainStep(c0, [], a);
    assert [] + [op0] == [op0];
    assert Apply(c0, [op0]) == c0.(constraints := [a]);
    ConstrainStep(c0, [op0], b);
    assert [op0] + [op1] == [op0, op1];
    assert Apply(c0, [op0, op1]) == c0.(constraints := [a, b]);
    ConstrainStep(c0, [op0, op1], c);
    assert [op0, op1] + [op2] == [op0, op1, op2];
    assert NameOps(matcher, minLength) == [op0, op1, op2];
  }

  function NameNode(matcher: string -> bool, minLength: int32): Node
  {
    NewNode("name", false, true, DefaultNullMessage).(constraints := [NotBlank(), Matches(NamePattern, matcher), MinLength(minLength)])
  }

  function AgeNode(): Node
  {
    NewNode("age", false, true, DefaultNullMessage).(constraints := [IntGte(18)])
  }

  /** The `age` child: one constraint at path `age`. */
  lemma {:induction false} AgeChild()
    ensures Apply(ChildNode(Root(), "age", false, DefaultNullMessage), AgeOps()) == AgeNode()
  {
    var c0 := NewNode("age", false, true, DefaultNullMessage);
    var op := Do(Constrain(IntGte(18)));
    assert ChildNode(Root(), "age", false, DefaultNullMessage) == c0;
    ConstrainStep(c0, [], IntGte(18));
    assert [] + [op] == [op] == AgeOps();
  }

  /** The tree the init block builds: `name` bound first, then `age`. */
  lemma {:induction false} PersonTree(matcher: string -> bool, minLength: int32)
    ensures Apply(Root(), PersonOps(matcher, minLength)) ==
            Root().(bindings := [Binding("name", [NameNode(matcher, minLength)]), Binding("age", [AgeNode()])])
  {
    var ops := PersonOps(matcher, minLength);
    NameChild(matcher, minLength);
    AgeChild();
    var withName := Root().(bindings := [Binding("name", [NameNode(matcher, minLength)])]);
    ApplySnoc(Root(), [], ops[0]);
    assert [] + [ops[0]] == [ops[0]];
    assert Apply(Root(), []) == Root();
    assert ApplyOp(Root(), ops[0]) == ApplyEdit(Root(), Bind("name", NameOps(matcher, minLength)));
    assert ApplyEdit(Root(), Bind("name", NameOps(matcher, minLength))) ==
           RuleTree.AddChildValidation(Root(), "name", NameOps(matcher, minLength), false, DefaultNullMessage);
    assert AddChild([], "name", NameNode(matcher, minLength)) == [Binding("name", [NameNode(matcher, minLength)])];
    assert Apply(Root(), [ops[0]]) == withName;
    ApplySnoc(Root(), [ops[0]], ops[1]);
    assert [ops[0]] + [ops[1]] == ops;
    assert ChildNode(withName, "age", false, DefaultNullMessage) == ChildNode(Root(), "age", false, DefaultNullMessage);
    assert "name" != "age";
    assert AddChild(withName.bindings, "age", AgeNode()) == [Binding("name", [NameNode(matcher, minLength)])] + AddChild([], "age", AgeNode());
  }

  /** The errors of the person tree: the `name` child's, then the `age` child's. */
  lemma {:induction false} PersonErrors(matcher: string -> bool, minLength: int32, v: Value)
    requires v != Null
    ensures Eval(Apply(Root(), PersonOps(matcher, minLength)), v) == Eval(NameNode(matcher, minLength), Get(v, "name")) + Eval(AgeNode(), Get(v, "age"))
  {
    PersonTree(matcher, minLength);
    var withName := Root().(bindings := [Binding("name", [NameNode(matcher, minLength)])]);
    EvalWithBinding(Root(), Binding("name", [NameNode(matcher, minLength)]), v);
    EvalWithBinding(withName, Binding("age", [AgeNode()]), v);
    PlainNodeErrors(NameNode(matcher, minLength), "name", v);
    PlainNodeErrors(AgeNode(), "age", v);
    BareNodeAccepts("", false, true, DefaultNullMessage, v);
    assert [] + [Binding("name", [NameNode(matcher, minLength)])] == [Binding("name", [NameNode(matcher, minLength)])];
    assert [Binding("name", [NameNode(matcher, minLength)])] + [Binding("age", [AgeNode()])] ==
           [Binding("name", [NameNode(matcher, minLength)]), Binding("age", [AgeNode()])];
  }

  /** A node without children or rules reports its own errors only. */
  lemma {:induction false} LeafErrors(n: Node, v: Value)
    requires v != Null && n.bindings == [] && n.rules == []
    ensures Eval(n, v) == OwnErrors(n, v)
  {
    EvalPresent(n, v, OwnErrors(n, v), [], []);
  }

  /** A name that is not blank but does not match the pattern: with fail-fast only the pattern's error is kept. */
  lemma {:induction false} NameErrorsWhenPatternFails(matcher: string -> bool, minLength: int32, name: string)
    requires !Text.IsBlank(name) && !matcher(name)
    ensures Eval(NameNode(matcher, minLength), Str(name)) == [ValidationError("name", "Must match pattern " + NamePattern)]
  {
    var n := NameNode(matcher, minLength);
    var v := Str(name);
    LeafErrors(n, v);
    assert n.constraints[0].accepts(v);
    assert !n.constraints[1].accepts(v);
    FailFastReportsFirstFailure(n, v);
    assert OwnErrors(n, v) == [ValidationError(n.path, n.constraints[1].message(v))];
  }

  /** An adult's age passes `gte(18)`. */
  lemma {:induction false} AgeErrorsOnAdult(age: int)
    requires age >= 18
    ensures Eval(AgeNode(), Int(age)) == []
  {
    LeafErrors(AgeNode(), Int(age));
    assert AgeNode().constraints[0].accepts(Int(age));
    FailFastReportsFirstFailure(AgeNode(), Int(age));
  }

  /**
   * Fail-fast: a name that passes `notBlank` but fails the pattern (and may be
   * too short) gets the pattern's error only, and an adult's age adds nothing.
   */
  lemma {:induction false} FailFastReportsSecondConstraint(matcher: string -> bool, minLength: int32, name: string, age: int)
    requires !Text.IsBlank(name) && !matcher(name) && age >= 18
    ensures Eval(Apply(Root(), PersonOps(matcher, minLength)), Person(name, age)) ==
            [ValidationError("name", "Must match pattern " + NamePattern)]
  {
    var v := Person(name, age);
    var nameValue, ageValue := Get(v, "name"), Get(v, "age");
    assert nameValue == Str(name);
    assert ageValue == Int(age) by {
      assert v.fields[0].name != "age";
      assert NoneNamedBefore(v.fields, "age", 1);
      assert v.fields[1].name == "age";
    }
    PersonErrors(matcher, minLength, v);
    NameErrorsWhenPatternFails(matcher, minLength, name);
    AgeErrorsOnAdult(age);
    assert Eval(NameNode(matcher, minLength), nameValue) + Eval(AgeNode(), ageValue) ==
           [ValidationError("name", "Must match pattern " + NamePattern)] + [];
  }

  /** `"test"` is not blank. */
  lemma TestIsNotBlank()
    ensures !Text.IsBlank("test")
  {
    assert !Text.IsWhitespace("test"[0]);
  }

  /**
   * `Person(name = "test", age = 23)`: "test" is not blank and does not match the
   * pattern, so only the pattern's error is reported; the validation is built and
   * run on the `Validation` class.
   */
  method FailFastScenario(minLength: int32) returns (r: ValidationResult<Value>)
    ensures r == Failure(Person("test", 23), ErrorList.ValidationErrors([ValidationError("name", "Must match pattern " + NamePattern)]))
  {
    var validation := Validation.Create("", PersonOps(NameMatcher(), minLength));
    r := validation.Validate(Person("test", 23));
    TestPersonFails(minLength);
  }

  /** The rule tree's verdict on `Person("test", 23)`: only the pattern's error. */
  lemma TestPersonFails(minLength: int32)
    ensures RuleTree.Validate(Apply(Root(), PersonOps(NameMatcher(), minLength)), Person("test", 23)) ==
            Failure(Person("test", 23), ErrorList.ValidationErrors([ValidationError("name", "Must match pattern " + NamePattern)]))
  {
    TestIsNotBlank();
    TestDoesNotMatch();
    FailFastReportsSecondConstraint(NameMatcher(), minLength, "test", 23);
  }

  /**
   * `notBlank() message errorMessage` on a `Validation` object: `message` changes the
   * constraint object `notBlank()` returned, and the node sees the change, so the node
   * ends with the constraint carrying the new message.
   */
  method NotBlankWithMessage(v: Validation, message: string)
    requires v.Valid()
    modifies v
    ensures v.Valid() && v.Model() == ApplyEdit(old(v.Model()), Constrain(WithMessage(NotBlank(), message)))
    ensures fresh(v.Repr - old(v.Repr))
  {
    var c := v.AddConstraintValue(NotBlank());
    label Added:
    var same := c.Message(message);
    Validation.MessageSeen@Added((v, c));
    assert forall i :: 0 <= i < |old(v.constraints)| ==> v.constraints[i] != c;
  }
}
