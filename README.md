# validk, modelled in Dafny

validk is a Kotlin library for validating object graphs. A `Validation` node is
built by an init block: builder calls add constraints to the node's own value,
bind child validations to properties (`Person::name { notBlank() }`), bind a
child to every element of a collection (`each`), or register dynamic rules that
look at the value at validation time (`withValue`, `whenIs`, `ifNotNull`,
`notNull`, `notNullOrBlank`). `validate(value)` then does the following:

- A null value fails at once with the node's null message.
- Otherwise it checks the node's own constraints in order. With `failFast`, it stops after the first failure.
- It runs the dynamic rules on a fresh, short-lived node and validates the value against that node.
- It runs every child validation on the property's value, or on each element with the paths indexed (`employees[1].roles[0].types`).
- All errors are collected in order into a `ValidationResult`.

## How the model is organised

One module per source file:

| module (file) | models |
|---|---|
| `Values` (`values.dfy`) | the values being validated: `Null`, strings, integers, objects with named fields, collections; a property getter is a field lookup |
| `Text` (`text.dfy`) | `isBlank` (Kotlin's whitespace test), UTF-16 length, decimal rendering of integers, `joinToString` |
| `PathError` (`validation_error.dfy`) | `ValidationError`, `indexed` and `indexedProperty` |
| `ErrorList` (`validation_errors.dfy`) | `ValidationErrors`: `errorsByPath`, `errors`, `error`, `failedProperties`, `hasErrors` |
| `Results` (`validation_result.dfy`) | `ValidationResult`, `ifFailed`, both `map`s, `ResultMapContext` |
| `Constraints` (`constraint.dfy`) | `io.validk.constraints.Constraint` as a class with a mutable message, and its value `ConstraintValue` |
| `StringConstraints`, `NumberConstraints`, `CollectionConstraints` | the built-in constraint builders |
| `LegacyConstraints` (`legacy_constraint.dfy`) | the older `io.validk.Constraint` |
| `RuleTree` (`rule_tree.dfy`) | the pure semantics: `Node` (a validation node as a value), `Apply` (what an init block builds), `Eval` (what `validate` collects) |
| `RuleTreeFacts` (`rule_tree_facts.dfy`) | the properties of `Apply` and `Eval` |
| `Validations` (`validation.dfy`) | the mutable `Validation` class; every method is proved against `RuleTree` through `Model()` |
| `Scenarios` (`validation_scenarios.dfy`) | a whole person validation, built and run on the class |

How the Kotlin constructs are represented:

- **Init blocks.** A receiver lambda is data: a sequence of builder calls (`seq<Op>`). `Validation.Run` performs those calls on the object, and `RuleTree.Apply` gives their meaning.
- **Dynamic blocks.** A dynamic block is a function `Value -> seq<Edit>`: it returns the builder calls it would make on the short-lived node. An `Edit` can add a constraint, bind a child (plain or `each`), or set `failFast`.
- **Properties.** Reflection (`KProperty1.get`) becomes a lookup by field name. On a value that is not an object, or that lacks the field, the lookup gives `Null`.
- **Type parameters.** A generic `Validation<T>` and a `Constraint<T>` work on the one `Value` type. Each built-in constraint rejects values of the wrong kind.
- **The child map.** `childValidations` is an insertion-ordered map. It is kept as a list of entries with distinct keys. A new property goes last, and a known property keeps its place and gets the new child at the end.
- **`notNull`.** In `notNull`, the `.apply { property.ifNotNull(block) }` runs with the new child as receiver. But `property.ifNotNull` is a member extension of the outer `Validation`, so the rule is added to the parent node, not to the child. `Op.NotNull` models it that way.
- **The `each` path.** The parent's path is extended with the property name. A blank parent path gives just the property name.

## Model

| member | source | states |
|---|---|---|
| Validations.Validation.constructor | validk/src/main/kotlin/io/validk/Validation.kt:9-17 | a new node has the given path, collection flag, failFast and null message, and no constraints, children or rules |
| Validations.Validation.FailFast | validk/src/main/kotlin/io/validk/Validation.kt:19-21 | only the node's failFast flag changes; constraints, children and rules stay as they were |
| Validations.Validation.AddConstraint | validk/src/main/kotlin/io/validk/Validation.kt:23-27 | a fresh constraint object with the message and predicate is appended to the node's constraint list (`constraints == old(constraints) + [c]`) and returned; the model gains that constraint last, and no child node reaches the object |
| Validations.Validation.AddConstraintValue | validk/src/main/kotlin/io/validk/Validation.kt:23-27 | a fresh constraint object holding the given predicate and message is appended to the constraint list and returned; the model gains it last |
| Validations.Validation.AppendConstraint | validk/src/main/kotlin/io/validk/Validation.kt:25 | the constraint object goes after the existing ones in the list, its current state last in the model; nothing else changes |
| Validations.Validation.MessageSeen | validk/src/main/kotlin/io/validk/constraints/Constraint.kt:12-15 | after `message` changes a constraint object the node holds (and no child reaches), the node stays valid and its model reads the new state wherever the node holds that object; nothing else in the model changes |
| Scenarios.NotBlankWithMessage | validk/src/test/kotlin/io/validk/BasicPropertiesTest.kt:78 | `notBlank() message m` on a `Validation` object leaves the node with one more constraint, `notBlank`'s predicate with the message `m` |
| Validations.Validation.Invoke | validk/src/main/kotlin/io/validk/Validation.kt:29-31 | `property { init }` binds a plain child built by `init` under the property |
| Validations.Validation.WhenIs | validk/src/main/kotlin/io/validk/Validation.kt:33-40 | adds one rule that runs the block only when the property equals the constant |
| Validations.Validation.IfNotNull | validk/src/main/kotlin/io/validk/Validation.kt:42-49 | adds one rule that binds `init` to the property only when the property's value is not null |
| Validations.Validation.NotNull | validk/src/main/kotlin/io/validk/Validation.kt:51-56 | binds a child with no constraints and `errorMessage` as its null message, and adds an `ifNotNull(init)` rule to this node |
| Validations.Validation.AttachEmpty | validk/src/main/kotlin/io/validk/Validation.kt:53 | binds a child with no constraints, the current failFast, the extended path and the given null message |
| Validations.Validation.NotNullOrBlank | validk/src/main/kotlin/io/validk/Validation.kt:58-63 | `notNull` whose block first adds `notBlank()` with `errorMessage` as its message, then the caller's block |
| Validations.Validation.Each | validk/src/main/kotlin/io/validk/Validation.kt:65-69 | binds a child built by `init` that validates each collection element |
| Validations.Validation.AddChildValidation | validk/src/main/kotlin/io/validk/Validation.kt:71-82 | a child at the extended path, with the parent's current failFast, built by `init`, then added last under its property |
| Validations.Validation.NewChild | validk/src/main/kotlin/io/validk/Validation.kt:77-78 | a fresh node with the given header whose model is `init` applied to an empty node |
| Validations.Validation.Attach | validk/src/main/kotlin/io/validk/Validation.kt:79-80 | the child goes at the end of its property's list; a new property becomes the last entry |
| Validations.AddChildList | validk/src/main/kotlin/io/validk/Validation.kt:79-80 | the keys gain the property at the end only if it was absent; distinct keys stay distinct |
| Validations.Validation.WithValue | validk/src/main/kotlin/io/validk/Validation.kt:84-86 | the block goes after the existing dynamic rules; nothing else changes |
| Validations.Validation.RunOp | validk/src/main/kotlin/io/validk/Validation.kt:19-86 | one builder call changes the node exactly as `ApplyOp` says |
| Validations.Validation.Run | validk/src/main/kotlin/io/validk/Validation.kt:141 | an init block's calls run in order, and the model becomes `Apply(old model, ops)` |
| Validations.Validation.RunEdit | validk/src/main/kotlin/io/validk/Validation.kt:113 | one call of a dynamic block changes the node exactly as `ApplyEdit` says |
| Validations.Validation.RunEdits | validk/src/main/kotlin/io/validk/Validation.kt:113 | the calls a dynamic block makes run in order on the node |
| Validations.Validation.RunRules | validk/src/main/kotlin/io/validk/Validation.kt:112-114 | every dynamic rule runs, in order, on the node with the value |
| Validations.Validation.Create | validk/src/main/kotlin/io/validk/Validation.kt:139-142 | a root with the given path, failFast on and the null message "is required", built by `init` |
| Validations.Validation.Validate | validk/src/main/kotlin/io/validk/Validation.kt:88-136 | the result is the rule-tree result for the node's model: it carries the value, it is a success iff `Eval` reports no error, and otherwise its errors are `Eval`'s |
| Validations.Validation.OwnErrorsOf | validk/src/main/kotlin/io/validk/Validation.kt:100-108 | the failing constraints' errors in order, cut after the first one when failFast is on |
| Validations.Validation.RulesNode | validk/src/main/kotlin/io/validk/Validation.kt:111-114 | the short-lived node has the node's path and failFast, the default header otherwise, and every rule run on it with the value |
| Validations.Validation.RulesErrorsOf | validk/src/main/kotlin/io/validk/Validation.kt:110-116 | the errors of validating the value against the short-lived node the rules built |
| Validations.Validation.ChildErrorsOf | validk/src/main/kotlin/io/validk/Validation.kt:118-129 | every property's errors in insertion order, and each property's validations in registration order |
| Validations.Validation.NodesErrorsOf | validk/src/main/kotlin/io/validk/Validation.kt:120-128 | the errors of one property's validations, in registration order |
| Validations.Validation.NodeErrorsOf | validk/src/main/kotlin/io/validk/Validation.kt:121-127 | an `each` validation checks the elements; any other validation checks the property's value |
| Validations.Validation.ElementsErrorsOf | validk/src/main/kotlin/io/validk/Validation.kt:122-124 | every element's errors, in element order, each rewritten by `indexed(property, index)` |
| Validations.AddAllFailures | validk/src/main/kotlin/io/validk/Validation.kt:115 | `ifFailed { errors.addAll(it.errors) }` appends the child's errors and appends nothing on success |
| Validations.AddIndexedFailures | validk/src/main/kotlin/io/validk/Validation.kt:123 | on failure the element's errors are appended, indexed by the element's position |
| RuleTree.AddChildShape | validk/src/main/kotlin/io/validk/Validation.kt:79-80 | adding a child keeps every other entry; the property's entry gains the child at the end, or a new entry is added last |
| RuleTree.AddChildDistinct | validk/src/main/kotlin/io/validk/Validation.kt:79-80 | the map never holds the same property twice |
| RuleTree.IndexAll | validk/src/main/kotlin/io/validk/Validation.kt:123 | same length as its input, and each error is `indexed(property, i)` |
| RuleTree.EvalPresent | validk/src/main/kotlin/io/validk/Validation.kt:100-135 | for a non-null value, the errors are the node's own, then the dynamic rules', then the children's |
| RuleTree.DynamicErrorsOfEphemeral | validk/src/main/kotlin/io/validk/Validation.kt:110-116 | dynamic errors are the short-lived node's errors, and that node holds no rules of its own |
| RuleTree.EphemeralHasNoRules | validk/src/main/kotlin/io/validk/Validation.kt:111 | running the rules never adds a rule to the short-lived node |
| RuleTree.Validate | validk/src/main/kotlin/io/validk/Validation.kt:131-135 | the result carries the value, is a success iff no error was collected, and otherwise holds exactly the collected errors |
| RuleTreeFacts.NullShortCircuits | validk/src/main/kotlin/io/validk/Validation.kt:89-98 | a null value gives exactly one error: the node's path with its null message |
| RuleTreeFacts.FailuresEmptyIffAllPass | validk/src/main/kotlin/io/validk/Validation.kt:103-105 | there are no failures iff every constraint accepts the value |
| RuleTreeFacts.FailuresAreFailingConstraints | validk/src/main/kotlin/io/validk/Validation.kt:103-105 | the j-th error belongs to the j-th failing constraint, at the node's path with that constraint's message |
| RuleTreeFacts.FailingIndicesExact | validk/src/main/kotlin/io/validk/Validation.kt:103-105 | the failing positions are strictly increasing, and a position is included iff its constraint rejects the value |
| RuleTreeFacts.FailuresStartWithFirstFailure | validk/src/main/kotlin/io/validk/Validation.kt:103-106 | the first error comes from the first rejecting constraint |
| RuleTreeFacts.FailFastReportsFirstFailure | validk/src/main/kotlin/io/validk/Validation.kt:106 | with failFast, a node reports at most one own error; none iff all constraints pass; otherwise exactly the first failing constraint's error |
| RuleTreeFacts.NoFailFastReportsEveryFailure | validk/src/main/kotlin/io/validk/Validation.kt:103-107 | without failFast, every failing constraint reports, in declaration order |
| RuleTreeFacts.ErrorOrder | validk/src/main/kotlin/io/validk/Validation.kt:100-135 | own errors form a prefix and child errors a suffix of what `validate` reports; it succeeds iff all three parts are empty |
| RuleTreeFacts.BareNodeAccepts | validk/src/main/kotlin/io/validk/Validation.kt:131-132 | a node with no constraints, children or rules accepts every non-null value |
| RuleTreeFacts.ApplyKeepsHeader | validk/src/main/kotlin/io/validk/Validation.kt:9-14 | builder calls never change a node's path, collection flag or null message |
| RuleTreeFacts.EphemeralHeader | validk/src/main/kotlin/io/validk/Validation.kt:111 | the short-lived node has the node's path, no `each` flag, the default null message and no rules |
| RuleTreeFacts.BindAddsChild | validk/src/main/kotlin/io/validk/Validation.kt:71-82 | `property { init }` adds exactly one child: at the extended path, with the current failFast, built by `init` |
| RuleTreeFacts.ChildPathExamples | validk/src/main/kotlin/io/validk/Validation.kt:146-150 | `""` + `name` gives `name`, a blank path gives the property alone, and `address` + `city` gives `address.city` |
| RuleTreeFacts.ApplyFailFast | validk/src/main/kotlin/io/validk/Validation.kt:19-21 | after an init block, failFast is the value of the block's last `failFast` call, or unchanged if it has none |
| RuleTreeFacts.FailFastAffectsLaterChildrenOnly | validk/src/main/kotlin/io/validk/Validation.kt:77 | `failFast(b)` leaves existing children alone and a child added afterwards inherits `b` |
| RuleTreeFacts.BindTwice | validk/src/main/kotlin/io/validk/Validation.kt:79-80 | binding the same property twice keeps one entry holding both children, in order |
| RuleTreeFacts.SamePropertyTwice | validk/src/main/kotlin/io/validk/Validation.kt:118-128 | both validations of a property run, in the order they were declared |
| RuleTreeFacts.EachOverEmptyCollection | validk/src/main/kotlin/io/validk/Validation.kt:121-124 | `each` over an empty collection reports nothing |
| RuleTreeFacts.ElementsErrorsAreIndexed | validk/src/main/kotlin/io/validk/Validation.kt:122-124 | an error is reported for the elements iff it is some element's error, indexed with that element's position |
| RuleTreeFacts.SilentRuleChangesNothing | validk/src/main/kotlin/io/validk/Validation.kt:110-116 | a dynamic rule that makes no builder call leaves the errors unchanged |
| RuleTreeFacts.WhenIsOnlyOnMatch | validk/src/main/kotlin/io/validk/Validation.kt:33-40 | `whenIs` changes no error when the property differs from the constant; when it equals it, the short-lived node also gets the block's calls |
| RuleTreeFacts.IfNotNullOnlyWhenPresent | validk/src/main/kotlin/io/validk/Validation.kt:42-49 | `ifNotNull` changes no error when the property is null; otherwise the short-lived node also binds `init` to the property |
| RuleTreeFacts.NotNullOnNullProperty | validk/src/main/kotlin/io/validk/Validation.kt:51-56 | a null property under `notNull` gives exactly one error: the property's path with `errorMessage` |
| RuleTreeFacts.NotNullOrBlankOnNullProperty | validk/src/main/kotlin/io/validk/Validation.kt:58-63 | a null property under `notNullOrBlank` gives exactly one error: the property's path with `errorMessage` |
| PathError.ValidationError.Indexed | validk/src/main/kotlin/io/validk/ValidationError.kt:22-25 | keeps the message and rewrites the path by `indexedProperty` |
| PathError.RewriteInsertsAfterEveryMatch | validk/src/main/kotlin/io/validk/ValidationError.kt:31-34 | for a plain property name, the regex replacement puts `[index]` after every occurrence of the name that is followed by `.` or by a place where Java's `$` holds (the end, or before a final line terminator), and nowhere else |
| PathError.RewriteUnchangedIffNoMatch | validk/src/main/kotlin/io/validk/ValidationError.kt:31-34 | the path is unchanged iff no occurrence of the name is followed by `.` or by a place where Java's `$` holds (the end, or before a final line terminator) |
| PathError.RewriteLength | validk/src/main/kotlin/io/validk/ValidationError.kt:31-34 | the rewrite never shortens a path, and any match lengthens it by at least the tag |
| PathError.IndexedOccurrenceIsNotMatch | validk/src/main/kotlin/io/validk/ValidationError.kt:31-34 | an occurrence already followed by `[` is not rewritten again |
| PathErrorExamples.ExampleWholePath | validk/src/test/kotlin/io/validk/ValidationErrorTest.kt:10 | `name` indexed by 1 is `name[1]` |
| PathErrorExamples.ExampleLeadingSegment | validk/src/test/kotlin/io/validk/ValidationErrorTest.kt:11 | `name.child` gives `name[1].child` |
| PathErrorExamples.ExampleMiddleSegment | validk/src/test/kotlin/io/validk/ValidationErrorTest.kt:12 | `address.postCodes.value` gives `address.postCodes[5].value` |
| PathErrorExamples.ExampleFinalNewline | validk/src/main/kotlin/io/validk/ValidationError.kt:34 | `$` also holds before a final `\n`: `name\n` gives `name[1]\n` |
| PathErrorExamples.ExampleFinalCrLf | validk/src/main/kotlin/io/validk/ValidationError.kt:34 | a final `\r\n` is one terminator: `name\r\n` gives `name[1]\r\n` |
| PathErrorExamples.ExampleTwoNewlines | validk/src/main/kotlin/io/validk/ValidationError.kt:34 | `$` does not hold before two terminators: `name\n\n` is unchanged |
| PathErrorExamples.ExampleIndexedError | validk/src/test/kotlin/io/validk/ValidationErrorTest.kt:15-18 | `indexed` keeps the message and indexes the path |
| PathErrorExamples.ExampleSubstringMatch | validk/src/main/kotlin/io/validk/ValidationError.kt:34 | the name also matches as the tail of a longer segment: `xname.a` gives `xname[1].a` |
| PathErrorExamples.ExampleInnerIndex | validk/src/test/kotlin/io/validk/NestedObjectsTest.kt:122 | the inner `each` turns `employees.roles.types` into `employees.roles[0].types` |
| PathErrorExamples.ExampleOuterIndex | validk/src/test/kotlin/io/validk/NestedObjectsTest.kt:122 | the outer `each` then gives `employees[1].roles[0].types` |
| ErrorList.Single | validk/src/main/kotlin/io/validk/ValidationErrors.kt:13 | a single error at the path, with the path as the only failed property |
| ErrorList.ValidationErrors.Errors | validk/src/main/kotlin/io/validk/ValidationErrors.kt:33 | the messages at that path, in order, or none |
| ErrorList.ValidationErrors.Error | validk/src/main/kotlin/io/validk/ValidationErrors.kt:39 | none iff no error has the path; otherwise the message of the first error at the path |
| ErrorList.ValidationErrors.FailedProperties | validk/src/main/kotlin/io/validk/ValidationErrors.kt:44 | a path is included iff some error has it |
| ErrorList.AddToGroupShape | validk/src/main/kotlin/io/validk/ValidationErrors.kt:24-27 | grouping one more error appends its message to its path's group, or adds a new last group |
| ErrorList.GroupByPathExact | validk/src/main/kotlin/io/validk/ValidationErrors.kt:24-27 | the groups' keys are the paths in order of first appearance |
| ErrorList.GroupByPathFind | validk/src/main/kotlin/io/validk/ValidationErrors.kt:24-27 | each path's group holds all its messages in order, and a path without errors has no group |
| ErrorList.FirstSeenPathsDistinctAndComplete | validk/src/main/kotlin/io/validk/ValidationErrors.kt:24-44 | the paths in order of first appearance are distinct and are exactly the failed properties |
| ErrorList.ErrorsByPathMatchesFailedProperties | validk/src/main/kotlin/io/validk/ValidationErrors.kt:24-52 | `errorsByPath` has distinct keys, which are exactly `failedProperties`; a path has a group iff `hasErrors` holds for it |
| ErrorListExamples.ExampleErrorsByPath | validk/src/test/kotlin/io/validk/ValidationErrorsTest.kt:19-26 | two `name` messages grouped in order, then the address path |
| ErrorListExamples.ExampleFirstError | validk/src/test/kotlin/io/validk/ValidationErrorsTest.kt:54-62 | `error("name")` is the first message and `error("age")` is null |
| ErrorListExamples.ExampleFailedProperties | validk/src/test/kotlin/io/validk/ValidationErrorsTest.kt:65-69 | the failed properties are `{name, age}` |
| Results.ValidationResult.IfFailed | validk/src/main/kotlin/io/validk/ValidationResult.kt:27-31 | the block runs on a failure's errors and is skipped on success |
| Results.ValidationResult.Map | validk/src/main/kotlin/io/validk/ValidationResult.kt:33-39 | `success(value)` on success, `error(value, errors)` on failure |
| Results.ValidationResult.MapWith | validk/src/main/kotlin/io/validk/ValidationResult.kt:41-48 | a missing success handler fails with "Success handler missing", then a missing error handler with "Error handler missing"; otherwise the last handlers set are used |
| Results.FailureAt | validk/src/main/kotlin/io/validk/ValidationResult.kt:20 | a failure with the value and one error at the path |
| Results.FailureWith | validk/src/main/kotlin/io/validk/ValidationResult.kt:21-22 | a failure with the value and exactly those errors |
| Results.ResultMapContext.constructor | validk/src/main/kotlin/io/validk/ValidationResult.kt:50-53 | both handlers start unset |
| Results.ResultMapContext.Error | validk/src/main/kotlin/io/validk/ValidationResult.kt:55-57 | sets the error handler and leaves the success handler alone |
| Results.ResultMapContext.Success | validk/src/main/kotlin/io/validk/ValidationResult.kt:59-61 | sets the success handler and leaves the error handler alone |
| Results.LastSuccessSetIffCalled | validk/src/main/kotlin/io/validk/ValidationResult.kt:41-48 | a success handler is available iff the block called `success` at least once |
| Results.LastErrorSetIffCalled | validk/src/main/kotlin/io/validk/ValidationResult.kt:41-48 | an error handler is available iff the block called `error` at least once |
| Results.MapAgreesWithIfFailed | validk/src/main/kotlin/io/validk/ValidationResult.kt:24-39 | `map` and `ifFailed` agree on which variant a result is, and `ifFailed` hands over exactly `allErrors` |
| Constraints.ConstraintValue.Check | validk/src/main/kotlin/io/validk/constraints/Constraint.kt:22-29 | no error iff the predicate accepts; otherwise an error at the path with the message for that value |
| Constraints.Make | validk/src/main/kotlin/io/validk/constraints/Constraint.kt:10 | the predicate, with a message that is the same text for every value |
| Constraints.WithMessage | validk/src/main/kotlin/io/validk/constraints/Constraint.kt:12-15 | same predicate, new fixed message |
| Constraints.Constraint.constructor | validk/src/main/kotlin/io/validk/constraints/Constraint.kt:5-8 | holds the predicate and the message function |
| Constraints.Constraint.WithText | validk/src/main/kotlin/io/validk/constraints/Constraint.kt:10 | holds the predicate and a message that gives the text for every value |
| Constraints.Constraint.Message | validk/src/main/kotlin/io/validk/constraints/Constraint.kt:12-15 | replaces the message with a fixed text and returns the same object |
| Constraints.Constraint.MessageWith | validk/src/main/kotlin/io/validk/constraints/Constraint.kt:17-20 | replaces the message with a function of the value and returns the same object |
| Constraints.Constraint.Check | validk/src/main/kotlin/io/validk/constraints/Constraint.kt:22-29 | no error iff the predicate accepts; otherwise the current message for the value |
| Constraints.CheckAfterMessage | validk/src/main/kotlin/io/validk/constraints/Constraint.kt:12-29 | after `message m`, a rejected value reports exactly `m` |
| Constraints.MessageDoesNotChangeOutcome | validk/src/main/kotlin/io/validk/constraints/Constraint.kt:17-29 | changing the message never changes whether a value passes |
| StringConstraints.NotEmpty | validk/src/main/kotlin/io/validk/constraints/string.kt:7-9 | accepts exactly the non-empty strings; "Cannot be empty" |
| StringConstraints.NotBlank | validk/src/main/kotlin/io/validk/constraints/string.kt:11-13 | accepts exactly the strings with a non-whitespace character; "Cannot be blank" |
| StringConstraints.MinLength | validk/src/main/kotlin/io/validk/constraints/string.kt:15-17 | accepts iff the UTF-16 length is at least n; "Must be at least n characters long" |
| StringConstraints.MaxLength | validk/src/main/kotlin/io/validk/constraints/string.kt:19-21 | accepts iff the UTF-16 length is at most n; "Must be at most n characters long" |
| StringConstraints.Enum | validk/src/main/kotlin/io/validk/constraints/string.kt:23-25 | accepts exactly the listed strings (case-sensitive); "Must be one of: " and the list joined by ", " |
| StringConstraints.EnumOf | validk/src/main/kotlin/io/validk/constraints/string.kt:27 | accepts exactly the constant names, with the same message |
| StringConstraints.Matches | validk/src/main/kotlin/io/validk/constraints/string.kt:29-33 | accepts iff the whole string matches; "Must match pattern " and the pattern |
| StringConstraints.Email | validk/src/main/kotlin/io/validk/constraints/string.kt:5-35 | accepts exactly the strings matching the email pattern; "Must be a valid email" |
| StringConstraints.EmailScanIffPattern | validk/src/main/kotlin/io/validk/constraints/string.kt:5 | the scanning check used by `Email` accepts exactly the strings the pattern describes |
| StringConstraints.WhitespaceIsNotEmptyButBlank | validk/src/main/kotlin/io/validk/constraints/string.kt:7-13 | a string of whitespace only passes `notEmpty` and fails `notBlank` |
| StringConstraints.RejectNonStrings | validk/src/main/kotlin/io/validk/constraints/string.kt:7-35 | no string constraint accepts a value that is not a string |
| StringConstraints.EmailExamples | validk/src/test/kotlin/io/validk/constraints/StringConstraintsTest.kt:113-130 | `test@domain.com` is an email; `test@domain`, `test` and the empty string are not |
| StringConstraints.EnumExamples | validk/src/test/kotlin/io/validk/constraints/StringConstraintsTest.kt:79-87 | a listed name passes, a differently cased one fails, and the message lists the names |
| NumberConstraints.Gte | validk/src/main/kotlin/io/validk/constraints/number.kt:5 | accepts iff x >= value, with its message |
| NumberConstraints.Gt | validk/src/main/kotlin/io/validk/constraints/number.kt:6 | accepts iff x > value, with its message |
| NumberConstraints.Lte | validk/src/main/kotlin/io/validk/constraints/number.kt:7 | accepts iff x <= value, with its message |
| NumberConstraints.Lt | validk/src/main/kotlin/io/validk/constraints/number.kt:8 | accepts iff x < value, with its message |
| NumberConstraints.Between | validk/src/main/kotlin/io/validk/constraints/number.kt:9 | accepts iff start <= x <= endInclusive; "Must be between start and endInclusive" |
| NumberConstraints.LongBehavesLikeInt | validk/src/main/kotlin/io/validk/constraints/number.kt:5-24 | the Long overloads accept and report exactly like the Int ones on the same bounds |
| NumberConstraints.BetweenEndpoints | validk/src/test/kotlin/io/validk/constraints/NumberConstraintsTest.kt:99-103 | both ends of the range pass, and the values just outside fail |
| NumberConstraints.BetweenIsGteAndLte | validk/src/main/kotlin/io/validk/constraints/number.kt:5-9 | `between` accepts iff both `gte(start)` and `lte(endInclusive)` accept |
| NumberConstraints.StrictIsShiftedInclusive | validk/src/main/kotlin/io/validk/constraints/number.kt:5-8 | on integers `gt(a)` is `gte(a + 1)` and `lt(a)` is `lte(a - 1)` |
| NumberConstraints.BetweenMessageExample | validk/src/main/kotlin/io/validk/constraints/number.kt:9 | `between(1..10)` reports "Must be between 1 and 10" |
| CollectionConstraints.NotEmpty | validk/src/main/kotlin/io/validk/constraints/collection.kt:5-8 | accepts exactly the non-empty collections; "Cannot be empty" |
| CollectionConstraints.MinSize | validk/src/main/kotlin/io/validk/constraints/collection.kt:10-12 | accepts iff size >= n; "Should have at least n elements" |
| CollectionConstraints.MaxSize | validk/src/main/kotlin/io/validk/constraints/collection.kt:14-16 | accepts iff size <= n; "Should have at most n elements" |
| CollectionConstraints.SizeOnly | validk/src/main/kotlin/io/validk/constraints/collection.kt:5-16 | the collection constraints look only at the size |
| CollectionConstraints.NotEmptyIsMinSizeOne | validk/src/main/kotlin/io/validk/constraints/collection.kt:5-12 | `notEmpty` accepts exactly what `minSize(1)` accepts |
| LegacyConstraints.Constraint.constructor | validk/src/main/kotlin/io/validk/Constraint.kt:3-6 | holds the message and the check |
| LegacyConstraints.Constraint.Check | validk/src/main/kotlin/io/validk/Constraint.kt:8-14 | no error iff the check passes; otherwise an error at the path with the current message |
| LegacyConstraints.Constraint.SetErrorMessage | validk/src/main/kotlin/io/validk/Constraint.kt:4 | the public `var errorMessage` takes the new message |
| LegacyConstraints.ReassignedMessage | validk/src/main/kotlin/io/validk/Constraint.kt:4-14 | reassigning the message keeps the outcome and changes only the reported message |
| Text.BlankIffAllWhitespace | validk/src/main/kotlin/io/validk/constraints/string.kt:12 | a string is blank iff every character is whitespace |
| Scenarios.FailFastReportsSecondConstraint | validk/src/main/kotlin/io/validk/Validation.kt:100-129 | in the person validation, a non-blank name that fails the pattern and an adult age give only the pattern's error, even when the name is also too short |
| Scenarios.FailFastScenario | validk/src/main/kotlin/io/validk/Validation.kt:88-142 | built and run on the class with a matcher for `[a-zA-Z]+ [a-zA-Z]+`, `Person("test", 23)` fails with exactly the `name` pattern error |
| Scenarios.TestDoesNotMatch | validk/src/test/kotlin/io/validk/BasicPropertiesTest.kt:44 | `test` does not match `[a-zA-Z]+ [a-zA-Z]+` |
| Scenarios.JohnSmithMatches | validk/src/test/kotlin/io/validk/BasicPropertiesTest.kt:44 | `John Smith` matches `[a-zA-Z]+ [a-zA-Z]+` |

## Left out

- Float and Double constraints (`number.kt` lines 41-63): floating point is not modelled.
- Regular expressions: `matches` takes the matcher as a parameter, because no regex engine is modelled. `email` uses its fixed pattern, written out as a scanning check. The person scenario uses a matcher written out for its one pattern, `[a-zA-Z]+ [a-zA-Z]+`.
- PathError.RewriteInsertsAfterEveryMatch: proved only for property names without regex metacharacters, dots or line terminators (`PlainName`). Kotlin property names are identifiers, so this is every real case. `Rewrite` reads the name literally for every name, where Java would read metacharacters in it as regex syntax.
- Reflection: a property is its name, and `get` is a field lookup. Only the fields' order and values are kept.
- `each` on a value that is not a collection validates no element, where Kotlin throws `ClassCastException`. A null element is validated like any value (it gets the null message), where Kotlin's `!!` throws. Exceptions are not modelled.
- A dynamic block cannot itself call `withValue`, `whenIs`, `ifNotNull` or `notNull` on the short-lived node. Without this restriction, termination of `Eval` cannot be shown by the size of the value.
- A dynamic block cannot call `message` on a constraint after the block has returned it. Its constraints arrive with their messages already set.
- The generic `Validation<T>` and `Constraint<T>` are specialised to the one `Value` type.
- `enum<T>()` reads the enum's constant names by reflection. `EnumOf` takes those names as a parameter.
- The typed number overloads (`IntGte`, `LongGte`, `ShortGte` and the like) have no contracts of their own. They are `Gte`… applied to the converted bound, and `LongBehavesLikeInt` relates Long to Int. The Short `lte` takes a Long bound and the Short `between` an `IntRange`, as in the source.
- `ValidObject`, `ValidationCheck`, the `validk-test` assertion helpers and the build files are not part of this model.
- Validations.Validation.AddChildValidation: its contract describes the parent's new state, as the source's only use of the returned child is `notNull`'s `.apply`. Nothing is stated about the returned child object on its own.
- Results.ValidationResult.MapWith: the receiver block is modelled as the sequence of `success`/`error` calls it makes.
- Indices are unbounded integers. A collection with more than 2^31 - 1 elements (Kotlin's `Int` index) is not considered.
- PathError.ValidationError.Indexed: this contract only restates how `indexed` is built. The behaviour is stated by the `Rewrite…` lemmas and the examples.
- Message laziness: a message function is called only for a failing value. In a pure model this has no observable effect.
- The person scenario uses `gte(18)` for the age. The library's older tests use `min(18)` and lower-case messages, which the present code no longer has.
