/** The built-in constraints of a string node (`Validation<String>`). */
module StringConstraints {
  import opened Values
  import opened Text
  import opened Constraints

  /** A predicate on strings, read on a value: a value that is not a string never passes. */
  function OnString(p: string -> bool): Value -> bool
  {
    (v: Value) => v.Str? && p(v.s)
  }

  /** `notEmpty()`. */
  function NotEmpty(): (r: ConstraintValue)
    ensures forall s :: r.accepts(Str(s)) <==> s != ""
    ensures forall v :: r.message(v) == "Cannot be empty"
  {
    Make("Cannot be empty", OnString(s => s != ""))
  }

  /** `notBlank()`. */
  function NotBlank(): (r: ConstraintValue)
    ensures forall s :: r.accepts(Str(s)) <==> exists i :: 0 <= i < |s| && !IsWhitespace(s[i])
    ensures forall v :: r.message(v) == "Cannot be blank"
  {
    var c := Make("Cannot be blank", OnString(s => !IsBlank(s)));
    assert forall s :: c.accepts(Str(s)) <==> exists i :: 0 <= i < |s| && !IsWhitespace(s[i]) by {
      forall s {
        BlankIffAllWhitespace(s);
      }
    }
    c
  }

  /** `minLength(n)`: the length counts UTF-16 code units, as Kotlin's `String.length` does. */
  function MinLength(minLength: int32): (r: ConstraintValue)
    ensures forall s :: r.accepts(Str(s)) <==> Utf16Length(s) >= minLength as int
    ensures forall v :: r.message(v) == "Must be at least " + IntToString(minLength as int) + " characters long"
  {
    Make("Must be at least " + IntToString(minLength as int) + " characters long",
         OnString(s => Utf16Length(s) >= minLength as int))
  }

  /** `maxLength(n)`. */
  function MaxLength(maxLength: int32): (r: ConstraintValue)
    ensures forall s :: r.accepts(Str(s)) <==> Utf16Length(s) <= maxLength as int
    ensures forall v :: r.message(v) == "Must be at most " + IntToString(maxLength as int) + " characters long"
  {
    Make("Must be at most " + IntToString(maxLength as int) + " characters long",
         OnString(s => Utf16Length(s) <= maxLength as int))
  }

  /** `enum(vararg values)`: exact, case-sensitive membership; the message lists the values in the given order. */
  function Enum(values: seq<string>): (r: ConstraintValue)
    ensures forall s :: r.accepts(Str(s)) <==> exists i :: 0 <= i < |values| && values[i] == s
    ensures forall v :: r.message(v) == "Must be one of: " + Join(values, ", ")
  {
    Make("Must be one of: " + Join(values, ", "), OnString(s => s in values))
  }

  /** `enum<T>()`: `enum` over the names of the enum class's constants, in declaration order. */
  function EnumOf(constantNames: seq<string>): (r: ConstraintValue)
    ensures forall s :: r.accepts(Str(s)) <==> s in constantNames
    ensures forall v :: r.message(v) == "Must be one of: " + Join(constantNames, ", ")
  {
    Enum(constantNames)
  }

  /**
   * `matches(regex)` and `matches(regexPattern)`: the whole string must match.
   * The regular-expression engine is not modelled; `matcher` is the compiled
   * pattern's whole-string match.
   */
  function Matches(pattern: string, matcher: string -> bool): (r: ConstraintValue)
    ensures forall s :: r.accepts(Str(s)) <==> matcher(s)
    ensures forall v :: r.message(v) == "Must match pattern " + pattern
  {
    Make("Must match pattern " + pattern, OnString(matcher))
  }

  /** The pattern `REGEX_EMAIL`. */
  const EmailPattern: string := ".+@.+\\..+"

  /**
   * Reference: `s` matches `.+@.+\..+` as a whole. Each `.+` is a non-empty run
   * without line terminators, so the string splits as `A@B.C` with `A`, `B`
   * and `C` non-empty.
   */
  predicate MatchesEmailPattern(s: string)
  {
    (forall k :: 0 <= k < |s| ==> !IsLineTerminator(s[k])) &&
    exists i, j :: 1 <= i && i + 2 <= j <= |s| - 2 && s[i] == '@' && s[j] == '.'
  }

  /** The first index at or after `from` holding `c`. */
  function IndexOf(s: string, c: char, from: nat): (r: int)
    requires from <= |s|
    ensures r == -1 || from <= r < |s|
    ensures r == -1 <==> forall k :: from <= k < |s| ==> s[k] != c
    ensures r != -1 ==> s[r] == c && forall k :: from <= k < r ==> s[k] != c
    decreases |s| - from
  {
    if from == |s| then -1 else if s[from] == c then from else IndexOf(s, c, from + 1)
  }

  /** The last index below `upTo` holding `c`. */
  function LastIndexOf(s: string, c: char, upTo: nat): (r: int)
    requires upTo <= |s|
    ensures -1 <= r < upTo
    ensures r == -1 <==> forall k :: 0 <= k < upTo ==> s[k] != c
    ensures r != -1 ==> s[r] == c && forall k :: r < k < upTo ==> s[k] != c
  {
    if upTo == 0 then -1 else if s[upTo - 1] == c then upTo - 1 else LastIndexOf(s, c, upTo - 1)
  }

  function NoLineTerminator(s: string): bool
  {
    s == [] || (!IsLineTerminator(s[0]) && NoLineTerminator(s[1..]))
  }

  /** The email check as a scan: the first `@` after position 0 and the last `.` before the final character must leave room for non-empty parts. */
  predicate IsEmail(s: string)
  {
    |s| >= 1 && NoLineTerminator(s) &&
    var i := IndexOf(s, '@', 1);
    var j := LastIndexOf(s, '.', |s| - 1);
    i != -1 && i + 2 <= j <= |s| - 2
  }

  lemma {:induction false} NoLineTerminatorIffAll(s: string)
    ensures NoLineTerminator(s) <==> forall k :: 0 <= k < |s| ==> !IsLineTerminator(s[k])
  {
    if s != [] {
      NoLineTerminatorIffAll(s[1..]);
      assert forall k :: 1 <= k < |s| ==> s[k] == s[1..][k - 1];
    }
  }

  /** The scan accepts exactly the strings that match the email pattern. */
  lemma EmailScanIffPattern(s: string)
    ensures IsEmail(s) <==> MatchesEmailPattern(s)
  {
    NoLineTerminatorIffAll(s);
    if MatchesEmailPattern(s) {
      var i, j :| 1 <= i && i + 2 <= j <= |s| - 2 && s[i] == '@' && s[j] == '.';
      var f := IndexOf(s, '@', 1);
      var l := LastIndexOf(s, '.', |s| - 1);
      assert f != -1 && f <= i;
      assert l != -1 && l >= j;
      assert NoLineTerminator(s);
      assert IsEmail(s);
    }
    if IsEmail(s) {
      var f := IndexOf(s, '@', 1);
      var l := LastIndexOf(s, '.', |s| - 1);
      assert 1 <= f && f + 2 <= l <= |s| - 2 && s[f] == '@' && s[l] == '.';
      assert forall k :: 0 <= k < |s| ==> !IsLineTerminator(s[k]);
      assert MatchesEmailPattern(s);
    }
  }

  /** `email()`: `matches(REGEX_EMAIL)` with the message replaced. */
  function Email(): (r: ConstraintValue)
    ensures forall s :: r.accepts(Str(s)) <==> MatchesEmailPattern(s)
    ensures forall v :: r.message(v) == "Must be a valid email"
  {
    var c := WithMessage(Matches(EmailPattern, IsEmail), "Must be a valid email");
    assert forall s :: c.accepts(Str(s)) <==> MatchesEmailPattern(s) by {
      forall s {
        EmailScanIffPattern(s);
      }
    }
    c
  }

  /** Whitespace passes `notEmpty` but not `notBlank`. */
  lemma WhitespaceIsNotEmptyButBlank(s: string)
    requires s != [] && forall i :: 0 <= i < |s| ==> IsWhitespace(s[i])
    ensures NotEmpty().accepts(Str(s)) && !NotBlank().accepts(Str(s))
  {
    BlankIffAllWhitespace(s);
  }

  /** Every string constraint fails on a value that is not a string. */
  lemma RejectNonStrings(v: Value, n: int32, values: seq<string>, pattern: string, matcher: string -> bool)
    requires !v.Str?
    ensures !NotEmpty().accepts(v) && !NotBlank().accepts(v)
    ensures !MinLength(n).accepts(v) && !MaxLength(n).accepts(v)
    ensures !Enum(values).accepts(v) && !Matches(pattern, matcher).accepts(v) && !Email().accepts(v)
  {
  }

  /** The email examples: an address passes; a missing dot, a missing `@` and the empty string fail. */
  lemma EmailExamples()
    ensures MatchesEmailPattern("test@domain.com")
    ensures !MatchesEmailPattern("test@domain")
    ensures !MatchesEmailPattern("test")
    ensures !MatchesEmailPattern("")
  {
    var a := "test@domain.com";
    assert 1 <= 4 && 4 + 2 <= 11 <= |a| - 2 && a[4] == '@' && a[11] == '.';
    var b := "test@domain";
    assert forall j :: 0 <= j < |b| ==> b[j] != '.';
    var c := "test";
    assert forall i :: 0 <= i < |c| ==> c[i] != '@';
  }

  /** The examples of `enum`: exact membership, and the message of `enum("DIRECTOR", "EMPLOYEE")`. */
  lemma EnumExamples()
    ensures Enum(["COMPANY", "PERSON"]).message(Str("NOTHING")) == "Must be one of: COMPANY, PERSON"
    ensures !Enum(["COMPANY", "PERSON"]).accepts(Str("person"))
    ensures Enum(["COMPANY", "PERSON"]).accepts(Str("PERSON"))
  {
    assert Join(["COMPANY", "PERSON"], ", ") == "COMPANY, PERSON";
  }
}
