/**
 * A validation error and the path rewriting applied when errors of a
 * collection element are reported on the parent (`[i]` after the property).
 */
module PathError {
  import opened Text

  /** A path-qualified error message (an immutable Kotlin data class). */
  datatype ValidationError = ValidationError(path: string, message: string)
  {
    /** A copy whose path has `[index]` inserted after `property`; the message is kept. */
    function Indexed(property: string, index: int): (r: ValidationError)
      ensures r.message == message
      ensures r.path == IndexedProperty(path, property, index)
    {
      ValidationError(IndexedProperty(path, property, index), message)
    }
  }

  /**
   * Java's `$` outside multiline mode holds at position `i` of `s`: at the end,
   * or just before a line terminator that ends `s`, where `\r\n` counts as one
   * terminator (so `$` does not hold between its `\r` and its `\n`).
   */
  predicate DollarAt(s: string, i: nat)
  {
    i == |s| ||
    (i + 1 == |s| && IsLineTerminator(s[i]) && !(s[i] == '\n' && i > 0 && s[i - 1] == '\r')) ||
    (i + 2 == |s| && s[i] == '\r' && s[i + 1] == '\n')
  }

  /** The occurrence of `property` at `j` is followed by `.`: the group `(\.|$)` then takes the `.`. */
  predicate DotAfter(s: string, property: string, j: nat)
  {
    j + |property| < |s| && s[j + |property|] == '.'
  }

  /**
   * The regular expression `property(\.|$)` matches at position `j` of `s`:
   * `property` occurs there and is followed by `.` or by a position where `$` holds.
   */
  predicate MatchAt(s: string, property: string, j: nat)
  {
    j + |property| <= |s| && s[j..j + |property|] == property &&
    (DotAfter(s, property, j) || DollarAt(s, j + |property|))
  }

  /**
   * Kotlin's `replace(Regex, replacement)` for the regex `property(\.|$)` and the
   * replacement `property + tag + $1`, as a left-to-right scan from cursor `k`:
   * at each position try a match; on a match emit the replacement and resume
   * after the consumed text, otherwise copy one character and move on. A match
   * through `$` consumes no terminator, and what follows it (nothing, or the
   * final line terminator) is copied.
   */
  function Rewrite(s: string, property: string, tag: string, k: nat): string
    requires k <= |s|
    decreases |s| - k
  {
    if MatchAt(s, property, k) then
      if DotAfter(s, property, k) then property + tag + "." + Rewrite(s, property, tag, k + |property| + 1)
      else property + tag + s[k + |property|..]
    else if k == |s| then ""
    else [s[k]] + Rewrite(s, property, tag, k + 1)
  }

  /** Kotlin's `String.indexedProperty(property, index)`. */
  function IndexedProperty(s: string, property: string, index: int): string
  {
    Rewrite(s, property, "[" + IntToString(index) + "]", 0)
  }

  /**
   * A name that the regular expression reads literally and that holds no `.` and
   * no line terminator (a Kotlin property name).
   */
  predicate PlainName(property: string)
  {
    |property| > 0 &&
    forall i :: 0 <= i < |property| ==> property[i] !in ".[]()\\^$|?*+{}" && !IsLineTerminator(property[i])
  }

  /** A match ends at position `k`: the scan would put a tag right before `s[k]`. */
  predicate EndsAt(s: string, property: string, k: nat)
  {
    k >= |property| && MatchAt(s, property, k - |property|)
  }

  /**
   * Reference definition: `s[k..]` with `tag` inserted at every position where an
   * occurrence of `property` followed by `.` or by a position where `$` holds ends.
   */
  function InsertAfterMatches(s: string, property: string, tag: string, k: nat): string
    requires k <= |s|
    decreases |s| - k
  {
    (if EndsAt(s, property, k) then tag else "") +
    (if k == |s| then "" else [s[k]] + InsertAfterMatches(s, property, tag, k + 1))
  }

  /** No match starts before the cursor and reaches it: the scan state from which rewriting is exact. */
  predicate Clear(s: string, property: string, k: nat)
  {
    forall q :: 0 <= q < k <= q + |property| ==> !MatchAt(s, property, q)
  }

  /** What follows a match, if anything, is its `.` or a line terminator. */
  lemma AfterMatch(s: string, property: string, k: nat)
    requires MatchAt(s, property, k) && k + |property| < |s|
    ensures s[k + |property|] == '.' || IsLineTerminator(s[k + |property|])
  {
  }

  /**
   * A plain name holds no `.` and no line terminator, so a match cannot start
   * inside another match or right after it.
   */
  lemma NoOverlap(s: string, property: string, k: nat, q: nat)
    requires PlainName(property) && MatchAt(s, property, k)
    requires k < q <= k + |property| && (q < k + |property| || k + |property| < |s|)
    ensures !MatchAt(s, property, q)
  {
    var n := |property|;
    if q + n <= |s| {
      var d := k + n;
      AfterMatch(s, property, k);
      assert s[q..q + n][d - q] == s[d];
      assert property[d - q] != '.' && !IsLineTerminator(property[d - q]);
    }
  }

  /** After a match through `$` nothing matches any more: only line terminators are left. */
  lemma NoMatchAfterDollar(s: string, property: string, k: nat)
    requires PlainName(property) && MatchAt(s, property, k) && !DotAfter(s, property, k)
    ensures forall r :: k < r <= |s| ==> !MatchAt(s, property, r)
  {
    var n := |property|;
    forall r | k < r <= |s|
      ensures !MatchAt(s, property, r)
    {
      if r + n <= |s| {
        if r < k + n {
          NoOverlap(s, property, k, r);
        } else {
          assert IsLineTerminator(s[r]);
          assert s[r..r + n][0] == s[r];
          assert !IsLineTerminator(property[0]);
        }
      }
    }
  }

  /** Copying a stretch in which no match ends. */
  lemma {:induction false} InsertCopies(s: string, property: string, tag: string, k: nat, m: nat)
    requires k <= m <= |s|
    requires forall q :: k <= q < m ==> !EndsAt(s, property, q)
    ensures InsertAfterMatches(s, property, tag, k) == s[k..m] + InsertAfterMatches(s, property, tag, m)
    decreases m - k
  {
    if k < m {
      InsertCopies(s, property, tag, k + 1, m);
      ConsSlice(s, k, m, InsertAfterMatches(s, property, tag, m));
    } else {
      assert s[k..m] == [];
    }
  }

  /** Inside a match (its end excluded) no match ends, since no match reaches back across a clear cursor. */
  lemma NoEndInsideMatch(s: string, property: string, k: nat)
    requires Clear(s, property, k) && MatchAt(s, property, k)
    ensures forall q :: k <= q < k + |property| ==> !EndsAt(s, property, q)
  {
    var n := |property|;
    forall q | k <= q < k + n
      ensures !EndsAt(s, property, q)
    {
      if q >= n {
        assert q - n < k <= q - n + n;
      }
    }
  }

  /** After a match and its `.`, no match reaches back across the cursor. */
  lemma ClearAfterMatch(s: string, property: string, k: nat)
    requires PlainName(property) && MatchAt(s, property, k) && k + |property| < |s|
    ensures Clear(s, property, k + |property| + 1)
  {
    forall q | 0 <= q < k + |property| + 1 <= q + |property|
      ensures !MatchAt(s, property, q)
    {
      NoOverlap(s, property, k, q);
    }
  }

  /** After a match through `$`, the reference inserts the tag once and copies the rest. */
  lemma InsertAfterDollar(s: string, property: string, tag: string, k: nat)
    requires PlainName(property) && MatchAt(s, property, k) && !DotAfter(s, property, k)
    ensures InsertAfterMatches(s, property, tag, k + |property|) == tag + s[k + |property|..]
  {
    var n := |property|;
    assert EndsAt(s, property, k + n);
    if k + n < |s| {
      NoMatchAfterDollar(s, property, k);
      forall q | k + n + 1 <= q <= |s|
        ensures !EndsAt(s, property, q)
      {
        assert k < q - n;
      }
      InsertCopies(s, property, tag, k + n + 1, |s|);
      assert s[k + n..] == [s[k + n]] + s[k + n + 1..|s|];
    }
  }

  /**
   * At a match the reference inserts the tag right after the property, then
   * carries on after the `.` from a clear position, or copies the rest after `$`.
   */
  lemma InsertAtMatch(s: string, property: string, tag: string, k: nat)
    requires PlainName(property) && k <= |s| && Clear(s, property, k) && MatchAt(s, property, k)
    ensures DotAfter(s, property, k) ==> Clear(s, property, k + |property| + 1)
    ensures InsertAfterMatches(s, property, tag, k) ==
              property + tag +
              (if DotAfter(s, property, k) then "." + InsertAfterMatches(s, property, tag, k + |property| + 1)
               else s[k + |property|..])
  {
    var n := |property|;
    NoEndInsideMatch(s, property, k);
    InsertCopies(s, property, tag, k, k + n);
    assert s[k..k + n] == property;
    assert EndsAt(s, property, k + n);
    if DotAfter(s, property, k) {
      ClearAfterMatch(s, property, k);
    } else {
      InsertAfterDollar(s, property, tag, k);
    }
  }

  /**
   * The scan inserts the tag after every occurrence of a plain property name that
   * is followed by `.` or by a position where `$` holds, and nowhere else.
   */
  lemma {:induction false} RewriteInsertsAfterEveryMatch(s: string, property: string, tag: string, k: nat)
    requires PlainName(property) && k <= |s| && Clear(s, property, k)
    ensures Rewrite(s, property, tag, k) == InsertAfterMatches(s, property, tag, k)
    decreases |s| - k
  {
    if MatchAt(s, property, k) {
      InsertAtMatch(s, property, tag, k);
      RewriteAtMatch(s, property, tag, k);
      if DotAfter(s, property, k) {
        RewriteInsertsAfterEveryMatch(s, property, tag, k + |property| + 1);
      }
    } else if k < |s| {
      ClearStep(s, property, tag, k);
      RewriteStep(s, property, tag, k);
      RewriteInsertsAfterEveryMatch(s, property, tag, k + 1);
    } else {
      ClearStep(s, property, tag, k);
    }
  }

  /** Where no match starts at a clear cursor: no match ends there, the reference copies one character, and the next cursor is clear. */
  lemma ClearStep(s: string, property: string, tag: string, k: nat)
    requires k <= |s| && Clear(s, property, k) && !MatchAt(s, property, k)
    ensures !EndsAt(s, property, k)
    ensures k < |s| ==> Clear(s, property, k + 1)
    ensures k < |s| ==> InsertAfterMatches(s, property, tag, k) == [s[k]] + InsertAfterMatches(s, property, tag, k + 1)
    ensures k == |s| ==> InsertAfterMatches(s, property, tag, k) == ""
  {
    if 0 < |property| <= k {
      assert k - |property| < k <= k - |property| + |property|;
    }
  }

  /** A path in which no occurrence of the property is followed by `.` or `$` is returned unchanged, and conversely. */
  lemma {:induction false} RewriteUnchangedIffNoMatch(s: string, property: string, tag: string, k: nat)
    requires k <= |s| && tag != ""
    ensures Rewrite(s, property, tag, k) == s[k..] <==> forall j :: k <= j <= |s| ==> !MatchAt(s, property, j)
    decreases |s| - k
  {
    RewriteLength(s, property, tag, k);
    if MatchAt(s, property, k) {
    } else if k < |s| {
      RewriteUnchangedIffNoMatch(s, property, tag, k + 1);
      assert s[k..] == [s[k]] + s[k + 1..];
    }
  }

  /** The scan never shortens its input, and lengthens it (by at least the tag) iff some match lies ahead. */
  lemma RewriteLength(s: string, property: string, tag: string, k: nat)
    requires k <= |s|
    ensures |Rewrite(s, property, tag, k)| >= |s| - k
    ensures (exists j :: k <= j <= |s| && MatchAt(s, property, j)) ==> |Rewrite(s, property, tag, k)| >= |s| - k + |tag|
    ensures (forall j :: k <= j <= |s| ==> !MatchAt(s, property, j)) ==> Rewrite(s, property, tag, k) == s[k..]
  {
    RewriteNoShorter(s, property, tag, k);
    if forall j :: k <= j <= |s| ==> !MatchAt(s, property, j) {
      RewriteCopies(s, property, tag, k, |s|);
      assert s[k..|s|] == s[k..];
    }
  }

  lemma {:induction false} RewriteNoShorter(s: string, property: string, tag: string, k: nat)
    requires k <= |s|
    ensures |Rewrite(s, property, tag, k)| >= |s| - k
    ensures (exists j :: k <= j <= |s| && MatchAt(s, property, j)) ==> |Rewrite(s, property, tag, k)| >= |s| - k + |tag|
    decreases |s| - k
  {
    if MatchAt(s, property, k) {
      RewriteAtMatch(s, property, tag, k);
      if DotAfter(s, property, k) {
        RewriteNoShorter(s, property, tag, k + |property| + 1);
      }
    } else if k < |s| {
      RewriteStep(s, property, tag, k);
      RewriteNoShorter(s, property, tag, k + 1);
      if exists j :: k <= j <= |s| && MatchAt(s, property, j) {
        var j :| k <= j <= |s| && MatchAt(s, property, j);
        assert j != k;
      }
    }
  }

  /** An occurrence followed by `[` (a property indexed already) is not a match. */
  lemma IndexedOccurrenceIsNotMatch(s: string, property: string, j: nat)
    requires j + |property| < |s| && s[j + |property|] == '['
    ensures !MatchAt(s, property, j)
  {
  }

  /** At a match the scan emits the replacement, then goes on after the `.` or copies what follows `$`. */
  lemma RewriteAtMatch(s: string, property: string, tag: string, k: nat)
    requires k <= |s| && MatchAt(s, property, k)
    ensures Rewrite(s, property, tag, k) ==
              property + tag +
              (if DotAfter(s, property, k) then "." + Rewrite(s, property, tag, k + |property| + 1)
               else s[k + |property|..])
  {
    if DotAfter(s, property, k) {
      assert property + tag + "." + Rewrite(s, property, tag, k + |property| + 1) ==
             property + tag + ("." + Rewrite(s, property, tag, k + |property| + 1));
    }
  }

  /** The scan copies one character where no match starts. */
  lemma RewriteStep(s: string, property: string, tag: string, k: nat)
    requires k < |s| && !MatchAt(s, property, k)
    ensures Rewrite(s, property, tag, k) == [s[k]] + Rewrite(s, property, tag, k + 1)
  {
  }

  /** Positions without a match are copied verbatim. */
  lemma {:induction false} RewriteCopies(s: string, property: string, tag: string, k: nat, m: nat)
    requires k <= m <= |s|
    requires forall j :: k <= j < m ==> !MatchAt(s, property, j)
    ensures Rewrite(s, property, tag, k) == s[k..m] + Rewrite(s, property, tag, m)
    decreases m - k
  {
    if k < m {
      RewriteStep(s, property, tag, k);
      RewriteCopies(s, property, tag, k + 1, m);
      ConsSlice(s, k, m, Rewrite(s, property, tag, m));
    } else {
      assert s[k..m] == [];
    }
  }

  /** Prepending `s[k]` to a copy of `s[k + 1..m]` copies `s[k..m]`. */
  lemma ConsSlice(s: string, k: nat, m: nat, rest: string)
    requires k < m <= |s|
    ensures [s[k]] + (s[k + 1..m] + rest) == s[k..m] + rest
  {
    assert s[k..m] == [s[k]] + s[k + 1..m];
  }

  lemma FirstCharMismatch(s: string, property: string, j: nat)
    requires property != [] && j < |s| && s[j] != property[0]
    ensures !MatchAt(s, property, j)
  {
    if j + |property| <= |s| {
      assert s[j..j + |property|][0] == s[j];
    }
  }

  /** A position where some character of the property differs is not a match. */
  lemma CharMismatch(s: string, property: string, j: nat, d: nat)
    requires d < |property| && j + d < |s| && s[j + d] != property[d]
    ensures !MatchAt(s, property, j)
  {
    if j + |property| <= |s| {
      assert s[j..j + |property|][d] == s[j + d];
    }
  }

  /** No match starts where the property's first character is absent. */
  lemma NoMatchWithoutFirstChar(s: string, property: string, k: nat, m: nat)
    requires property != [] && k <= m <= |s| && property[0] !in s[k..m]
    ensures forall j :: k <= j < m ==> !MatchAt(s, property, j)
  {
    forall j | k <= j < m
      ensures !MatchAt(s, property, j)
    {
      assert s[j] == s[k..m][j - k];
      FirstCharMismatch(s, property, j);
    }
  }

  /** No match starts too close to the end for the property to fit. */
  lemma NoMatchNearEnd(s: string, property: string, k: nat)
    requires |s| < k + |property|
    ensures forall j :: k <= j <= |s| ==> !MatchAt(s, property, j)
  {
  }
}

/** Worked examples of `indexedProperty`, from the library's own tests. */
module PathErrorExamples {
  import opened Text
  import opened PathError

  /** `"name".indexedProperty("name", 1)` is `"name[1]"`. */
  lemma ExampleWholePath()
    ensures IndexedProperty("name", "name", 1) == "name[1]"
  {
    assert IntToString(1) == "1";
    assert MatchAt("name", "name", 0);
  }

  /** Indexing an error rewrites its path and keeps its message. */
  lemma ExampleIndexedError()
    ensures ValidationError("name", "Must not be blank").Indexed("name", 1) == ValidationError("name[1]", "Must not be blank")
  {
    ExampleWholePath();
  }

  /** `"name.child".indexedProperty("name", 1)` is `"name[1].child"`. */
  lemma ExampleLeadingSegment()
    ensures IndexedProperty("name.child", "name", 1) == "name[1].child"
  {
    var s := "name.child";
    assert IntToString(1) == "1";
    assert MatchAt(s, "name", 0);
    NoMatchNearEnd(s, "name", 7);
    NoMatchWithoutFirstChar(s, "name", 5, 7);
    RewriteLength(s, "name", "[1]", 5);
  }

  /** Java's `$` also holds before a final line terminator: `"name\n".indexedProperty("name", 1)` is `"name[1]\n"`. */
  lemma ExampleFinalNewline()
    ensures IndexedProperty("name\n", "name", 1) == "name[1]\n"
  {
    var s := "name\n";
    assert IntToString(1) == "1";
    assert s[0..4] == "name" && IsLineTerminator(s[4]);
    assert MatchAt(s, "name", 0) && !DotAfter(s, "name", 0);
    assert s[4..] == "\n";
  }

  /** A final `\r\n` counts as one terminator: `"name\r\n".indexedProperty("name", 1)` is `"name[1]\r\n"`. */
  lemma ExampleFinalCrLf()
    ensures IndexedProperty("name\r\n", "name", 1) == "name[1]\r\n"
  {
    var s := "name\r\n";
    assert IntToString(1) == "1";
    assert s[0..4] == "name" && s[4] == '\r' && s[5] == '\n';
    assert MatchAt(s, "name", 0) && !DotAfter(s, "name", 0);
    assert s[4..] == "\r\n";
  }

  /** Two line terminators after the name leave `$` unmatched there, so `"name\n\n"` is returned unchanged. */
  lemma ExampleTwoNewlines()
    ensures IndexedProperty("name\n\n", "name", 1) == "name\n\n"
  {
    var s := "name\n\n";
    assert !DollarAt(s, 4);
    assert !MatchAt(s, "name", 0);
    NoMatchWithoutFirstChar(s, "name", 1, 3);
    NoMatchNearEnd(s, "name", 3);
    RewriteLength(s, "name", "[" + IntToString(1) + "]", 0);
  }

  lemma PostCodesHead(s: string, property: string, tag: string)
    requires s == "address.postCodes.value" && property == "postCodes" && tag == "[5]"
    ensures Rewrite(s, property, tag, 0) == "address." + Rewrite(s, property, tag, 8)
  {
    assert s[0..8] == "address.";
    NoMatchWithoutFirstChar(s, property, 0, 8);
    RewriteCopies(s, property, tag, 0, 8);
  }

  lemma PostCodesRest(s: string, property: string, tag: string)
    requires s == "address.postCodes.value" && property == "postCodes" && tag == "[5]"
    ensures Rewrite(s, property, tag, 8) == "postCodes[5].value"
  {
    assert s[8..17] == property;
    assert MatchAt(s, property, 8);
    NoMatchNearEnd(s, property, 18);
    RewriteLength(s, property, tag, 18);
    assert s[18..] == "value";
  }

  /** `"address.postCodes.value".indexedProperty("postCodes", 5)` is `"address.postCodes[5].value"`. */
  lemma ExampleMiddleSegment()
    ensures IndexedProperty("address.postCodes.value", "postCodes", 5) == "address.postCodes[5].value"
  {
    PostCodes("address.postCodes.value", "postCodes", "[5]");
    assert "[" + IntToString(5) + "]" == "[5]";
  }

  lemma PostCodes(s: string, property: string, tag: string)
    requires s == "address.postCodes.value" && property == "postCodes" && tag == "[5]"
    ensures Rewrite(s, property, tag, 0) == "address.postCodes[5].value"
  {
    PostCodesHead(s, property, tag);
    PostCodesRest(s, property, tag);
    assert "address." + "postCodes[5].value" == "address.postCodes[5].value";
  }

  /** Matching is by substring: `name` inside `xname` is rewritten too. */
  lemma ExampleSubstringMatch()
    ensures IndexedProperty("xname.a", "name", 1) == "xname[1].a"
  {
    var s, property, tag := "xname.a", "name", "[1]";
    assert "[" + IntToString(1) + "]" == tag;
    FirstCharMismatch(s, property, 0);
    RewriteCopies(s, property, tag, 0, 1);
    assert s[1..5] == property;
    assert MatchAt(s, property, 1);
    NoMatchNearEnd(s, property, 6);
    RewriteLength(s, property, tag, 6);
    assert s[0..1] == "x";
    assert s[6..] == "a";
  }

  lemma RolesHead(s: string, property: string, tag: string)
    requires s == "employees.roles.types" && property == "roles" && tag == "[0]"
    ensures Rewrite(s, property, tag, 0) == "employees." + Rewrite(s, property, tag, 10)
  {
    assert s[0..10] == "employees.";
    NoMatchWithoutFirstChar(s, property, 0, 10);
    RewriteCopies(s, property, tag, 0, 10);
  }

  lemma RolesRest(s: string, property: string, tag: string)
    requires s == "employees.roles.types" && property == "roles" && tag == "[0]"
    ensures Rewrite(s, property, tag, 10) == "roles[0].types"
  {
    assert s[10..15] == property;
    assert MatchAt(s, property, 10);
    assert s[16..] == "types";
    FirstCharMismatch(s, property, 16);
    NoMatchNearEnd(s, property, 17);
    RewriteLength(s, property, tag, 16);
  }

  /** The errors of a collection inside a collection element: the inner index is added first. */
  lemma ExampleInnerIndex()
    ensures IndexedProperty("employees.roles.types", "roles", 0) == "employees.roles[0].types"
  {
    Roles("employees.roles.types", "roles", "[0]");
    assert "[" + IntToString(0) + "]" == "[0]";
  }

  lemma Roles(s: string, property: string, tag: string)
    requires s == "employees.roles.types" && property == "roles" && tag == "[0]"
    ensures Rewrite(s, property, tag, 0) == "employees.roles[0].types"
  {
    RolesHead(s, property, tag);
    RolesRest(s, property, tag);
    assert "employees." + "roles[0].types" == "employees.roles[0].types";
  }

  lemma EmployeesRest(s: string, property: string, tag: string)
    requires s == "employees.roles[0].types" && property == "employees" && tag == "[1]"
    ensures Rewrite(s, property, tag, 10) == "roles[0].types"
  {
    assert s[10..13] == "rol" && s[14..16] == "s[";
    NoMatchWithoutFirstChar(s, property, 10, 13);
    CharMismatch(s, property, 13, 1);
    NoMatchWithoutFirstChar(s, property, 14, 16);
    NoMatchNearEnd(s, property, 16);
    RewriteLength(s, property, tag, 10);
    assert s[10..] == "roles[0].types";
  }

  /** ... then the outer index; the indexed inner occurrence is left alone. */
  lemma ExampleOuterIndex()
    ensures IndexedProperty("employees.roles[0].types", "employees", 1) == "employees[1].roles[0].types"
  {
    Employees("employees.roles[0].types", "employees", "[1]");
    assert "[" + IntToString(1) + "]" == "[1]";
  }

  lemma Employees(s: string, property: string, tag: string)
    requires s == "employees.roles[0].types" && property == "employees" && tag == "[1]"
    ensures Rewrite(s, property, tag, 0) == "employees[1].roles[0].types"
  {
    EmployeesHead(s, property, tag);
    EmployeesRest(s, property, tag);
    assert "employees[1]." + "roles[0].types" == "employees[1].roles[0].types";
  }

  lemma EmployeesHead(s: string, property: string, tag: string)
    requires s == "employees.roles[0].types" && property == "employees" && tag == "[1]"
    ensures Rewrite(s, property, tag, 0) == "employees[1]." + Rewrite(s, property, tag, 10)
  {
    assert s[0..9] == property;
    assert MatchAt(s, property, 0);
    assert property + tag + "." == "employees[1].";
  }
}
