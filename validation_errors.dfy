/** The ordered error list of a failure and the views derived from it. */
module ErrorList {
  import opened Wrappers
  import opened PathError

  /** The messages recorded for one path, in the order they were reported. */
  datatype PathMessages = PathMessages(path: string, messages: seq<string>)

  /** Kotlin's `ValidationErrors(errors)`; the vararg constructor builds the same value. */
  datatype ValidationErrors = ValidationErrors(errors: seq<ValidationError>)
  {
    /** `errorsByPath`: the errors grouped by path, paths in first-seen order. */
    function ErrorsByPath(): seq<PathMessages>
    {
      GroupByPath(errors)
    }

    /** `errors(path)`: the messages for `path`, or none. */
    function Errors(path: string): (r: seq<string>)
      ensures r == MessagesAt(errors, path)
    {
      GroupByPathFind(errors, path);
      match Find(ErrorsByPath(), path)
      case Some(ms) => ms
      case None => []
    }

    /** `error(path)`: the first message for `path`, or null. */
    function Error(path: string): (r: Option<string>)
      ensures r.None? <==> forall i :: 0 <= i < |errors| ==> errors[i].path != path
      ensures r.Some? ==> exists i :: 0 <= i < |errors| && errors[i].path == path && r.value == errors[i].message &&
                                      forall j :: 0 <= j < i ==> errors[j].path != path
    {
      GroupByPathFind(errors, path);
      MessagesAtFirst(errors, path);
      match Find(ErrorsByPath(), path)
      case Some(ms) => if ms == [] then None else Some(ms[0])
      case None => None
    }

    /** `failedProperties`: the set of paths that carry an error. */
    function FailedProperties(): (r: set<string>)
      ensures forall p :: p in r <==> exists i :: 0 <= i < |errors| && errors[i].path == p
    {
      set i | 0 <= i < |errors| :: errors[i].path
    }

    /** `hasErrors(path)`. */
    predicate HasErrors(path: string)
    {
      path in FailedProperties()
    }
  }

  /** Kotlin's `ValidationErrors(path, message)`: exactly one error. */
  function Single(path: string, message: string): (r: ValidationErrors)
    ensures r.errors == [ValidationError(path, message)]
    ensures r.FailedProperties() == {path}
  {
    var es := ValidationErrors([ValidationError(path, message)]);
    assert es.errors[0].path == path;
    es
  }

  /** Reference: the messages of the entries at `path`, in order. */
  function MessagesAt(errors: seq<ValidationError>, path: string): seq<string>
  {
    if errors == [] then []
    else MessagesAt(errors[..|errors| - 1], path) +
         (if errors[|errors| - 1].path == path then [errors[|errors| - 1].message] else [])
  }

  /** Reference: the distinct paths of the entries, in first-seen order. */
  function FirstSeenPaths(errors: seq<ValidationError>): seq<string>
  {
    if errors == [] then []
    else
      var ps := FirstSeenPaths(errors[..|errors| - 1]);
      if errors[|errors| - 1].path in ps then ps else ps + [errors[|errors| - 1].path]
  }

  function Paths(groups: seq<PathMessages>): seq<string>
  {
    seq(|groups|, i requires 0 <= i < |groups| => groups[i].path)
  }

  /** Lookup in the grouped view (the first group with that path). */
  function Find(groups: seq<PathMessages>, path: string): Option<seq<string>>
  {
    if groups == [] then None
    else if groups[0].path == path then Some(groups[0].messages)
    else Find(groups[1..], path)
  }

  function Appended(group: Option<seq<string>>, m: string): Option<seq<string>>
  {
    match group
    case Some(ms) => Some(ms + [m])
    case None => Some([m])
  }

  /** `groupBy` into an insertion-ordered map: append to the path's group, or open a new group at the end. */
  function AddToGroup(groups: seq<PathMessages>, e: ValidationError): seq<PathMessages>
  {
    if groups == [] then [PathMessages(e.path, [e.message])]
    else if groups[0].path == e.path then [PathMessages(e.path, groups[0].messages + [e.message])] + groups[1..]
    else [groups[0]] + AddToGroup(groups[1..], e)
  }

  /** Kotlin's `groupBy { it.path }` followed by mapping each group to its messages. */
  function GroupByPath(errors: seq<ValidationError>): seq<PathMessages>
  {
    if errors == [] then [] else AddToGroup(GroupByPath(errors[..|errors| - 1]), errors[|errors| - 1])
  }

  lemma {:induction false} AddToGroupShape(groups: seq<PathMessages>, e: ValidationError)
    ensures Paths(AddToGroup(groups, e)) == if e.path in Paths(groups) then Paths(groups) else Paths(groups) + [e.path]
    ensures forall p :: Find(AddToGroup(groups, e), p) == if p != e.path then Find(groups, p) else Appended(Find(groups, p), e.message)
  {
    if groups != [] {
      AddToGroupShape(groups[1..], e);
      assert Paths(groups) == [groups[0].path] + Paths(groups[1..]);
      var r := AddToGroup(groups, e);
      if groups[0].path == e.path {
        assert Paths(r) == [e.path] + Paths(groups[1..]);
      } else {
        assert Paths(r) == [groups[0].path] + Paths(AddToGroup(groups[1..], e));
      }
    }
  }

  /**
   * The grouped view is exact: its paths are the distinct entry paths in
   * first-seen order, and each path's group holds every message for that path, in order.
   */
  lemma {:induction false} GroupByPathExact(errors: seq<ValidationError>)
    ensures Paths(GroupByPath(errors)) == FirstSeenPaths(errors)
  {
    if errors != [] {
      var init := errors[..|errors| - 1];
      GroupByPathExact(init);
      AddToGroupShape(GroupByPath(init), errors[|errors| - 1]);
    }
  }

  lemma {:induction false} GroupByPathFind(errors: seq<ValidationError>, p: string)
    ensures Find(GroupByPath(errors), p) == if MessagesAt(errors, p) == [] then None else Some(MessagesAt(errors, p))
  {
    if errors != [] {
      var init := errors[..|errors| - 1];
      var e := errors[|errors| - 1];
      GroupByPathFind(init, p);
      AddToGroupShape(GroupByPath(init), e);
      assert GroupByPath(errors) == AddToGroup(GroupByPath(init), e);
      assert MessagesAt(errors, p) == MessagesAt(init, p) + (if e.path == p then [e.message] else []);
      if e.path == p {
        assert Find(GroupByPath(errors), p) == Appended(Find(GroupByPath(init), p), e.message);
        assert MessagesAt(errors, p) == MessagesAt(init, p) + [e.message];
        if MessagesAt(init, p) == [] {
          assert MessagesAt(errors, p) == [e.message];
        }
      } else {
        assert Find(GroupByPath(errors), p) == Find(GroupByPath(init), p);
        assert MessagesAt(errors, p) == MessagesAt(init, p) + [];
        assert MessagesAt(init, p) + [] == MessagesAt(init, p);
      }
    }
  }

  lemma {:induction false} FirstSeenIffMessages(errors: seq<ValidationError>, p: string)
    ensures p in FirstSeenPaths(errors) <==> MessagesAt(errors, p) != []
  {
    if errors != [] {
      FirstSeenIffMessages(errors[..|errors| - 1], p);
    }
  }


  /** The first message at a path is that of the first entry with that path. */
  lemma {:induction false} MessagesAtFirst(errors: seq<ValidationError>, path: string)
    ensures MessagesAt(errors, path) == [] <==> forall i :: 0 <= i < |errors| ==> errors[i].path != path
    ensures MessagesAt(errors, path) != [] ==>
      exists i :: 0 <= i < |errors| && errors[i].path == path && MessagesAt(errors, path)[0] == errors[i].message &&
                  forall j :: 0 <= j < i ==> errors[j].path != path
  {
    if errors != [] {
      var init := errors[..|errors| - 1];
      MessagesAtFirst(init, path);
      assert forall i :: 0 <= i < |init| ==> init[i] == errors[i];
    }
  }

  /** The first-seen path list has no repetitions and names exactly the failed properties. */
  lemma {:induction false} FirstSeenPathsDistinctAndComplete(errors: seq<ValidationError>)
    ensures forall i, j :: 0 <= i < j < |FirstSeenPaths(errors)| ==> FirstSeenPaths(errors)[i] != FirstSeenPaths(errors)[j]
    ensures forall p :: p in FirstSeenPaths(errors) <==> p in ValidationErrors(errors).FailedProperties()
  {
    if errors != [] {
      var init := errors[..|errors| - 1];
      FirstSeenPathsDistinctAndComplete(init);
      assert forall i :: 0 <= i < |init| ==> init[i] == errors[i];
      forall p ensures p in FirstSeenPaths(errors) <==> p in ValidationErrors(errors).FailedProperties() {
        if p in ValidationErrors(errors).FailedProperties() {
          var i :| 0 <= i < |errors| && errors[i].path == p;
          if i < |init| {
            assert p in ValidationErrors(init).FailedProperties();
          }
        }
      }
    }
  }

  /** `errorsByPath` lists each failed property once, in first-seen order, with all its messages. */
  lemma ErrorsByPathMatchesFailedProperties(es: ValidationErrors)
    ensures Paths(es.ErrorsByPath()) == FirstSeenPaths(es.errors)
    ensures forall i, j :: 0 <= i < j < |es.ErrorsByPath()| ==> es.ErrorsByPath()[i].path != es.ErrorsByPath()[j].path
    ensures forall p :: p in Paths(es.ErrorsByPath()) <==> p in es.FailedProperties()
    ensures forall p :: Find(es.ErrorsByPath(), p) == if es.HasErrors(p) then Some(MessagesAt(es.errors, p)) else None
  {
    GroupByPathExact(es.errors);
    forall p ensures Find(es.ErrorsByPath(), p) == if es.HasErrors(p) then Some(MessagesAt(es.errors, p)) else None {
      GroupByPathFind(es.errors, p);
      FirstSeenIffMessages(es.errors, p);
      FirstSeenPathsDistinctAndComplete(es.errors);
    }
    FirstSeenPathsDistinctAndComplete(es.errors);
    var ps := Paths(es.ErrorsByPath());
    assert forall i :: 0 <= i < |ps| ==> ps[i] == es.ErrorsByPath()[i].path;
  }
}

/** Worked examples of the grouped views, from the library's own tests. */
module ErrorListExamples {
  import opened Wrappers
  import opened PathError
  import opened ErrorList

  /** Two messages for `name` are grouped together, in order, ahead of the later path. */
  lemma ExampleErrorsByPath()
    ensures ValidationErrors([ValidationError("name", "Must not be blank"),
                              ValidationError("name", "Must be at least 10 characters long"),
                              ValidationError("addresses[2].postcode.value", "Must not be blank")]).ErrorsByPath() ==
            [PathMessages("name", ["Must not be blank", "Must be at least 10 characters long"]),
             PathMessages("addresses[2].postcode.value", ["Must not be blank"])]
  {
    var e0 := ValidationError("name", "Must not be blank");
    var e1 := ValidationError("name", "Must be at least 10 characters long");
    var e2 := ValidationError("addresses[2].postcode.value", "Must not be blank");
    assert [e0, e1, e2][..2] == [e0, e1];
    assert [e0, e1][..1] == [e0];
    var g0 := PathMessages("name", ["Must not be blank"]);
    var g1 := PathMessages("name", ["Must not be blank", "Must be at least 10 characters long"]);
    var g2 := PathMessages("addresses[2].postcode.value", ["Must not be blank"]);
    assert GroupByPath([e0]) == [g0] by {
      assert [e0][..0] == [];
    }
    assert GroupByPath([e0, e1]) == [g1] by {
      assert [g0][0].path == e1.path;
      assert g0.messages + [e1.message] == g1.messages;
      assert AddToGroup([g0], e1) == [PathMessages(e1.path, g0.messages + [e1.message])] + [g0][1..];
    }
    assert e2.path != "name" by {
      assert e2.path[0] != "name"[0];
    }
    assert AddToGroup([g1], e2) == [g1] + AddToGroup([], e2);
    assert AddToGroup([], e2) == [g2];
  }

  /** `error(path)` gives the first message, and none for a path without errors. */
  lemma ExampleFirstError()
    ensures ValidationErrors([ValidationError("name", "Must not be blank"),
                              ValidationError("name", "Must be at least 10 characters long")]).Error("name") == Some("Must not be blank")
    ensures ValidationErrors([ValidationError("name", "Must not be blank"),
                              ValidationError("name", "Must be at least 10 characters long")]).Error("age") == None
  {
    var es := ValidationErrors([ValidationError("name", "Must not be blank"),
                                ValidationError("name", "Must be at least 10 characters long")]);
    assert es.errors[0].path == "name";
    assert es.errors[1].path == "name";
    assert "name" != "age";
  }

  /** Failed properties are the distinct paths. */
  lemma ExampleFailedProperties()
    ensures ValidationErrors([ValidationError("name", "Must not be blank"),
                              ValidationError("age", "Must be at least 18")]).FailedProperties() == {"name", "age"}
  {
    var es := ValidationErrors([ValidationError("name", "Must not be blank"),
                                ValidationError("age", "Must be at least 18")]);
    assert es.errors[0].path == "name";
    assert es.errors[1].path == "age";
  }
}
