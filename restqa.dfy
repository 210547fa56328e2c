/**
  The string handling of the REST QA pytest plugin: splitting a test's node id
  into a dotted class path and a test name, and restricting the `-m` mark
  expression to nondestructive tests unless destructive tests were asked for.
 */
module RestQA {
  import opened Wrappers
  import opened Strings

  // ---------------------------------------------------------------------------
  // Node ids

  /** What Python raises for `names[-1]` on an empty list. */
  datatype IndexError = IndexError

  /** The components of a node id: its `::`-separated parts, with `/` turned into `.` in the first. */
  function Components(nodeid: string): (names: seq<string>)
    ensures |names| == |Split(nodeid, "::")| >= 1
  {
    var names := Split(nodeid, "::");
    names[0 := Replace(names[0], "/", ".")]
  }

  /** `x.replace(".py", "")`: every `.py` is removed, wherever it stands. */
  function RemovePy(x: string): string
  {
    Replace(x, ".py", "")
  }

  /** The comprehension `[clean(x) for x in names if x != "()"]`: the components other than `()`, in order. */
  function Survivors(names: seq<string>, clean: string -> string): seq<string>
  {
    if names == [] then []
    else
      var init := Survivors(names[..|names| - 1], clean);
      var x := names[|names| - 1];
      if x != "()" then init + [clean(x)] else init
  }

  /**
    Splits a node id into a dotted class path and a test name, cleaning each
    surviving component with `clean`: the test name is the last survivor and
    the class path joins the others with `.`; with no survivor, `names[-1]`
    raises.
   */
  function SplitNodeId(nodeid: string, clean: string -> string): Result<(string, string), IndexError>
  {
    var names := Survivors(Components(nodeid), clean);
    if |names| == 0 then Failure(IndexError)
    else Success((Join(names[..|names| - 1], "."), names[|names| - 1]))
  }

  /** The plugin's `split_class_and_test_names`, which removes `.py` from every component. */
  function SplitClassAndTestNames(nodeid: string): Result<(string, string), IndexError>
  {
    SplitNodeId(nodeid, RemovePy)
  }

  /** The comprehension distributes over concatenation. */
  lemma {:induction false} SurvivorsAppend(xs: seq<string>, ys: seq<string>, clean: string -> string)
    ensures Survivors(xs + ys, clean) == Survivors(xs, clean) + Survivors(ys, clean)
    decreases |ys|
  {
    if ys == [] {
      assert xs + ys == xs;
    } else {
      var init := ys[..|ys| - 1];
      SurvivorsAppend(xs, init, clean);
      assert (xs + ys)[..|xs + ys| - 1] == xs + init;
      assert (xs + ys)[|xs + ys| - 1] == ys[|ys| - 1];
    }
  }

  /** A `()` component, wherever it stands, contributes nothing. */
  lemma ParenComponentIgnored(xs: seq<string>, ys: seq<string>, clean: string -> string)
    ensures Survivors(xs + ["()"] + ys, clean) == Survivors(xs + ys, clean)
  {
    SurvivorsAppend(xs + ["()"], ys, clean);
    SurvivorsAppend(xs, ["()"], clean);
    SurvivorsAppend(xs, ys, clean);
    assert ["()"][..0] == [];
  }

  /** A survivor is a cleaned component other than `()`, and every such component survives. */
  lemma {:induction false} SurvivorsFrom(names: seq<string>, clean: string -> string)
    ensures |Survivors(names, clean)| <= |names|
    ensures forall y :: y in Survivors(names, clean) ==>
              exists j :: 0 <= j < |names| && names[j] != "()" && y == clean(names[j])
    ensures forall j :: 0 <= j < |names| && names[j] != "()" ==> clean(names[j]) in Survivors(names, clean)
  {
    if names != [] {
      var init := names[..|names| - 1];
      var x := names[|names| - 1];
      SurvivorsFrom(init, clean);
      forall y | y in Survivors(names, clean)
        ensures exists j :: 0 <= j < |names| && names[j] != "()" && y == clean(names[j])
      {
        if y in Survivors(init, clean) {
          var j :| 0 <= j < |init| && init[j] != "()" && y == clean(init[j]);
          assert names[j] == init[j];
        } else {
          assert x != "()" && y == clean(x);
          assert names[|names| - 1] == x;
        }
      }
      forall j | 0 <= j < |names| && names[j] != "()"
        ensures clean(names[j]) in Survivors(names, clean)
      {
        if j < |init| {
          assert names[j] == init[j];
        }
      }
    }
  }

  /** Every entry is `()`. */
  predicate AllParens(xs: seq<string>)
  {
    forall j :: 0 <= j < |xs| ==> xs[j] == "()"
  }

  /** Nothing survives exactly when every component is `()`. */
  lemma SurvivorsEmptyIff(names: seq<string>, clean: string -> string)
    ensures Survivors(names, clean) == [] <==> AllParens(names)
  {
    SurvivorsFrom(names, clean);
    var kept := Survivors(names, clean);
    if kept != [] {
      assert kept[0] in kept;
    }
  }

  /** The last survivor comes from the last component other than `()`; every component after it is `()`. */
  lemma {:induction false} LastSurvivor(names: seq<string>, clean: string -> string)
    requires Survivors(names, clean) != []
    ensures exists k :: 0 <= k < |names| && names[k] != "()" &&
              (forall j :: k < j < |names| ==> names[j] == "()") &&
              Survivors(names, clean)[|Survivors(names, clean)| - 1] == clean(names[k])
  {
    var init := names[..|names| - 1];
    var x := names[|names| - 1];
    if x != "()" {
      assert names[|names| - 1] == x;
    } else {
      LastSurvivor(init, clean);
      var k :| 0 <= k < |init| && init[k] != "()" &&
               (forall j :: k < j < |init| ==> init[j] == "()") &&
               Survivors(init, clean)[|Survivors(init, clean)| - 1] == clean(init[k]);
      assert names[k] == init[k];
      forall j | k < j < |names|
        ensures names[j] == "()"
      {
        if j < |init| {
          assert names[j] == init[j];
        }
      }
    }
  }

  /** When every component after `k` is `()`, the survivors end with component `k`. */
  lemma SurvivorsEndAt(names: seq<string>, k: nat, clean: string -> string)
    requires k < |names| && names[k] != "()"
    requires forall j :: k < j < |names| ==> names[j] == "()"
    ensures Survivors(names, clean) == Survivors(names[..k], clean) + [clean(names[k])]
  {
    var head, tail := names[..k + 1], names[k + 1..];
    assert forall j :: 0 <= j < |tail| ==> tail[j] == names[k + 1 + j];
    SurvivorsEmptyIff(tail, clean);
    assert head[..|head| - 1] == names[..k] && head[|head| - 1] == names[k];
    assert Survivors(head, clean) == Survivors(names[..k], clean) + [clean(names[k])];
    SurvivorsAppend(head, tail, clean);
    assert names == head + tail;
  }

  /** Only the first component has its `/` turned into `.`; the others are the split's pieces as they are. */
  lemma SlashOnlyInFirst(nodeid: string)
    ensures '/' !in Components(nodeid)[0]
    ensures forall j :: 1 <= j < |Components(nodeid)| ==> Components(nodeid)[j] == Split(nodeid, "::")[j]
  {
    var first := Split(nodeid, "::")[0];
    ReplaceCharAt(first, '/', '.');
    var r := Replace(first, "/", ".");
    forall i | 0 <= i < |r|
      ensures r[i] != '/'
    {
    }
  }

  /** Turning `/` into `.` makes `()` only out of `()`. */
  lemma SlashReplaceParens(x: string)
    ensures Replace(x, "/", ".") == "()" <==> x == "()"
  {
    ReplaceCharAt(x, '/', '.');
    var r := Replace(x, "/", ".");
    if r == "()" {
      assert x[0] == '(' && x[1] == ')';
      assert x == [x[0], x[1]];
    }
  }

  /** The index error is raised exactly when every `::`-separated part of the node id is `()`. */
  lemma IndexErrorIff(nodeid: string, clean: string -> string)
    ensures SplitNodeId(nodeid, clean).Failure? <==>
              AllParens(Split(nodeid, "::"))
  {
    var parts := Split(nodeid, "::");
    var names := Components(nodeid);
    assert names == parts[0 := Replace(parts[0], "/", ".")];
    SlashReplaceParens(parts[0]);
    AllParensAlike(parts, names);
    SurvivorsEmptyIff(names, clean);
    assert SplitNodeId(nodeid, clean).Failure? <==> Survivors(names, clean) == [];
  }

  /** Two lists that differ only in a first entry that is `()` exactly when the other's is have the same all-`()` test. */
  lemma AllParensAlike(parts: seq<string>, names: seq<string>)
    requires |parts| == |names| > 0
    requires names[0] == "()" <==> parts[0] == "()"
    requires forall j :: 1 <= j < |names| ==> names[j] == parts[j]
    ensures AllParens(names) <==> AllParens(parts)
  {
  }

  /**
    On success the test name is the cleaned last component other than `()`,
    and the class path joins the survivors of the components before it.
   */
  lemma TestNameIsLastSurvivor(nodeid: string, clean: string -> string)
    requires SplitNodeId(nodeid, clean).Success?
    ensures exists k :: 0 <= k < |Components(nodeid)| && Components(nodeid)[k] != "()" &&
              (forall j :: k < j < |Components(nodeid)| ==> Components(nodeid)[j] == "()") &&
              SplitNodeId(nodeid, clean).value ==
                (Join(Survivors(Components(nodeid)[..k], clean), "."), clean(Components(nodeid)[k]))
  {
    var names := Components(nodeid);
    var kept := Survivors(names, clean);
    LastSurvivor(names, clean);
    var k :| 0 <= k < |names| && names[k] != "()" &&
             (forall j :: k < j < |names| ==> names[j] == "()") &&
             kept[|kept| - 1] == clean(names[k]);
    SurvivorsEndAt(names, k, clean);
    assert kept[..|kept| - 1] == Survivors(names[..k], clean);
  }

  /** A node id without `::` has an empty class path and is, cleaned, its own test name. */
  lemma NoSeparator(nodeid: string)
    requires !Contains(nodeid, "::")
    requires nodeid != "()"
    ensures SplitClassAndTestNames(nodeid) == Success(("", RemovePy(Replace(nodeid, "/", "."))))
  {
    SplitAbsent(nodeid, "::");
    SlashReplaceParens(nodeid);
    var first := Replace(nodeid, "/", ".");
    var names := Components(nodeid);
    assert names == [first];
    assert first != "()";
    assert Survivors(names, RemovePy) == [RemovePy(first)] by {
      assert names[..0] == [];
    }
    assert [RemovePy(first)][..0] == [];
  }

  /**
    A last part `u.py` gives the test name `u`. The `()` parts are dropped
    before `.py` is removed, so `u` may be `()` itself.
   */
  lemma ExtensionRemovedAfterParens(t: string, u: string)
    requires ':' !in t && '/' !in t && '.' !in t && t != "()"
    requires ':' !in u && '.' !in u
    ensures SplitClassAndTestNames(t + "::" + u + ".py") == Success((t, u))
  {
    var last := u + ".py";
    assert ':' !in last;
    SplitHead(t, "::", last);
    SplitNoHead(last, "::");
    ReplaceNoHead(t, "/", ".");
    ReplaceNoHead(t, ".py", "");
    ReplaceHead(u, ".py", "", "");
    assert u + ".py" + "" == last && u + "" + "" == u;
    assert RemovePy(t) == t;
    assert RemovePy(last) == u;
    var names := [t, last];
    assert t + "::" + u + ".py" == t + "::" + last;
    assert Components(t + "::" + last) == names;
    assert Survivors([t], RemovePy) == [t] by {
      assert [t][..0] == [];
    }
    assert last != "()" by {
      assert |last| > 2;
    }
    assert names[..1] == [t];
    assert Survivors(names, RemovePy) == [t, u];
  }

  // ---------------------------------------------------------------------------
  // Node ids of tests in module files

  /** A name without the characters that node ids treat specially: `:`, `.` and `/`. */
  predicate IsPlainName(s: string)
  {
    ':' !in s && '.' !in s && '/' !in s
  }

  /**
    The node id pytest gives test `test` inside the classes (or `()`
    instance markers) `scopes` of the module file `path[0]/.../path[n-1].py`.
   */
  function TestNodeId(path: seq<string>, scopes: seq<string>, test: string): string
  {
    Join(path, "/") + ".py" + "::" + Join(scopes + [test], "::")
  }

  /** The list without its `()` entries. */
  function WithoutParens(xs: seq<string>): (r: seq<string>)
    ensures |r| <= |xs|
    ensures "()" !in r
  {
    if xs == [] then []
    else
      var init := WithoutParens(xs[..|xs| - 1]);
      if xs[|xs| - 1] != "()" then init + [xs[|xs| - 1]] else init
  }

  /** Where cleaning leaves the components alone, the survivors are the components other than `()`. */
  lemma {:induction false} SurvivorsUncleaned(xs: seq<string>, clean: string -> string)
    requires forall k :: 0 <= k < |xs| && xs[k] != "()" ==> clean(xs[k]) == xs[k]
    ensures Survivors(xs, clean) == WithoutParens(xs)
  {
    if xs != [] {
      SurvivorsUncleaned(xs[..|xs| - 1], clean);
    }
  }

  /** The module file part of a node id has no `:`, and turning its `/` into `.` gives the dotted path. */
  lemma ModuleFileComponent(path: seq<string>)
    requires |path| > 0
    requires forall k :: 0 <= k < |path| ==> IsPlainName(path[k])
    ensures ':' !in Join(path, "/") + ".py"
    ensures Replace(Join(path, "/") + ".py", "/", ".") == Join(path, ".") + ".py"
  {
    assert forall k :: 0 <= k < |path| ==> ':' !in path[k] && '/' !in path[k];
    assert ':' !in "/" && '/' !in ".py";
    CharNotInJoin(path, "/", ':');
    ReplaceJoin(path, '/', '.', ".py");
  }

  /** The components of a test's node id: the dotted module file, then the scopes and the test. */
  lemma ComponentsOfTestNodeId(path: seq<string>, scopes: seq<string>, test: string)
    requires |path| > 0 && IsPlainName(test)
    requires forall k :: 0 <= k < |path| ==> IsPlainName(path[k])
    requires forall k :: 0 <= k < |scopes| ==> IsPlainName(scopes[k])
    ensures Components(TestNodeId(path, scopes, test)) == [Join(path, ".") + ".py"] + (scopes + [test])
  {
    var file := Join(path, "/") + ".py";
    var names := scopes + [test];
    ModuleFileComponent(path);
    NoColonInScopes(scopes, test);
    SplitAfterFile(file, names);
    ComponentsOfSplit(TestNodeId(path, scopes, test), file, names);
  }

  /** The components follow the split, with the first part's `/` turned into `.`. */
  lemma ComponentsOfSplit(nodeid: string, first: string, rest: seq<string>)
    requires Split(nodeid, "::") == [first] + rest
    ensures Components(nodeid) == [Replace(first, "/", ".")] + rest
  {
  }

  /** Neither the scopes nor the test name hold a `:`. */
  lemma NoColonInScopes(scopes: seq<string>, test: string)
    requires IsPlainName(test)
    requires forall k :: 0 <= k < |scopes| ==> IsPlainName(scopes[k])
    ensures forall k :: 0 <= k < |scopes + [test]| ==> ':' !in (scopes + [test])[k]
  {
    var names := scopes + [test];
    forall k | 0 <= k < |names|
      ensures ':' !in names[k]
    {
      if k < |scopes| {
        assert names[k] == scopes[k];
      }
    }
  }

  /** Splitting at `::` a first part and then parts joined with `::` gives the parts back. */
  lemma SplitAfterFile(file: string, names: seq<string>)
    requires ':' !in file && |names| > 0
    requires forall k :: 0 <= k < |names| ==> ':' !in names[k]
    ensures Split(file + "::" + Join(names, "::"), "::") == [file] + names
  {
    SplitHead(file, "::", Join(names, "::"));
    SplitJoin(names, "::");
  }

  /**
    Removing every `.py` from a dotted module path with its extension leaves
    the path, provided no part after the first starts with `py`.
   */
  lemma {:induction false} RemovePyDotted(path: seq<string>)
    requires |path| > 0
    requires forall k :: 0 <= k < |path| ==> IsPlainName(path[k])
    requires forall k :: 1 <= k < |path| ==> !("py" <= path[k])
    ensures RemovePy(Join(path, ".") + ".py") == Join(path, ".")
  {
    if |path| == 1 {
      ReplacePrefixFree(path[0], ".py", ".py", "");
      ReplaceHead("", ".py", "", "");
      assert "" + ".py" + "" == ".py";
    } else {
      RemovePyDotted(path[1..]);
      RemovePyDottedStep(path[0], path[1..]);
      assert [path[0]] + path[1..] == path;
    }
  }

  /** The step of the induction: a first part without `.` in front of a path whose `.py` removal is exact. */
  lemma RemovePyDottedStep(first: string, rest: seq<string>)
    requires '.' !in first && |rest| > 0 && !("py" <= rest[0])
    requires RemovePy(Join(rest, ".") + ".py") == Join(rest, ".")
    ensures RemovePy(Join([first] + rest, ".") + ".py") == Join([first] + rest, ".")
  {
    DottedNotPy(rest);
    RemovePyAfterDot(first, Join(rest, "."));
    JoinCons(first, rest, ".");
  }

  /** The dot in front of a dotted path whose first part does not start with `py` does not start a `.py`. */
  lemma DottedNotPy(rest: seq<string>)
    requires |rest| > 0 && !("py" <= rest[0])
    ensures !(".py" <= "." + (Join(rest, ".") + ".py"))
  {
    DottedPrefix(rest);
    NoPyAfterDot(rest[0], Join(rest, ".") + ".py");
  }

  /** A dotted path with its extension starts with its first part and a dot. */
  lemma DottedPrefix(rest: seq<string>)
    requires |rest| > 0
    ensures rest[0] + "." <= Join(rest, ".") + ".py"
  {
    if |rest| == 1 {
      assert Join(rest, ".") == rest[0];
      DotBeforeExtension(rest[0]);
    } else {
      var x := Join(rest, ".");
      assert x == rest[0] + "." + Join(rest[1..], ".");
      PrefixExtend(rest[0] + ".", x, ".py");
    }
  }

  /** A prefix of a string is a prefix of that string with more after it. */
  lemma PrefixExtend(a: string, x: string, y: string)
    requires a <= x
    ensures a <= x + y
  {
  }

  /** A dot that does not start a `.py` is kept, and so is a first part without `.` before it. */
  lemma RemovePyAfterDot(first: string, dotted: string)
    requires '.' !in first && !(".py" <= "." + (dotted + ".py"))
    ensures RemovePy(first + "." + dotted + ".py") == first + "." + RemovePy(dotted + ".py")
  {
    var tail := dotted + ".py";
    assert first + "." + dotted + ".py" == first + "." + tail;
    ReplaceStep("." + tail, ".py", "");
    assert ("." + tail)[1..] == tail;
    ReplacePrefixFree(first, "." + tail, ".py", "");
    assert first + "." + tail == first + ("." + tail);
  }

  /** A name followed by its extension starts with the name and a dot. */
  lemma DotBeforeExtension(name: string)
    ensures name + "." <= name + ".py"
  {
    assert name + ".py" == name + "." + "py";
  }

  /** A dot followed by a part that does not start with `py`, and then a dot, does not start a `.py`. */
  lemma NoPyAfterDot(part: string, t: string)
    requires !("py" <= part) && part + "." <= t
    ensures !(".py" <= "." + t)
  {
    assert t[|part|] == '.';
    if |part| >= 2 {
      assert t[0] == part[0] && t[1] == part[1];
      assert part[0] != 'p' || part[1] != 'y';
    } else if |part| == 1 {
      assert t[1] == '.';
    } else {
      assert t[0] == '.';
    }
    if |t| >= 2 {
      assert ("." + t)[1] == t[0] && ("." + t)[2] == t[1];
    }
  }

  /**
    The class path and test name of a test in a module file, as the plugin
    computes them: the module path in dots, the class names, then the test;
    this holds when no directory or module name after the first starts with
    `py`.
   */
  lemma SplitTestNodeId(path: seq<string>, scopes: seq<string>, test: string)
    requires |path| > 0 && IsPlainName(test) && test != "()"
    requires forall k :: 0 <= k < |path| ==> IsPlainName(path[k])
    requires forall k :: 0 <= k < |scopes| ==> IsPlainName(scopes[k])
    requires forall k :: 1 <= k < |path| ==> !("py" <= path[k])
    ensures SplitClassAndTestNames(TestNodeId(path, scopes, test)) ==
              Success((Join(path + WithoutParens(scopes), "."), test))
  {
    ComponentsOfTestNodeId(path, scopes, test);
    RemovePyDotted(path);
    forall k | 0 <= k < |scopes| && scopes[k] != "()"
      ensures RemovePy(scopes[k]) == scopes[k]
    {
      ReplaceNoHead(scopes[k], ".py", "");
    }
    SurvivorsUncleaned(scopes, RemovePy);
    ReplaceNoHead(test, ".py", "");
    SplitTail(TestNodeId(path, scopes, test), Join(path, ".") + ".py", path, scopes, test, RemovePy);
  }

  /**
    The shared last step: once the file component cleans to the dotted path
    and the scopes and the test are left alone, the result follows.
   */
  lemma SplitTail(nodeid: string, file: string, path: seq<string>, scopes: seq<string>, test: string,
                  clean: string -> string)
    requires Components(nodeid) == [file] + (scopes + [test])
    requires |path| > 0 && |file| > 2 && test != "()"
    requires clean(file) == Join(path, ".") && clean(test) == test
    requires Survivors(scopes, clean) == WithoutParens(scopes)
    ensures SplitNodeId(nodeid, clean) == Success((Join(path + WithoutParens(scopes), "."), test))
  {
    var kept := WithoutParens(scopes);
    assert file != "()" by {
      assert |file| != |"()"|;
    }
    SurvivorsAround(file, scopes, test, clean);
    var all := [Join(path, ".")] + (kept + [test]);
    assert Survivors(Components(nodeid), clean) == all;
    assert all[..|all| - 1] == [Join(path, ".")] + kept;
    JoinDottedPath(path, kept);
  }

  /** The survivors of a first component, the scopes and a test name. */
  lemma SurvivorsAround(file: string, scopes: seq<string>, test: string, clean: string -> string)
    requires file != "()" && test != "()"
    ensures Survivors([file] + (scopes + [test]), clean) == [clean(file)] + (Survivors(scopes, clean) + [clean(test)])
  {
    SurvivorsAppend([file], scopes + [test], clean);
    SurvivorsAppend(scopes, [test], clean);
    assert [file][..0] == [] && [test][..0] == [];
    assert Survivors([file], clean) == [clean(file)];
    assert Survivors([test], clean) == [clean(test)];
  }

  /** Joining a dotted path and more names with dots dots them all. */
  lemma JoinDottedPath(path: seq<string>, more: seq<string>)
    requires |path| > 0
    ensures Join([Join(path, ".")] + more, ".") == Join(path + more, ".")
  {
    if more != [] {
      JoinAppend([Join(path, ".")], more, ".");
      JoinAppend(path, more, ".");
    } else {
      assert path + more == path;
    }
  }

  // ---------------------------------------------------------------------------
  // The intended removal of the extension

  /** What removing `.py` is for: dropping the module file's `.py` extension, and nothing else. */
  function StripPyExtension(x: string): (r: string)
    ensures x == r || x == r + ".py"
    ensures |x| >= 3 && x[|x| - 3..] == ".py" ==> r + ".py" == x
  {
    if |x| >= 3 && x[|x| - 3..] == ".py" then x[..|x| - 3] else x
  }

  /** `split_class_and_test_names` with only the extension removed. */
  function SplitClassAndTestNamesIntended(nodeid: string): Result<(string, string), IndexError>
  {
    SplitNodeId(nodeid, StripPyExtension)
  }

  /** With only the extension removed, every module path comes out in dots, whatever its parts start with. */
  lemma SplitTestNodeIdIntended(path: seq<string>, scopes: seq<string>, test: string)
    requires |path| > 0 && IsPlainName(test) && test != "()"
    requires forall k :: 0 <= k < |path| ==> IsPlainName(path[k])
    requires forall k :: 0 <= k < |scopes| ==> IsPlainName(scopes[k])
    ensures SplitClassAndTestNamesIntended(TestNodeId(path, scopes, test)) ==
              Success((Join(path + WithoutParens(scopes), "."), test))
  {
    ComponentsOfTestNodeId(path, scopes, test);
    var file := Join(path, ".") + ".py";
    assert file[|file| - 3..] == ".py";
    assert file[..|file| - 3] == Join(path, ".");
    forall k | 0 <= k < |scopes| && scopes[k] != "()"
      ensures StripPyExtension(scopes[k]) == scopes[k]
    {
      if |scopes[k]| >= 3 {
        assert scopes[k][|scopes[k]| - 3..][0] == scopes[k][|scopes[k]| - 3];
      }
    }
    SurvivorsUncleaned(scopes, StripPyExtension);
    if |test| >= 3 {
      assert test[|test| - 3..][0] == test[|test| - 3];
    }
    SplitTail(TestNodeId(path, scopes, test), file, path, scopes, test, StripPyExtension);
  }

  /**
    As written, a directory or module whose name starts with `py` loses its
    leading dot and `py`: the module `a/pyb/c.py` comes out as `ab.c`.
   */
  lemma PyDirectoryMangled(a: string, b: string, c: string, test: string)
    requires IsPlainName(a) && IsPlainName(b) && IsPlainName(c) && !("py" <= c)
    requires IsPlainName(test) && test != "()"
    ensures SplitClassAndTestNames(TestNodeId([a, "py" + b, c], [], test)) == Success((a + b + "." + c, test))
    ensures SplitClassAndTestNamesIntended(TestNodeId([a, "py" + b, c], [], test)) ==
              Success((a + ".py" + b + "." + c, test))
  {
    var path := [a, "py" + b, c];
    assert IsPlainName("py" + b);
    var nodeid := TestNodeId(path, [], test);
    ComponentsOfTestNodeId(path, [], test);
    JoinThree(a, "py" + b, c, ".");
    var file := Join(path, ".") + ".py";
    RemovePyDirectory(a, b, c);
    ReplaceNoHead(test, ".py", "");
    SplitTail(nodeid, file, [a + b + "." + c], [], test, RemovePy);
    SplitTestNodeIdIntended(path, [], test);
    assert path + WithoutParens([]) == path;
    assert a + "." + ("py" + b) + "." + c == a + ".py" + b + "." + c;
  }

  /** Removing every `.py` from `a.pyb.c.py` leaves `ab.c`. */
  lemma RemovePyDirectory(a: string, b: string, c: string)
    requires IsPlainName(a) && IsPlainName(b) && IsPlainName(c) && !("py" <= c)
    ensures RemovePy(a + "." + ("py" + b) + "." + c + ".py") == a + b + "." + c
  {
    var rest := b + "." + c + ".py";
    assert a + "." + ("py" + b) + "." + c + ".py" == a + ".py" + rest;
    ReplaceHead(a, ".py", "", rest);
    RemovePyDotted([b, c]);
    JoinCons(b, [c], ".");
    assert Join([b, c], ".") + ".py" == rest;
  }

  // ---------------------------------------------------------------------------
  // Mark expressions

  /** The marker that selects the tests that do not change the system under test. */
  const Nondestructive: string := "nondestructive"

  /**
    The `-m` expression after `pytest_configure`: a worker process leaves it
    alone; otherwise, unless destructive tests were asked for, it is narrowed
    to nondestructive tests.
   */
  function ConfiguredMarkExpr(isWorker: bool, runDestructive: bool, markexpr: string): string
  {
    if isWorker || runDestructive then markexpr
    else if markexpr != "" then Nondestructive + " and (" + markexpr + ")"
    else Nondestructive
  }

  /** Reads back the user's own expression from a narrowed one. */
  function UserMarkExpr(configured: string): Option<string>
  {
    var prefix := Nondestructive + " and (";
    if configured == Nondestructive then Some("")
    else if |configured| > |prefix| && configured[..|prefix|] == prefix && configured[|configured| - 1] == ')'
    then Some(configured[|prefix|..|configured| - 1])
    else None
  }

  /** A narrowed expression always starts with the marker and differs from what the user gave. */
  lemma NarrowedMarkExpr(markexpr: string)
    ensures var r := ConfiguredMarkExpr(false, false, markexpr);
            |r| >= |Nondestructive| && r[..|Nondestructive|] == Nondestructive && r != markexpr
  {
  }

  /** Narrowing loses nothing: the user's expression can be read back from it. */
  lemma MarkExprRoundTrip(markexpr: string)
    ensures UserMarkExpr(ConfiguredMarkExpr(false, false, markexpr)) == Some(markexpr)
  {
    var prefix := Nondestructive + " and (";
    if markexpr != "" {
      var r := prefix + markexpr + ")";
      assert r[..|prefix|] == prefix;
      assert r[|prefix|..|r| - 1] == markexpr;
    }
  }

  /** A worker process, or a run with destructive tests, keeps the expression as given. */
  lemma MarkExprKept(isWorker: bool, runDestructive: bool, markexpr: string)
    requires isWorker || runDestructive
    ensures ConfiguredMarkExpr(isWorker, runDestructive, markexpr) == markexpr
  {
  }
}
