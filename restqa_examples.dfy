/** Concrete node ids run through the general theorems about node ids. */
module RestQAExamples {
  import opened Wrappers
  import opened Strings
  import opened RestQA

  /** The node id `tests/api/test_jobs.py::Test_Job::()::test_utf8` of a test method in a test class. */
  lemma SplitExample()
    ensures SplitClassAndTestNames(TestNodeId(["tests", "api", "test_jobs"], ["Test_Job", "()"], "test_utf8")) ==
              Success(("tests.api.test_jobs.Test_Job", "test_utf8"))
  {
    SplitExampleJoined();
    ExampleClassPath();
  }

  /** The dotted class path of that node id. */
  lemma ExampleClassPath()
    ensures Join(["tests", "api", "test_jobs"] + ["Test_Job"], ".") == "tests.api.test_jobs.Test_Job"
  {
    JoinThree("tests", "api", "test_jobs", ".");
    JoinAppend(["tests", "api", "test_jobs"], ["Test_Job"], ".");
  }

  /** The same, with the class path left as a join. */
  lemma SplitExampleJoined()
    ensures SplitClassAndTestNames(TestNodeId(["tests", "api", "test_jobs"], ["Test_Job", "()"], "test_utf8")) ==
              Success((Join(["tests", "api", "test_jobs"] + ["Test_Job"], "."), "test_utf8"))
  {
    var path, scopes := ["tests", "api", "test_jobs"], ["Test_Job", "()"];
    assert path[1][0] != 'p' && path[2][0] != 'p';
    SplitTestNodeId(path, scopes, "test_utf8");
    assert WithoutParens(scopes) == ["Test_Job"];
  }

  /**
    The node id `tests/python/test_x.py::test_a`: as written the package
    `python` loses its dot and its `py`; with only the extension removed it
    keeps them.
   */
  lemma PythonPackageExample()
    ensures SplitClassAndTestNames(TestNodeId(["tests", "python", "test_x"], [], "test_a")) ==
              Success(("teststhon.test_x", "test_a"))
    ensures SplitClassAndTestNamesIntended(TestNodeId(["tests", "python", "test_x"], [], "test_a")) ==
              Success(("tests.python.test_x", "test_a"))
  {
    PythonPackageJoined();
    PythonPackageTexts();
  }

  /** The same, with the class paths left as concatenations. */
  lemma PythonPackageJoined()
    ensures SplitClassAndTestNames(TestNodeId(["tests", "python", "test_x"], [], "test_a")) ==
              Success(("tests" + "thon" + "." + "test_x", "test_a"))
    ensures SplitClassAndTestNamesIntended(TestNodeId(["tests", "python", "test_x"], [], "test_a")) ==
              Success(("tests" + ".py" + "thon" + "." + "test_x", "test_a"))
  {
    assert "py" + "thon" == "python";
    assert "test_x"[0] != 'p';
    PyDirectoryMangled("tests", "thon", "test_x", "test_a");
  }

  /** The two class paths of that node id, spelled out. */
  lemma PythonPackageTexts()
    ensures "tests" + "thon" + "." + "test_x" == "teststhon.test_x"
    ensures "tests" + ".py" + "thon" + "." + "test_x" == "tests.python.test_x"
  {
  }
}
