# Unified jobs and the REST QA plugin, in Dafny

This project models two small pieces of the Ansible Tower QA suite and proves
properties of them.

- **`UnifiedJob`** (`tower_qe/qe/api/pages/unified_jobs.py`) is the page object that
  jobs, project updates and inventory updates share. The model covers:
  - the three status predicates `is_completed`, `is_successful` and `has_traceback`;
  - the polling entry points `wait_until_status`, `wait_until_started` and
    `wait_until_completed`;
  - the cancel rule;
  - the `%` escaping that `__str__` applies to its description.
- **The `restqa` pytest plugin** (`tests/lib/plugins/restqa.py`). The model covers:
  - `split_class_and_test_names`, which turns a pytest node id into a dotted class
    path and a test name;
  - the rewrite of the `-m` mark expression in `pytest_configure`, which confines a
    run to nondestructive tests.

Files:

- `wrappers.dfy`: `Option` and `Result`. They stand for Python's "nothing" and for
  a raised exception.
- `strings.dfy` (module `Strings`): the Python string operations the core relies on,
  with their laws. These are `in` on strings, ASCII `lower()`, `replace`, `split` and
  `join`.
- `unified_jobs.dfy` (module `UnifiedJobs`) contains the following.
  - The status enumeration and a task snapshot record.
  - The predicates as functions.
  - `__str__` as a method with the same loop.
  - The REST service and the wall clock as oracle classes. They answer the k-th
    request with the k-th entry of a fixed sequence.
  - `UnifiedJob` as a class whose snapshot field the waits refresh in place.
- `restqa.dfy` (module `RestQA`) contains the following.
  - The node-id split, parameterised by the per-component clean-up, so that the
    code as written and the corrected version share their proofs.
  - Lemmas about the split.
  - The mark-expression rewrite.
- `restqa_examples.dfy` (module `RestQAExamples`): concrete node ids worked through
  both versions of the split.

## Model

| member | source | states |
|---|---|---|
| Strings.Contains | tower_qe/qe/api/pages/unified_jobs.py:55-56 | Python's `p in s`, computed as CPython does: a left-to-right scan for a position where `p` starts |
| Strings.ContainsIff | tower_qe/qe/api/pages/unified_jobs.py:55-56 | Python's substring test `p in s` holds exactly when `p` occurs in `s` at some index |
| Strings.ContainsAt | tower_qe/qe/api/pages/unified_jobs.py:55-56 | an occurrence at any index makes the substring test true |
| Strings.Lower | tower_qe/qe/api/pages/unified_jobs.py:36 | `lower()` keeps the length, maps every character through the ASCII case map, and yields a lower-case string |
| Strings.LowerOfLowerCase | tower_qe/qe/api/pages/unified_jobs.py:36 | a lower-case string is left unchanged by `lower()` |
| Strings.LowerIdempotent | tower_qe/qe/api/pages/unified_jobs.py:36 | applying `lower()` twice is the same as applying it once |
| Strings.Replace | tests/lib/plugins/restqa.py:69-70 | `s.replace(pat, rep)`: scanning left to right, each occurrence of `pat` is replaced by `rep` and the scan resumes after it; the laws below characterise it |
| Strings.ReplaceCharAt | tests/lib/plugins/restqa.py:69 | replacing one character by another keeps the length and changes exactly the positions holding that character |
| Strings.ReplaceAbsent | tests/lib/plugins/restqa.py:70 | `replace` leaves a string without the pattern unchanged |
| Strings.ReplaceNoHead | tests/lib/plugins/restqa.py:70 | `replace` leaves a string unchanged when the pattern's first character does not occur in it |
| Strings.ReplacePrefixFree | tests/lib/plugins/restqa.py:70 | a prefix without the pattern's first character passes through `replace` untouched |
| Strings.ReplaceHead | tests/lib/plugins/restqa.py:70 | the first occurrence of the pattern is the one replaced, and scanning resumes after it |
| Strings.ReplaceStep | tests/lib/plugins/restqa.py:70 | where the pattern does not start, `replace` keeps the first character and continues with the rest |
| Strings.Split | tests/lib/plugins/restqa.py:68 | `split` returns at least one piece, and the first piece is a prefix of the input |
| Strings.JoinSplit | tests/lib/plugins/restqa.py:68 | joining the pieces of a split with the same separator gives back the input |
| Strings.SplitPiecesFree | tests/lib/plugins/restqa.py:68 | no piece of a split contains the separator |
| Strings.SplitAbsent | tests/lib/plugins/restqa.py:68 | a string without the separator splits into itself alone |
| Strings.SplitNoHead | tests/lib/plugins/restqa.py:68 | a string without the separator's first character splits into itself alone |
| Strings.SplitHead | tests/lib/plugins/restqa.py:68 | the text before the first separator is the first piece, and the rest is split the same way |
| Strings.SplitJoin | tests/lib/plugins/restqa.py:68 | pieces free of the separator's first character come back unchanged from a split of their join |
| Strings.Join | tests/lib/plugins/restqa.py:72 | `sep.join(parts)`: the parts in order with `sep` between each neighbouring pair, and `''` for no parts |
| Strings.JoinCons | tests/lib/plugins/restqa.py:72 | joining a non-singleton list puts the separator after the first element |
| Strings.JoinThree | tests/lib/plugins/restqa.py:72 | joining three names puts the separator between each pair |
| Strings.JoinAppend | tests/lib/plugins/restqa.py:72 | joining a concatenation of non-empty lists is the two joins around one separator |
| Strings.CharNotInJoin | tests/lib/plugins/restqa.py:72 | a character absent from the pieces and from the separator is absent from their join |
| Strings.ReplaceJoin | tests/lib/plugins/restqa.py:69 | replacing a separator character throughout a join re-joins the same pieces with the new character |
| UnifiedJobs.ParseStatus | tests/lib/common/api/schema/v1.py:21 | a status name parses to the one enumeration value with that name, and to nothing when no value has it |
| UnifiedJobs.IsCompleted | tower_qe/qe/api/pages/unified_jobs.py:36 | the `is_completed` property: the lower-cased status is one of `successful`, `failed`, `error`, `canceled` |
| UnifiedJobs.IsSuccessful | tower_qe/qe/api/pages/unified_jobs.py:46-47 | the `is_successful` property: the lower-cased status is `successful`, and neither `failed` nor `has_traceback` holds |
| UnifiedJobs.HasTraceback | tower_qe/qe/api/pages/unified_jobs.py:55-56 | the `has_traceback` property: `Traceback` is a substring of `result_traceback` or of `result_stdout` |
| UnifiedJobs.CompletedIffTerminal | tower_qe/qe/api/pages/unified_jobs.py:36 | `is_completed` holds exactly when the lower-cased status is one of `successful`, `failed`, `error`, `canceled` |
| UnifiedJobs.NotCompletedStatuses | tower_qe/qe/api/pages/unified_jobs.py:36 | a task whose lower-cased status is `''`, `new`, `pending`, `waiting` or `running` is not completed |
| UnifiedJobs.CompletedStatusesExact | tower_qe/qe/api/pages/unified_jobs.py:72 | the completed status names are exactly the names of the terminal statuses |
| UnifiedJobs.PredicatesIgnoreCase | tower_qe/qe/api/pages/unified_jobs.py:36-47 | `is_completed` and `is_successful` give the same answer after the status is lower-cased |
| UnifiedJobs.SuccessfulIsCompleted | tower_qe/qe/api/pages/unified_jobs.py:36-47 | a successful task is a completed one |
| UnifiedJobs.FailureSignsRuleOutSuccess | tower_qe/qe/api/pages/unified_jobs.py:46-47 | `failed` and a traceback each rule out success; success holds exactly when the lower-cased status is `successful`, `failed` is false and there is no traceback |
| UnifiedJobs.HasTracebackIff | tower_qe/qe/api/pages/unified_jobs.py:55-56 | `has_traceback` holds exactly when the case-sensitive text `Traceback` occurs at some index of `result_traceback` or of `result_stdout` |
| UnifiedJobs.TracebackFieldsAlike | tower_qe/qe/api/pages/unified_jobs.py:55-56 | exchanging the two output fields does not change `has_traceback` |
| UnifiedJobs.SuccessfulWithTracebackIsNot | tower_qe/qe/api/pages/unified_jobs.py:46-56 | a task reported `successful` and not failed, whose traceback field holds `Traceback`, is completed but not successful |
| UnifiedJobs.InfoEntries | tower_qe/qe/api/pages/unified_jobs.py:22-26 | the `info` list: a `name:value` entry for each described attribute the page has, in the order of `items` |
| UnifiedJobs.Render | tower_qe/qe/api/pages/unified_jobs.py:27 | the description `<Class e1, e2, ...>` before escaping, with the entries joined by `, ` |
| UnifiedJobs.EscapePercent | tower_qe/qe/api/pages/unified_jobs.py:28 | `replace('%', '%%')`: every `%` of the description doubled |
| UnifiedJobs.FormatWithoutArgs | tower_qe/qe/api/pages/unified_jobs.py:19-21 | Python 2's `s % ()`: text outside directives is copied, a directive whose conversion is `%` prints a `%` (padded to its width), and any other directive fails for want of an argument |
| UnifiedJobs.PercentDirective | tower_qe/qe/api/pages/unified_jobs.py:19-21 | one directive after its `%`: a mapping key fails; flags, a width, a `.` precision and one `h`, `l` or `L` may precede the conversion; only the conversion `%` succeeds, and the directive then ends at that `%` |
| UnifiedJobs.PaddedPercent | tower_qe/qe/api/pages/unified_jobs.py:19-21 | the text of a `%` conversion: a `%` padded with blanks to the width, with the blanks after it when left-justified and before it otherwise |
| UnifiedJobs.PercentAfterWidth | tower_qe/qe/api/pages/unified_jobs.py:19-21 | when a `%` follows the flags and the width directly, it is the conversion: the directive prints the padded `%` and spans up to it |
| UnifiedJobs.DoubledPercent | tower_qe/qe/api/pages/unified_jobs.py:28 | `%%` is a directive that prints exactly one `%` and spans one character after the first `%` |
| UnifiedJobs.FormatDoubled | tower_qe/qe/api/pages/unified_jobs.py:28 | a doubled `%` formats to one `%` in front of the formatted rest |
| UnifiedJobs.FormatPlain | tower_qe/qe/api/pages/unified_jobs.py:19-21 | a character other than `%` is copied in front of the formatted rest |
| UnifiedJobs.FlagsBeforePercent | tower_qe/qe/api/pages/unified_jobs.py:19-21 | flags alone between `%` and the conversion `%` still print one `%` |
| UnifiedJobs.WidthBeforePercent | tower_qe/qe/api/pages/unified_jobs.py:19-21 | a width between `%` and the conversion `%` prints the `%` padded with blanks on its left to that width |
| UnifiedJobs.OtherConversionFails | tower_qe/qe/api/pages/unified_jobs.py:19-21 | a directive whose conversion is not `%` (as in `%s` or `%d`) fails, since there is no argument to convert |
| UnifiedJobs.BlankFlagExample | tower_qe/qe/api/pages/unified_jobs.py:19-21 | `'% %' % ()` gives `%` |
| UnifiedJobs.WidthExample | tower_qe/qe/api/pages/unified_jobs.py:19-21 | `'%5%' % ()` gives four blanks and a `%` |
| UnifiedJobs.InfoEntriesAllPresent | tower_qe/qe/api/pages/unified_jobs.py:22-26 | when every described attribute is present, the description holds one `name:value` entry per attribute, in order |
| UnifiedJobs.InfoEntriesOnlyPresent | tower_qe/qe/api/pages/unified_jobs.py:22-26 | every entry of the description names a described attribute the object has, together with its rendered value |
| UnifiedJobs.EscapeRoundTrip | tower_qe/qe/api/pages/unified_jobs.py:19-28 | doubling every `%` makes the text safe for `%`-formatting without arguments: formatting it yields the original text back and never fails |
| UnifiedJobs.Describe | tower_qe/qe/api/pages/unified_jobs.py:18-28 | the loop builds the `<Class name:value, ...>` text with every `%` doubled, and `%`-formatting the result gives the unescaped text back |
| UnifiedJobs.ErrorText | tower_qe/qe/api/pages/unified_jobs.py:84 | `e.message.get('error', '')`: the `error` entry of the 405 body, `''` when missing |
| UnifiedJobs.IsFinishedRace | tower_qe/qe/api/pages/unified_jobs.py:81-84 | a method-not-allowed failure whose error text contains `not allowed`: the task finished between the check and the post |
| UnifiedJobs.CancelVerdict | tower_qe/qe/api/pages/unified_jobs.py:79-85 | the `try`/`except` of `cancel`: an accepted post and the finished race return, every other failure is raised |
| UnifiedJobs.CancelVerdictSpec | tower_qe/qe/api/pages/unified_jobs.py:79-85 | a cancel post returns normally exactly when it is accepted or fails as the "finished meanwhile" race; any other failure, including one that is not a method-not-allowed error, propagates unchanged |
| UnifiedJobs.FinishedRaceIff | tower_qe/qe/api/pages/unified_jobs.py:84 | a method-not-allowed failure is the race exactly when its `error` entry, `''` when missing, contains `not allowed` |
| UnifiedJobs.TaskService.GetCancel | tower_qe/qe/api/pages/unified_jobs.py:76-77 | the k-th read of the related cancel resource answers the k-th `can_cancel` value; one read is counted |
| UnifiedJobs.TaskService.PostCancel | tower_qe/qe/api/pages/unified_jobs.py:80 | the k-th cancel post gets the k-th result; one post is counted |
| UnifiedJobs.TaskService.Get | tower_qe/qe/api/pages/unified_jobs.py:62-63 | the k-th read of the task returns the k-th snapshot; one read is counted |
| UnifiedJobs.Clock.Now | tower_qe/qe/api/pages/unified_jobs.py:62-63 | the current clock reading, the one after the last sleep |
| UnifiedJobs.Clock.Sleep | tower_qe/qe/api/pages/unified_jobs.py:62 | sleeping for `interval` moves to the next reading, which is at least `interval` later |
| UnifiedJobs.UnifiedJob.Refresh | tower_qe/qe/api/pages/unified_jobs.py:62 | the page's snapshot becomes the next one the service returns |
| UnifiedJobs.Targets | tower_qe/qe/api/pages/unified_jobs.py:59-61 | the status argument as a list: a single status becomes a one-element list, a list or tuple stays as given |
| UnifiedJobs.UnifiedJob.Cancel | tower_qe/qe/api/pages/unified_jobs.py:75-85 | cancel reads `can_cancel` once; when it is false, no post is made and cancel returns; otherwise exactly one post is made and its answer decides the outcome as `CancelVerdict` states |
| UnifiedJobs.UnifiedJob.WaitUntilStatus | tower_qe/qe/api/pages/unified_jobs.py:58-63 | a single status is waited for as a one-element list and a list as given. The wait stops at the first refreshed status in the list: on success that status is in the list, and no earlier refreshed status was. On timeout, the status is not in it, and the elapsed time is measured from the task's `created` time and exceeds the timeout. Every earlier reading was within the timeout. A task already in the list is left as it was. Every refresh is counted and the snapshot is the latest one |
| UnifiedJobs.UnifiedJob.WaitUntilStarted | tower_qe/qe/api/pages/unified_jobs.py:65-68 | waits, by default every 1 second for up to 60, until the status is one of `pending`, `running`, `successful`, `failed`, `error`, `canceled`; a status reached is therefore neither `new` nor `waiting`. As for `WaitUntilStatus`, it stops at the first refreshed start target, leaves a task already at one unchanged, times out only after the time since `created` exceeds the timeout, and leaves the latest snapshot on the page |
| UnifiedJobs.UnifiedJob.WaitUntilCompleted | tower_qe/qe/api/pages/unified_jobs.py:70-73 | waits, by default every 5 seconds for up to 180, until the status is terminal; a task it reaches is completed. As for `WaitUntilStatus`, it stops at the first refreshed completion target, leaves a task already at one unchanged, times out only after the time since `created` exceeds the timeout, and leaves the latest snapshot on the page |
| UnifiedJobs.StartedStatusesExact | tower_qe/qe/api/pages/unified_jobs.py:67 | a status is a start target exactly when it is neither `new` nor `waiting` |
| UnifiedJobs.CompletedAreStarted | tower_qe/qe/api/pages/unified_jobs.py:67-72 | every completion target is also a start target |
| UnifiedJobs.CompletedTargetIsCompleted | tower_qe/qe/api/pages/unified_jobs.py:70-73 | a task whose status is a completion target satisfies `is_completed` |
| RestQA.SplitClassAndTestNames | tests/lib/plugins/restqa.py:67-74 | `split_class_and_test_names` as written: `SplitNodeId` with every `.py` removed from each surviving component |
| RestQA.SplitNodeId | tests/lib/plugins/restqa.py:67-74 | the split with a given clean-up: an index error when no component survives, else the `.`-join of all survivors but the last, and the last |
| RestQA.Survivors | tests/lib/plugins/restqa.py:70 | the comprehension: the cleaned components other than `()`, in order |
| RestQA.RemovePy | tests/lib/plugins/restqa.py:70 | `x.replace(".py", "")`: every `.py` removed, wherever it stands |
| RestQA.Components | tests/lib/plugins/restqa.py:68-69 | the node id gives one component per piece of its `::` split, and at least one |
| RestQA.SlashOnlyInFirst | tests/lib/plugins/restqa.py:69 | no `/` is left in the first component, and every later component is its split piece unchanged |
| RestQA.SlashReplaceParens | tests/lib/plugins/restqa.py:69-70 | turning `/` into `.` makes the first component `()` exactly when it was `()` already |
| RestQA.SurvivorsAppend | tests/lib/plugins/restqa.py:70 | the comprehension works component by component: over a concatenation it is the concatenation of the results |
| RestQA.ParenComponentIgnored | tests/lib/plugins/restqa.py:70 | inserting a `()` component anywhere changes nothing |
| RestQA.SurvivorsFrom | tests/lib/plugins/restqa.py:70 | every surviving name is the cleaned form of a component other than `()`, and every such component contributes its cleaned form |
| RestQA.SurvivorsEmptyIff | tests/lib/plugins/restqa.py:70-73 | nothing survives exactly when every component is `()` |
| RestQA.LastSurvivor | tests/lib/plugins/restqa.py:70-73 | when something survives, the last survivor is the cleaned form of the last component other than `()` |
| RestQA.SurvivorsEndAt | tests/lib/plugins/restqa.py:70-73 | when only `()` components follow component k, the survivors end with the cleaned component k |
| RestQA.SurvivorsUncleaned | tests/lib/plugins/restqa.py:70 | when the clean-up leaves every component unchanged, the survivors are the components without the `()` ones |
| RestQA.WithoutParens | tests/lib/plugins/restqa.py:70 | the components without the `()` ones contain no `()` and are no more than the input |
| RestQA.IndexErrorIff | tests/lib/plugins/restqa.py:70-73 | the split raises an index error exactly when every component of the node id is `()` |
| RestQA.TestNameIsLastSurvivor | tests/lib/plugins/restqa.py:67-74 | on success, the test name is the cleaned last component other than `()`, and the class name is the `.`-join of the survivors before it |
| RestQA.NoSeparator | tests/lib/plugins/restqa.py:68-73 | a node id without `::`, other than `()`, gives the empty class name and, as test name, the whole id with `/` turned into `.` and `.py` removed |
| RestQA.ExtensionRemovedAfterParens | tests/lib/plugins/restqa.py:70 | `()` components are dropped before `.py` is removed, so a last component `().py` survives as the test name `()` |
| RestQA.ModuleFileComponent | tests/lib/plugins/restqa.py:69 | the module file's path, with `/` between plain names, contains no `:`, and turning `/` into `.` gives the dotted path with its `.py` |
| RestQA.ComponentsOfTestNodeId | tests/lib/plugins/restqa.py:68-69 | the node id of a test in a module file has as components the dotted module file, then the scopes and the test name |
| RestQA.SplitAfterFile | tests/lib/plugins/restqa.py:68 | a file name and plain names joined by `::` split back into the same list |
| RestQA.RemovePyDotted | tests/lib/plugins/restqa.py:70 | removing `.py` from a dotted module file leaves the dotted module path, provided no name after the first starts with `py` |
| RestQA.SplitTestNodeId | tests/lib/plugins/restqa.py:67-74 | the code as written returns the dotted module path plus the class scopes without `()` as class name, and the test name. This needs no directory or module name after the first to start with `py` |
| RestQA.StripPyExtension | tests/lib/plugins/restqa.py:70 | the corrected clean-up removes only a trailing `.py`, and always removes it when present |
| RestQA.SplitTestNodeIdIntended | tests/lib/plugins/restqa.py:67-74 | the corrected split returns the dotted module path plus the class scopes without `()`, and the test name, for every module path |
| RestQA.RemovePyDirectory | tests/lib/plugins/restqa.py:70 | removing `.py` everywhere cuts it out of a directory name that starts with `py` |
| RestQA.PyDirectoryMangled | tests/lib/plugins/restqa.py:70 | for a test in a directory whose name starts with `py`, the code as written drops `.py` from that name, while the corrected split keeps it |
| RestQA.ConfiguredMarkExpr | tests/lib/plugins/restqa.py:30-42 | the new mark expression: unchanged in a worker or with destructive tests, else `nondestructive and (E)` for a non-empty E and `nondestructive` for an empty one |
| RestQA.UserMarkExpr | tests/lib/plugins/restqa.py:38-42 | the inverse of the narrowing: reads the user's expression back from `nondestructive` or `nondestructive and (E)` |
| RestQA.NarrowedMarkExpr | tests/lib/plugins/restqa.py:38-42 | without destructive tests, the new expression starts with `nondestructive` and differs from the one given |
| RestQA.MarkExprRoundTrip | tests/lib/plugins/restqa.py:38-42 | the user's expression, empty or not, can be read back from the narrowed one: it is `nondestructive` when empty and `nondestructive and (E)` otherwise |
| RestQA.MarkExprKept | tests/lib/plugins/restqa.py:30-42 | in a worker process (`slaveinput` set), or when destructive tests are enabled, the expression is left as given |
| RestQAExamples.SplitExample | tests/lib/plugins/restqa.py:67-74 | `tests/api/test_jobs.py::Test_Job::()::test_utf8` gives (`tests.api.test_jobs.Test_Job`, `test_utf8`) |
| RestQAExamples.PythonPackageExample | tests/lib/plugins/restqa.py:67-74 | `tests/python/test_x.py::test_a` gives (`teststhon.test_x`, `test_a`) as written and (`tests.python.test_x`, `test_a`) when corrected |

## Left out

- `wait_until` from `qe.utils` is not part of this model. The polling loop is written
  as sleep, then measure the time since `created`, then compare it with the timeout,
  then refresh. Its `verbose` flag and extra keyword arguments are not modelled.
- UnifiedJobs.UnifiedJob.WaitUntilStatus: gives no bound on how far past the timeout a
  wait ends, and no claim about how long a sleep takes beyond "at least the interval".
  The body of `wait_until` is not part of this model.
- `time.strptime` parsing of `created`: the timestamp is an integer in the snapshot.
  The clock is a `Clock` oracle whose readings are a fixed sequence.
- `get_related`, `post` and the page refresh are not part of this model. They are
  the oracle class `TaskService`, which answers its k-th request with the k-th
  entry of a fixed sequence.
- A failure of the `get_related('cancel')` request itself is not modelled.
- UnifiedJobs.Describe: `to_str` and `hasattr` are not part of this model. The
  described object is a map from attribute names to their rendered values. The
  class name is a parameter.
- UnifiedJobs.UnifiedJob.WaitUntilStatus: the status argument is either a single
  string or a list or tuple. Other Python values, which the code would wrap as one
  status, are not modelled.
- UnifiedJobs.PercentDirective: a width or precision too large for a C `int` makes Python
  raise. The model accepts a width of any size.
- Strings.Lower: folds only ASCII letters. Unicode case mapping is not modelled.
- RestQA.NarrowedMarkExpr: the mark expression is a string, with `''` as the unset
  value. A `None` option value, which the code treats like `''`, is not modelled.
- `config.addinivalue_line`, which registers the `nondestructive` marker, is
  configuration I/O and is not modelled.
- The other hooks of the plugin (`load_credentials`, `pytest_unconfigure`,
  `pytest_sessionstart` and option handling) do file or network I/O and are not
  modelled.
- RestQA.SplitTestNodeId: covers node ids of tests in module files whose directory,
  module, class and test names hold no `:`, `.` or `/`. Other node ids are described
  by `RestQA.TestNameIsLastSurvivor` and `RestQA.IndexErrorIff`.
- RestQAExamples.SplitExample: the node id is built with `RestQA.TestNodeId` rather
  than written out as one literal string.
- Cascade failures of dependent tasks and cache timeouts are behaviour of the
  remote server. No code for them is part of this model.
- Logging and the `Unified_Job_Page` alias are not modelled.

## Findings

| source | as written | input that shows it | evidently intended | confidence | as-written member | corrected member |
|---|---|---|---|---|---|---|
| tests/lib/plugins/restqa.py:70 | `x.replace(".py", "")` removes every `.py` in every component. A directory or module name after the first that starts with `py` therefore loses its first two letters together with the dot before it | `tests/python/test_x.py::test_a` gives (`teststhon.test_x`, `test_a`) | remove only the module file's trailing `.py` extension: (`tests.python.test_x`, `test_a`) | medium; not executed | RestQA.PyDirectoryMangled | RestQA.SplitTestNodeIdIntended |
