/**
  The unified job page: the common client-side view of a job, a project
  update or an inventory update. A page holds the last snapshot of the remote
  task that the server returned; its status predicates are pure functions of
  that snapshot, and its waiting and cancelling operations talk to the server
  (and, for waiting, to the wall clock), which are modelled as oracle objects
  whose answers are fixed in advance and served in order.
 */
module UnifiedJobs {
  import opened Wrappers
  import opened Strings

  // ---------------------------------------------------------------------------
  // Statuses

  /** The statuses the server reports for a unified job. */
  datatype Status = New | Pending | Waiting | Running | Successful | Failed | Error | Canceled
  {
    /** The status as the server spells it. */
    function Name(): string
    {
      match this
      case New => "new"
      case Pending => "pending"
      case Waiting => "waiting"
      case Running => "running"
      case Successful => "successful"
      case Failed => "failed"
      case Error => "error"
      case Canceled => "canceled"
    }

    /** The four statuses from which a task does not move on. */
    predicate IsTerminal()
    {
      Successful? || Failed? || Error? || Canceled?
    }
  }

  /** Reads a status name back; any other text (such as `""`) is not a status. */
  function ParseStatus(s: string): (r: Option<Status>)
    ensures r.Some? ==> r.value.Name() == s
    ensures forall st: Status :: st.Name() == s ==> r == Some(st)
  {
    if s == "new" then Some(New)
    else if s == "pending" then Some(Pending)
    else if s == "waiting" then Some(Waiting)
    else if s == "running" then Some(Running)
    else if s == "successful" then Some(Successful)
    else if s == "failed" then Some(Failed)
    else if s == "error" then Some(Error)
    else if s == "canceled" then Some(Canceled)
    else None
  }

  // ---------------------------------------------------------------------------
  // Snapshots and the status predicates

  /**
    One view of a remote task as the server returned it. The status is kept
    as the server's text, since the predicates lower-case it; `created` is the
    creation timestamp, already converted to the clock's unit.
   */
  datatype Snapshot = Snapshot(
    id: int,
    name: string,
    status: string,
    failed: bool,
    created: int,
    resultStdout: string,
    resultTraceback: string,
    jobExplanation: string,
    jobArgs: string)

  /** The statuses, lower-case, that count as finished. */
  const CompletedStatuses: seq<string> := ["successful", "failed", "error", "canceled"]

  /** The task has finished, whether or not it went well. */
  predicate IsCompleted(job: Snapshot)
  {
    Lower(job.status) in CompletedStatuses
  }

  /** A Python traceback shows in either output field. */
  predicate HasTraceback(job: Snapshot)
  {
    Contains(job.resultTraceback, "Traceback") || Contains(job.resultStdout, "Traceback")
  }

  /** The task finished with status `successful`, is not flagged failed and shows no traceback. */
  predicate IsSuccessful(job: Snapshot)
  {
    "successful" == Lower(job.status) && !(HasTraceback(job) || job.failed)
  }

  /** Completion is exactly a terminal status, whatever the letter case of the status text. */
  lemma CompletedIffTerminal(job: Snapshot)
    ensures IsCompleted(job) <==>
              ParseStatus(Lower(job.status)).Some? && ParseStatus(Lower(job.status)).value.IsTerminal()
  {
  }

  /** The four non-terminal statuses and the empty status are not completed. */
  lemma NotCompletedStatuses(job: Snapshot)
    requires Lower(job.status) in ["", "new", "pending", "waiting", "running"]
    ensures !IsCompleted(job)
  {
  }

  /** The predicates see only the lower-cased status. */
  lemma PredicatesIgnoreCase(job: Snapshot)
    ensures IsCompleted(job) == IsCompleted(job.(status := Lower(job.status)))
    ensures IsSuccessful(job) == IsSuccessful(job.(status := Lower(job.status)))
  {
    LowerIdempotent(job.status);
  }

  /** A successful task is a completed one. */
  lemma SuccessfulIsCompleted(job: Snapshot)
    ensures IsSuccessful(job) ==> IsCompleted(job)
  {
  }

  /** Either the failed flag or a traceback rules success out, whatever the status. */
  lemma FailureSignsRuleOutSuccess(job: Snapshot)
    ensures job.failed ==> !IsSuccessful(job)
    ensures HasTraceback(job) ==> !IsSuccessful(job)
    ensures IsSuccessful(job) <==>
              ParseStatus(Lower(job.status)) == Some(Successful) && !job.failed && !HasTraceback(job)
  {
  }

  /** A traceback is the case-sensitive text `Traceback` at some index of one of the two fields. */
  lemma HasTracebackIff(job: Snapshot)
    ensures HasTraceback(job) <==>
              (exists i: nat :: OccursAt(job.resultTraceback, "Traceback", i)) ||
              (exists i: nat :: OccursAt(job.resultStdout, "Traceback", i))
  {
    ContainsIff(job.resultTraceback, "Traceback");
    ContainsIff(job.resultStdout, "Traceback");
  }

  /** The two output fields count alike. */
  lemma TracebackFieldsAlike(job: Snapshot)
    ensures HasTraceback(job) ==
              HasTraceback(job.(resultTraceback := job.resultStdout, resultStdout := job.resultTraceback))
  {
  }

  /** A task reported `successful` with `Traceback` at some index of its traceback field is completed but not successful. */
  lemma SuccessfulWithTracebackIsNot(job: Snapshot, i: nat)
    requires Lower(job.status) == "successful" && !job.failed
    requires OccursAt(job.resultTraceback, "Traceback", i)
    ensures IsCompleted(job) && !IsSuccessful(job)
  {
    ContainsAt(job.resultTraceback, "Traceback", i);
  }

  // ---------------------------------------------------------------------------
  // Describing a page

  /** The attributes a page description lists, in order, when the page has them. */
  const DescribedAttributes: seq<string> :=
    ["id", "name", "status", "failed", "result_stdout", "result_traceback", "job_explanation", "job_args"]

  /**
    The `name:value` entries for those of `items` that the page has; `rendered`
    maps each attribute the page has to its value rendered as text.
   */
  function InfoEntries(items: seq<string>, rendered: map<string, string>): seq<string>
  {
    if items == [] then []
    else
      var init := InfoEntries(items[..|items| - 1], rendered);
      var item := items[|items| - 1];
      if item in rendered then init + [item + ":" + rendered[item]] else init
  }

  /** When the page has every attribute, there is one entry per attribute, in order. */
  lemma {:induction false} InfoEntriesAllPresent(items: seq<string>, rendered: map<string, string>)
    requires forall j :: 0 <= j < |items| ==> items[j] in rendered
    ensures |InfoEntries(items, rendered)| == |items|
    ensures forall j :: 0 <= j < |items| ==>
              InfoEntries(items, rendered)[j] == items[j] + ":" + rendered[items[j]]
  {
    if items != [] {
      InfoEntriesAllPresent(items[..|items| - 1], rendered);
    }
  }

  /** `entry` is the `name:value` entry of one of `items` that the page has. */
  ghost predicate IsEntryFor(entry: string, items: seq<string>, rendered: map<string, string>)
  {
    exists j :: 0 <= j < |items| && items[j] in rendered && entry == items[j] + ":" + rendered[items[j]]
  }

  /** Every entry names an attribute the page has, with its rendered value. */
  lemma {:induction false} InfoEntriesOnlyPresent(items: seq<string>, rendered: map<string, string>)
    ensures |InfoEntries(items, rendered)| <= |items|
    ensures forall k :: 0 <= k < |InfoEntries(items, rendered)| ==>
              IsEntryFor(InfoEntries(items, rendered)[k], items, rendered)
  {
    if items != [] {
      var init := items[..|items| - 1];
      var last := items[|items| - 1];
      InfoEntriesOnlyPresent(init, rendered);
      var e := InfoEntries(init, rendered);
      var r := InfoEntries(items, rendered);
      assert r == if last in rendered then e + [last + ":" + rendered[last]] else e;
      forall k | 0 <= k < |r|
        ensures IsEntryFor(r[k], items, rendered)
      {
        if k < |e| {
          assert r[k] == e[k];
          assert IsEntryFor(e[k], init, rendered);
          var j :| 0 <= j < |init| && init[j] in rendered && e[k] == init[j] + ":" + rendered[init[j]];
          assert items[j] == init[j];
        } else {
          assert r[k] == last + ":" + rendered[last];
          assert items[|items| - 1] == last;
        }
      }
    }
  }

  /** The text of a page description before `%` is escaped. */
  function Render(className: string, rendered: map<string, string>): string
  {
    "<" + className + " " + Join(InfoEntries(DescribedAttributes, rendered), ", ") + ">"
  }

  /** Doubles every `%`, so that later `%`-formatting cannot misread the text. */
  function EscapePercent(s: string): string
  {
    Replace(s, "%", "%%")
  }

  /** The conversion flags a `%` directive may carry. */
  const FormatFlags: set<char> := {'-', '+', ' ', '#', '0'}

  /** The decimal digits. */
  const Digits: set<char> := {'0', '1', '2', '3', '4', '5', '6', '7', '8', '9'}

  /** The number of leading characters of `s` that belong to `chars`. */
  function SpanOf(s: string, chars: set<char>): (n: nat)
    ensures n <= |s|
    ensures n < |s| ==> s[n] !in chars
  {
    if s != [] && s[0] in chars then 1 + SpanOf(s[1..], chars) else 0
  }

  /** The value of a run of decimal digits. */
  function DecimalValue(d: string): nat
  {
    if d == [] then 0
    else
      var c := d[|d| - 1];
      10 * DecimalValue(d[..|d| - 1]) + (if '0' <= c <= '9' then c as int - '0' as int else 0)
  }

  /** Where the flags of a directive end, given the text after its `%`. */
  function FlagsEnd(s: string): (f: nat)
    ensures f <= |s|
  {
    SpanOf(s, FormatFlags)
  }

  /** Where the width of a directive ends. */
  function WidthEnd(s: string): (w: nat)
    ensures FlagsEnd(s) <= w <= |s|
  {
    FlagsEnd(s) + SpanOf(s[FlagsEnd(s)..], Digits)
  }

  /** Where the conversion character stands: past the width, a `.` precision and one `h`, `l` or `L`. */
  function ConversionIndex(s: string): (m: nat)
    ensures WidthEnd(s) <= m <= |s|
  {
    var w := WidthEnd(s);
    var p := if w < |s| && s[w] == '.' then w + 1 + SpanOf(s[w + 1..], Digits) else w;
    if p < |s| && (s[p] == 'h' || s[p] == 'l' || s[p] == 'L') then p + 1 else p
  }

  /** A `%` padded with blanks to `width`, on the right of it when left-justified. */
  function PaddedPercent(leftJustify: bool, width: nat): (r: string)
    ensures |r| == if width > 1 then width else 1
    ensures r[if leftJustify then 0 else |r| - 1] == '%'
    ensures forall i :: 0 <= i < |r| && i != (if leftJustify then 0 else |r| - 1) ==> r[i] == ' '
  {
    var pad := seq(if width > 1 then width - 1 else 0, _ => ' ');
    if leftJustify then "%" + pad else pad + "%"
  }

  /**
    One `%` directive of Python 2's `s % ()`, given the text after its `%`:
    a mapping key, then flags, a width, a precision and a length modifier,
    then the conversion character. Only the conversion `%` needs no
    argument; it prints `%` padded with blanks to the width, on the right
    when the `-` flag is given. The result is the printed text and the
    number of characters the directive spans after its `%`; `None` when
    Python raises (a mapping key without a mapping, a missing argument, an
    unfinished directive).
   */
  function PercentDirective(s: string): (r: Option<(string, nat)>)
    ensures r.Some? ==> 0 < r.value.1 <= |s| && s[r.value.1 - 1] == '%'
  {
    if s != [] && s[0] == '(' then None
    else
      var m := ConversionIndex(s);
      if m < |s| && s[m] == '%' then
        var f := FlagsEnd(s);
        Some((PaddedPercent('-' in s[..f], DecimalValue(s[f..WidthEnd(s)])), m + 1))
      else None
  }

  /**
    Python 2's `s % ()`: text outside directives is copied, a directive
    whose conversion is `%` prints a `%`, and any other directive fails for
    want of an argument.
   */
  function FormatWithoutArgs(s: string): Option<string>
    decreases |s|
  {
    if s == [] then Some([])
    else if s[0] == '%' then
      match PercentDirective(s[1..])
      case None => None
      case Some((text, n)) =>
        match FormatWithoutArgs(s[1 + n..])
        case Some(t) => Some(text + t)
        case None => None
    else
      match FormatWithoutArgs(s[1..])
      case Some(t) => Some([s[0]] + t)
      case None => None
  }

  /** A `%` right after the width is the conversion: the directive prints the padded `%` and ends there. */
  lemma PercentAfterWidth(s: string)
    requires s != [] && s[0] != '('
    requires WidthEnd(s) < |s| && s[WidthEnd(s)] == '%'
    ensures PercentDirective(s) ==
              Some((PaddedPercent('-' in s[..FlagsEnd(s)], DecimalValue(s[FlagsEnd(s)..WidthEnd(s)])), WidthEnd(s) + 1))
  {
    assert ConversionIndex(s) == WidthEnd(s);
  }

  /** Without a width, the printed text is a single `%`. */
  lemma UnpaddedPercent(leftJustify: bool)
    ensures PaddedPercent(leftJustify, 0) == "%"
  {
    var r := PaddedPercent(leftJustify, 0);
    assert |r| == 1 && r[0] == '%';
  }

  /** `%%` is the directive that prints a single `%`. */
  lemma DoubledPercent(rest: string)
    ensures PercentDirective("%" + rest) == Some(("%", 1))
  {
    var s := "%" + rest;
    assert s[0] == '%' && s[0] !in FormatFlags && s[0] !in Digits;
    assert FlagsEnd(s) == 0;
    assert s[0..] == s;
    assert WidthEnd(s) == 0;
    PercentAfterWidth(s);
    assert s[0..0] == [];
    UnpaddedPercent('-' in s[..0]);
  }

  /** A doubled `%` formats to one `%` in front of the rest. */
  lemma FormatDoubled(rest: string, t: string)
    requires FormatWithoutArgs(rest) == Some(t)
    ensures FormatWithoutArgs("%%" + rest) == Some("%" + t)
  {
    var s := "%%" + rest;
    assert s[1..] == "%" + rest;
    DoubledPercent(rest);
    assert s[2..] == rest;
  }

  /** Any character other than `%` is copied. */
  lemma FormatPlain(c: char, rest: string, t: string)
    requires c != '%' && FormatWithoutArgs(rest) == Some(t)
    ensures FormatWithoutArgs([c] + rest) == Some([c] + t)
  {
    assert ([c] + rest)[1..] == rest;
  }

  /** The span of `chars` at the head of `a + b` is `a` when `a` is made of them and `b` does not start with one. */
  lemma {:induction false} SpanOfPrefix(a: string, b: string, chars: set<char>)
    requires forall i :: 0 <= i < |a| ==> a[i] in chars
    requires b != [] && b[0] !in chars
    ensures SpanOf(a + b, chars) == |a|
    decreases |a|
  {
    if a != [] {
      assert (a + b)[1..] == a[1..] + b;
      SpanOfPrefix(a[1..], b, chars);
    } else {
      assert a + b == b;
    }
  }

  /** Flags alone before the conversion `%` still print a single `%`, as in `'% %' % ()`. */
  lemma FlagsBeforePercent(flags: string, rest: string)
    requires forall i :: 0 <= i < |flags| ==> flags[i] in FormatFlags
    ensures PercentDirective(flags + "%" + rest) == Some(("%", |flags| + 1))
  {
    var s := flags + "%" + rest;
    var f := |flags|;
    assert s == flags + ("%" + rest);
    SpanOfPrefix(flags, "%" + rest, FormatFlags);
    assert FlagsEnd(s) == f;
    assert s[0] != '(' by {
      if f > 0 { assert s[0] == flags[0]; } else { assert s[0] == '%'; }
    }
    assert s[f] == '%' && s[f] !in Digits;
    assert s[f..][0] == '%';
    assert WidthEnd(s) == f;
    PercentAfterWidth(s);
    assert s[f..f] == [];
    UnpaddedPercent('-' in s[..f]);
  }

  /** A digit other than `0` is neither a flag nor the start of a mapping key, and `%` is not a digit. */
  lemma NonzeroDigitNotFlag(c: char)
    requires c in Digits && c != '0'
    ensures c !in FormatFlags && c != '(' && '%' !in Digits
  {
  }

  /** Digits not led by `0` make up the width: no flags precede them. */
  lemma WidthSpan(width: string, tail: string)
    requires width != [] && width[0] != '0'
    requires forall i :: 0 <= i < |width| ==> width[i] in Digits
    requires tail != [] && tail[0] == '%'
    ensures FlagsEnd(width + tail) == 0 && WidthEnd(width + tail) == |width|
  {
    var s := width + tail;
    assert s[0] == width[0];
    NonzeroDigitNotFlag(width[0]);
    assert FlagsEnd(s) == 0;
    assert s[0..] == s;
    SpanOfPrefix(width, tail, Digits);
  }

  /** A width before the conversion `%` pads the `%` with blanks on its left, as in `'%5%' % ()`. */
  lemma WidthBeforePercent(width: string, tail: string)
    requires width != [] && width[0] != '0'
    requires forall i :: 0 <= i < |width| ==> width[i] in Digits
    requires tail != [] && tail[0] == '%'
    ensures PercentDirective(width + tail) == Some((PaddedPercent(false, DecimalValue(width)), |width| + 1))
  {
    var s := width + tail;
    WidthSpan(width, tail);
    assert s[0] != '(' by {
      NonzeroDigitNotFlag(width[0]);
      assert s[0] == width[0];
    }
    assert s[|width|] == '%';
    PercentAfterWidth(s);
    assert s[0..|width|] == width;
    assert '-' !in s[..0];
  }

  /** Any other conversion needs an argument, so `'%s' % ()` and `'%d' % ()` raise. */
  lemma OtherConversionFails(c: char, rest: string)
    requires c !in FormatFlags && c !in Digits
    requires c != '.' && c != 'h' && c != 'l' && c != 'L' && c != '%'
    ensures PercentDirective([c] + rest) == None
  {
    var s := [c] + rest;
    assert s[0] == c;
    assert FlagsEnd(s) == 0;
    assert s[0..] == s;
    assert WidthEnd(s) == 0;
    assert ConversionIndex(s) == 0;
  }

  /** `'% %' % ()` is `'%'`: a blank flag does not stop `%%` printing one `%`. */
  lemma BlankFlagExample()
    ensures FormatWithoutArgs("% %") == Some("%")
  {
    var s := "% %";
    FlagsBeforePercent(" ", "");
    assert s[1..] == " " + "%" + "";
    assert PercentDirective(s[1..]) == Some(("%", 2));
    assert s[1 + 2..] == [];
    assert FormatWithoutArgs(s[1 + 2..]) == Some([]);
    assert "%" + [] == "%";
  }

  /** `'%5%' % ()` is four blanks and a `%`. */
  lemma WidthExample()
    ensures FormatWithoutArgs("%5%") == Some("    %")
  {
    var s := "%5%";
    assert DecimalValue("5") == 5;
    WidthBeforePercent("5", "%");
    assert s[1..] == "5" + "%";
    var r := PaddedPercent(false, 5);
    assert |r| == 5 && r[4] == '%' && r[0] == ' ' && r[1] == ' ' && r[2] == ' ' && r[3] == ' ';
    assert r == "    %";
    assert PercentDirective(s[1..]) == Some(("    %", 2));
    assert s[1 + 2..] == [];
    assert FormatWithoutArgs(s[1 + 2..]) == Some([]);
    assert "    %" + [] == "    %";
  }

  /** Formatting an escaped text gives back the text, whatever `%` directives it held. */
  lemma {:induction false} EscapeRoundTrip(s: string)
    ensures FormatWithoutArgs(EscapePercent(s)) == Some(s)
    decreases |s|
  {
    if s != [] {
      EscapeRoundTrip(s[1..]);
      assert s[..1] == [s[0]];
      assert s[|"%"|..] == s[1..];
      if s[0] == '%' {
        assert EscapePercent(s) == "%%" + EscapePercent(s[1..]);
        FormatDoubled(EscapePercent(s[1..]), s[1..]);
      } else {
        assert EscapePercent(s) == [s[0]] + EscapePercent(s[1..]);
        FormatPlain(s[0], EscapePercent(s[1..]), s[1..]);
      }
      assert [s[0]] + s[1..] == s;
    }
  }

  /**
    Builds the page description: the listed attributes the page has, as
    `name:value` entries separated by `, `, inside `<ClassName ...>`, with
    every `%` doubled.
   */
  method Describe(className: string, rendered: map<string, string>) returns (output: string)
    ensures output == EscapePercent(Render(className, rendered))
    ensures FormatWithoutArgs(output) == Some(Render(className, rendered))
  {
    var info: seq<string> := [];
    var i := 0;
    while i < |DescribedAttributes|
      invariant 0 <= i <= |DescribedAttributes|
      invariant info == InfoEntries(DescribedAttributes[..i], rendered)
    {
      var item := DescribedAttributes[i];
      if item in rendered {
        info := info + [item + ":" + rendered[item]];
      }
      assert DescribedAttributes[..i + 1][..i] == DescribedAttributes[..i];
      i := i + 1;
    }
    assert DescribedAttributes[..i] == DescribedAttributes;
    var text := "<" + className + " " + Join(info, ", ") + ">";
    output := EscapePercent(text);
    EscapeRoundTrip(text);
  }

  // ---------------------------------------------------------------------------
  // Cancelling

  /** How the server answers a cancel request. */
  datatype PostResult =
    | Accepted
    | MethodNotAllowed(message: map<string, string>)  // HTTP 405, with the decoded error body
    | OtherFailure(description: string)               // any other exception

  /** How `cancel` ends: normally, or by raising the failure of the request. */
  datatype CancelOutcome = Returned | Raised(failure: PostResult)

  /** The `error` entry of a 405 body, `''` when it has none. */
  function ErrorText(message: map<string, string>): string
  {
    if "error" in message then message["error"] else ""
  }

  /** A 405 whose error text says the cancel is `not allowed`: the task finished in between. */
  predicate IsFinishedRace(result: PostResult)
  {
    result.MethodNotAllowed? && Contains(ErrorText(result.message), "not allowed")
  }

  /** What the `except` clause of `cancel` makes of the result of the request. */
  function CancelVerdict(result: PostResult): CancelOutcome
  {
    match result
    case Accepted => Returned
    case MethodNotAllowed(message) =>
      if Contains(ErrorText(message), "not allowed") then Returned else Raised(result)
    case OtherFailure(_) => Raised(result)
  }

  /** Only an accepted request and the finished race end normally; a raised failure is the request's own. */
  lemma CancelVerdictSpec(result: PostResult)
    ensures CancelVerdict(result) == Returned <==> result.Accepted? || IsFinishedRace(result)
    ensures CancelVerdict(result).Raised? ==> CancelVerdict(result).failure == result
    ensures result.OtherFailure? ==> CancelVerdict(result) == Raised(result)
  {
  }

  /** A 405 is swallowed exactly when its `error` entry exists and holds `not allowed` at some index. */
  lemma FinishedRaceIff(message: map<string, string>)
    ensures IsFinishedRace(MethodNotAllowed(message)) <==>
              "error" in message && exists i: nat :: OccursAt(message["error"], "not allowed", i)
  {
    ContainsIff(ErrorText(message), "not allowed");
    if "error" !in message {
      assert ErrorText(message) == "";
    }
  }

  // ---------------------------------------------------------------------------
  // The server and the clock

  /**
    The server as one page sees it: the answers to its requests, fixed in
    advance and served in order, and how many of each it has served.
   */
  class TaskService {
    const responses: nat -> Snapshot       // the task as the k-th GET of it returns it
    const cancelable: nat -> bool          // `can_cancel` of the k-th GET of the related cancel resource
    const postResults: nat -> PostResult   // the answer to the k-th POST to the cancel resource
    var gets: nat
    var cancelGets: nat
    var posts: nat

    constructor (responses: nat -> Snapshot, cancelable: nat -> bool, postResults: nat -> PostResult)
      ensures this.responses == responses && this.cancelable == cancelable && this.postResults == postResults
      ensures gets == 0 && cancelGets == 0 && posts == 0
    {
      this.responses := responses;
      this.cancelable := cancelable;
      this.postResults := postResults;
      gets, cancelGets, posts := 0, 0, 0;
    }

    /** GET the task. */
    method Get() returns (job: Snapshot)
      modifies this`gets
      ensures job == responses(old(gets)) && gets == old(gets) + 1
    {
      job := responses(gets);
      gets := gets + 1;
    }

    /** GET the task's related cancel resource and read its `can_cancel`. */
    method GetCancel() returns (canCancel: bool)
      modifies this`cancelGets
      ensures canCancel == cancelable(old(cancelGets)) && cancelGets == old(cancelGets) + 1
    {
      canCancel := cancelable(cancelGets);
      cancelGets := cancelGets + 1;
    }

    /** POST to the cancel resource. */
    method PostCancel() returns (result: PostResult)
      modifies this`posts
      ensures result == postResults(old(posts)) && posts == old(posts) + 1
    {
      result := postResults(posts);
      posts := posts + 1;
    }
  }

  /** The wall clock: its successive readings, one more after each sleep. */
  class Clock {
    const readings: nat -> int
    var ticks: nat

    constructor (readings: nat -> int)
      ensures this.readings == readings && ticks == 0
    {
      this.readings := readings;
      ticks := 0;
    }

    /** Time goes forward, and a sleep of `interval` lasts at least `interval`. */
    ghost predicate Advances(interval: nat)
    {
      forall k: nat :: readings(k) < readings(k + 1) && readings(k) + interval <= readings(k + 1)
    }

    function Now(): int
      reads this
    {
      readings(ticks)
    }

    method Sleep(interval: nat)
      requires Advances(interval)
      modifies this`ticks
      ensures ticks == old(ticks) + 1
      ensures old(Now()) + interval <= Now()
    {
      ticks := ticks + 1;
    }
  }

  // ---------------------------------------------------------------------------
  // Waiting

  /** The `status` argument of a wait: one status, or a list or tuple of them. */
  datatype StatusArg = OneStatus(status: string) | StatusList(statuses: seq<string>)

  /** The list of acceptable statuses: a single status becomes a one-element list. */
  function Targets(arg: StatusArg): seq<string>
  {
    match arg
    case OneStatus(s) => [s]
    case StatusList(ss) => ss
  }

  /** How a wait ends: the status was reached, or time ran out after `elapsed`. */
  datatype WaitOutcome = Reached | TimedOut(elapsed: int)

  /** The statuses that `WaitUntilStarted` accepts. */
  const StartedStatuses: seq<string> := ["pending", "running", "successful", "failed", "error", "canceled"]

  /** Waiting for "started" accepts every status but `new` and `waiting`. */
  lemma StartedStatusesExact(st: Status)
    ensures st.Name() in StartedStatuses <==> st != New && st != Waiting
  {
  }

  /** Waiting for "completed" accepts exactly the terminal statuses. */
  lemma CompletedStatusesExact(st: Status)
    ensures st.Name() in CompletedStatuses <==> st.IsTerminal()
  {
  }

  /** Every status that ends a wait for completion also ends a wait for start. */
  lemma CompletedAreStarted(s: string)
    ensures s in CompletedStatuses ==> s in StartedStatuses
  {
  }

  /** A status that ends a wait for completion makes the page completed. */
  lemma CompletedTargetIsCompleted(job: Snapshot)
    requires job.status in CompletedStatuses
    ensures IsCompleted(job)
  {
    if job.status == "successful" {
      LowerOfLowerCase("successful");
    } else if job.status == "failed" {
      LowerOfLowerCase("failed");
    } else if job.status == "error" {
      LowerOfLowerCase("error");
    } else {
      LowerOfLowerCase("canceled");
    }
  }

  class UnifiedJob {
    var snap: Snapshot

    constructor (snap: Snapshot)
      ensures this.snap == snap
    {
      this.snap := snap;
    }

    /** Replaces the snapshot wholesale with the server's current one. */
    method Refresh(service: TaskService)
      modifies this, service`gets
      ensures snap == service.responses(old(service.gets)) && service.gets == old(service.gets) + 1
    {
      snap := service.Get();
    }

    /**
      Waits until the status is one of `status`, measuring time from the
      task's creation: sleeps `interval`, gives up once more than `timeout`
      has passed since `created`, and otherwise refreshes and looks again.
     */
    method WaitUntilStatus(status: StatusArg, service: TaskService, clock: Clock,
                           interval: nat := 1, timeout: int := 60)
      returns (outcome: WaitOutcome)
      requires clock.Advances(interval)
      modifies this, service`gets, clock`ticks
      ensures outcome == Reached ==> snap.status in Targets(status)
      ensures outcome.TimedOut? ==>
                snap.status !in Targets(status) &&
                outcome.elapsed == clock.Now() - old(snap.created) && outcome.elapsed > timeout
      ensures forall k: nat :: old(clock.ticks) < k < clock.ticks ==>
                clock.readings(k) - old(snap.created) <= timeout
      ensures old(snap.status) in Targets(status) ==>
                outcome == Reached && snap == old(snap) &&
                clock.ticks == old(clock.ticks) && service.gets == old(service.gets)
      ensures service.gets - old(service.gets) ==
                clock.ticks - old(clock.ticks) - (if outcome.TimedOut? then 1 else 0)
      ensures service.gets == old(service.gets) ==> snap == old(snap)
      ensures service.gets > old(service.gets) ==> snap == service.responses(service.gets - 1)
      ensures forall k: nat :: old(service.gets) <= k < service.gets - 1 ==>
                service.responses(k).status !in Targets(status)
    {
      var targets := Targets(status);
      var start := snap.created;
      while snap.status !in targets
        invariant start == old(snap.created)
        invariant clock.ticks >= old(clock.ticks)
        invariant old(snap.status) in targets ==> clock.ticks == old(clock.ticks)
        invariant service.gets - old(service.gets) == clock.ticks - old(clock.ticks)
        invariant forall k: nat :: old(clock.ticks) < k <= clock.ticks ==> clock.readings(k) - start <= timeout
        invariant service.gets == old(service.gets) ==> snap == old(snap)
        invariant service.gets > old(service.gets) ==> snap == service.responses(service.gets - 1)
        invariant forall k: nat :: old(service.gets) <= k < service.gets - 1 ==>
                    service.responses(k).status !in targets
        decreases timeout - (clock.Now() - start) + 1
      {
        clock.Sleep(interval);
        var elapsed := clock.Now() - start;
        if elapsed > timeout {
          return TimedOut(elapsed);
        }
        Refresh(service);
      }
      outcome := Reached;
    }

    /** Waits, by default 1 between polls and 60 in all, until the task has left `new` and `waiting`. */
    method WaitUntilStarted(service: TaskService, clock: Clock, interval: nat := 1, timeout: int := 60)
      returns (outcome: WaitOutcome)
      requires clock.Advances(interval)
      modifies this, service`gets, clock`ticks
      ensures outcome == Reached ==> snap.status in StartedStatuses
      ensures outcome == Reached ==>
                ParseStatus(snap.status).Some? && ParseStatus(snap.status).value !in {New, Waiting}
      ensures outcome.TimedOut? ==>
                snap.status !in StartedStatuses &&
                outcome.elapsed == clock.Now() - old(snap.created) && outcome.elapsed > timeout
      ensures forall k: nat :: old(clock.ticks) < k < clock.ticks ==>
                clock.readings(k) - old(snap.created) <= timeout
      ensures old(snap.status) in StartedStatuses ==>
                outcome == Reached && snap == old(snap) &&
                clock.ticks == old(clock.ticks) && service.gets == old(service.gets)
      ensures service.gets - old(service.gets) ==
                clock.ticks - old(clock.ticks) - (if outcome.TimedOut? then 1 else 0)
      ensures service.gets == old(service.gets) ==> snap == old(snap)
      ensures service.gets > old(service.gets) ==> snap == service.responses(service.gets - 1)
      ensures forall k: nat :: old(service.gets) <= k < service.gets - 1 ==>
                service.responses(k).status !in StartedStatuses
    {
      assert Targets(StatusList(StartedStatuses)) == StartedStatuses;
      outcome := WaitUntilStatus(StatusList(StartedStatuses), service, clock, interval, timeout);
    }

    /** Waits, by default 5 between polls and 180 in all, until the task is completed. */
    method WaitUntilCompleted(service: TaskService, clock: Clock, interval: nat := 5, timeout: int := 60 * 3)
      returns (outcome: WaitOutcome)
      requires clock.Advances(interval)
      modifies this, service`gets, clock`ticks
      ensures outcome == Reached ==> snap.status in CompletedStatuses && IsCompleted(snap)
      ensures outcome.TimedOut? ==>
                snap.status !in CompletedStatuses &&
                outcome.elapsed == clock.Now() - old(snap.created) && outcome.elapsed > timeout
      ensures forall k: nat :: old(clock.ticks) < k < clock.ticks ==>
                clock.readings(k) - old(snap.created) <= timeout
      ensures old(snap.status) in CompletedStatuses ==>
                outcome == Reached && snap == old(snap) &&
                clock.ticks == old(clock.ticks) && service.gets == old(service.gets)
      ensures service.gets - old(service.gets) ==
                clock.ticks - old(clock.ticks) - (if outcome.TimedOut? then 1 else 0)
      ensures service.gets == old(service.gets) ==> snap == old(snap)
      ensures service.gets > old(service.gets) ==> snap == service.responses(service.gets - 1)
      ensures forall k: nat :: old(service.gets) <= k < service.gets - 1 ==>
                service.responses(k).status !in CompletedStatuses
    {
      assert Targets(StatusList(CompletedStatuses)) == CompletedStatuses;
      outcome := WaitUntilStatus(StatusList(CompletedStatuses), service, clock, interval, timeout);
      if outcome == Reached {
        CompletedTargetIsCompleted(snap);
      }
    }

    /**
      Cancels the task if the server says it can be cancelled. A 405 that
      says the cancel is `not allowed` means the task finished meanwhile and
      is swallowed; every other failure of the request is raised.
     */
    method Cancel(service: TaskService) returns (outcome: CancelOutcome)
      modifies service`cancelGets, service`posts
      ensures service.cancelGets == old(service.cancelGets) + 1
      ensures !service.cancelable(old(service.cancelGets)) ==>
                outcome == Returned && service.posts == old(service.posts)
      ensures service.cancelable(old(service.cancelGets)) ==>
                service.posts == old(service.posts) + 1 &&
                outcome == CancelVerdict(service.postResults(old(service.posts)))
    {
      var canCancel := service.GetCancel();
      if !canCancel {
        return Returned;
      }
      var result := service.PostCancel();
      match result {
        case Accepted =>
          outcome := Returned;
        case MethodNotAllowed(message) =>
          if !Contains(ErrorText(message), "not allowed") {
            outcome := Raised(result);
          } else {
            outcome := Returned;
          }
        case OtherFailure(_) =>
          outcome := Raised(result);
      }
    }
  }
}
