/**
 * The `UpdatePlan` tool: a list of steps, each pending, in progress or completed, that is
 * accepted only when every step is completed or exactly one step is in progress, and a
 * summary that lists the steps, the progress count and what is being worked on.
 */
module Plan {
  import opened Wrappers
  import opened Text

  // ------------------------------------------------------------ steps

  datatype Status = Pending | InProgress | Completed

  /** The status literal as the tool's input schema spells it. */
  function StatusName(s: Status): string {
    match s
    case Pending => "pending"
    case InProgress => "in_progress"
    case Completed => "completed"
  }

  /** The schema's `Literal["pending", "in_progress", "completed"]` check on an incoming status. */
  function ParseStatus(name: string): (r: Option<Status>)
    ensures r.Some? ==> StatusName(r.value) == name
  {
    if name == "pending" then Some(Pending)
    else if name == "in_progress" then Some(InProgress)
    else if name == "completed" then Some(Completed)
    else None
  }

  /** Every status name is accepted, as the status it names. */
  lemma ParseStatusName(s: Status)
    ensures ParseStatus(StatusName(s)) == Some(s)
  {
    match s
    case Pending =>
    case InProgress =>
      assert StatusName(s) != "pending";
    case Completed =>
      assert StatusName(s) != "pending" && StatusName(s) != "in_progress";
  }

  datatype PlanStep = PlanStep(description: string, status: Status)

  /** `sum(1 for step in steps if step.status == status)`. */
  function Count(steps: seq<PlanStep>, status: Status): (n: nat)
    ensures n <= |steps|
    decreases |steps|
  {
    if steps == [] then 0
    else (if steps[0].status == status then 1 else 0) + Count(steps[1..], status)
  }

  predicate AllHave(steps: seq<PlanStep>, status: Status) {
    forall i :: 0 <= i < |steps| ==> steps[i].status == status
  }

  predicate NoneHas(steps: seq<PlanStep>, status: Status) {
    forall i :: 0 <= i < |steps| ==> steps[i].status != status
  }

  /** Exactly one step has the status. */
  predicate ExactlyOne(steps: seq<PlanStep>, status: Status) {
    exists i :: 0 <= i < |steps| && steps[i].status == status && NoneHas(steps[..i] + steps[i + 1..], status)
  }

  /** The count is the length exactly when every step has the status. */
  lemma {:induction false} CountAll(steps: seq<PlanStep>, status: Status)
    ensures Count(steps, status) == |steps| <==> AllHave(steps, status)
    decreases |steps|
  {
    if steps != [] {
      CountAll(steps[1..], status);
      if AllHave(steps, status) {
        assert AllHave(steps[1..], status) by {
          forall i | 0 <= i < |steps[1..]| ensures steps[1..][i].status == status {
            assert steps[1..][i] == steps[i + 1];
          }
        }
      }
      if Count(steps, status) == |steps| {
        forall i | 0 <= i < |steps| ensures steps[i].status == status {
          if i > 0 {
            assert steps[i] == steps[1..][i - 1];
          }
        }
      }
    }
  }

  /** The count is zero exactly when no step has the status. */
  lemma {:induction false} CountNone(steps: seq<PlanStep>, status: Status)
    ensures Count(steps, status) == 0 <==> NoneHas(steps, status)
    decreases |steps|
  {
    if steps != [] {
      CountNone(steps[1..], status);
      if NoneHas(steps, status) {
        assert NoneHas(steps[1..], status) by {
          forall i | 0 <= i < |steps[1..]| ensures steps[1..][i].status != status {
            assert steps[1..][i] == steps[i + 1];
          }
        }
      }
      if Count(steps, status) == 0 {
        forall i | 0 <= i < |steps| ensures steps[i].status != status {
          if i > 0 {
            assert steps[i] == steps[1..][i - 1];
          }
        }
      }
    }
  }

  /** Counting over a concatenation adds up. */
  lemma {:induction false} CountAppend(a: seq<PlanStep>, b: seq<PlanStep>, status: Status)
    ensures Count(a + b, status) == Count(a, status) + Count(b, status)
    decreases |a|
  {
    if a == [] {
      assert a + b == b;
    } else {
      assert (a + b)[0] == a[0] && (a + b)[1..] == a[1..] + b;
      CountAppend(a[1..], b, status);
    }
  }

  /** The count is one exactly when exactly one step has the status. */
  lemma CountOne(steps: seq<PlanStep>, status: Status)
    ensures Count(steps, status) == 1 <==> ExactlyOne(steps, status)
  {
    if ExactlyOne(steps, status) {
      var i :| 0 <= i < |steps| && steps[i].status == status && NoneHas(steps[..i] + steps[i + 1..], status);
      CountSplit(steps, i, status);
      CountNone(steps[..i] + steps[i + 1..], status);
    }
    if Count(steps, status) == 1 {
      var i := FirstWith(steps, status);
      CountSplit(steps, i, status);
      CountNone(steps[..i] + steps[i + 1..], status);
    }
  }

  /** The count with one step taken out. */
  lemma CountSplit(steps: seq<PlanStep>, i: nat, status: Status)
    requires i < |steps|
    ensures Count(steps, status) == (if steps[i].status == status then 1 else 0) + Count(steps[..i] + steps[i + 1..], status)
  {
    assert steps == steps[..i] + ([steps[i]] + steps[i + 1..]);
    CountAppend(steps[..i], [steps[i]] + steps[i + 1..], status);
    CountAppend(steps[..i], steps[i + 1..], status);
    assert ([steps[i]] + steps[i + 1..])[1..] == steps[i + 1..];
  }

  /** Some step with the status, when the count is positive. */
  lemma {:induction false} FirstWithExists(steps: seq<PlanStep>, status: Status)
    requires Count(steps, status) > 0
    ensures exists i :: 0 <= i < |steps| && steps[i].status == status
  {
    CountNone(steps, status);
  }

  ghost function FirstWith(steps: seq<PlanStep>, status: Status): (i: nat)
    requires Count(steps, status) > 0
    ensures i < |steps| && steps[i].status == status
  {
    FirstWithExists(steps, status);
    var i :| 0 <= i < |steps| && steps[i].status == status;
    i
  }

  /** Every step has exactly one of the three statuses. */
  lemma {:induction false} CountsAddUp(steps: seq<PlanStep>)
    ensures Count(steps, Pending) + Count(steps, InProgress) + Count(steps, Completed) == |steps|
    decreases |steps|
  {
    if steps != [] {
      CountsAddUp(steps[1..]);
    }
  }

  // ------------------------------------------------------------ validation

  /** Why a list of steps is refused. */
  datatype PlanError =
    | TooFewSteps                   // the schema's `min_length=1`
    | WrongInProgressCount(found: nat)

  /** The `ValueError` text of `validate_in_progress_count`. */
  function ErrorMessage(e: PlanError): string {
    match e
    case TooFewSteps => "List should have at least 1 item after validation, not 0"
    case WrongInProgressCount(n) =>
      "There must be exactly one 'in_progress' step (found " + NatToString(n)
      + "). Either mark one step as 'in_progress' or mark all steps as 'completed'."
  }

  /** The message tells the refusals apart, down to the in-progress count it reports. */
  lemma ErrorMessageIdentifies(e1: PlanError, e2: PlanError)
    requires ErrorMessage(e1) == ErrorMessage(e2)
    ensures e1 == e2
  {
    var m := ErrorMessage(e1);
    var head := "There must be exactly one 'in_progress' step (found ";
    var tail := "). Either mark one step as 'in_progress' or mark all steps as 'completed'.";
    if !e1.TooFewSteps? && !e2.TooFewSteps? {
      var a, b := NatToString(e1.found), NatToString(e2.found);
      assert m[|head|..|m| - |tail|] == a;
      assert m[|head|..|m| - |tail|] == b;
      DigitsValueOfNatToString(e1.found);
      DigitsValueOfNatToString(e2.found);
    }
  }

  /** The schema's length check, then `validate_in_progress_count`, which hands the steps back unchanged when they pass. */
  function Validate(steps: seq<PlanStep>): Result<seq<PlanStep>, PlanError> {
    if |steps| < 1 then Err(TooFewSteps)
    else if Count(steps, Completed) == |steps| then Ok(steps)
    else
      var inProgress := Count(steps, InProgress);
      if inProgress != 1 then Err(WrongInProgressCount(inProgress)) else Ok(steps)
  }

  /**
   * A plan is accepted, unchanged, exactly when it has a step and either every step is
   * completed or exactly one is in progress; a refused non-empty plan reports how many
   * steps are in progress.
   */
  lemma ValidateSpec(steps: seq<PlanStep>)
    ensures Validate(steps).Ok? ==> Validate(steps).value == steps
    ensures Validate(steps).Ok? <==> steps != [] && (AllHave(steps, Completed) || ExactlyOne(steps, InProgress))
    ensures steps == [] ==> Validate(steps) == Err(TooFewSteps)
    ensures steps != [] && Validate(steps).Err? ==>
      Validate(steps).error == WrongInProgressCount(Count(steps, InProgress))
      && !ExactlyOne(steps, InProgress) && !AllHave(steps, Completed)
  {
    CountAll(steps, Completed);
    CountOne(steps, InProgress);
  }

  /** An accepted plan that is not finished has a step in progress. */
  lemma ValidUnfinishedHasCurrent(steps: seq<PlanStep>)
    requires Validate(steps).Ok?
    requires Count(steps, Completed) < |steps|
    ensures Count(steps, InProgress) == 1
  {
  }

  // ------------------------------------------------------------ the summary

  /** A line of the summary, and the text it renders to. */
  datatype Line =
    | Title                                  // the header
    | Blank
    | StepRow(n: nat, step: PlanStep)        // the step numbered `n`
    | ProgressRow(completed: nat, total: nat)
    | Done                                   // every step completed
    | Working(n: nat)                        // the step in progress

  function Icon(s: Status): string {
    match s
    case Pending => "\U{23F3}"
    case InProgress => "\U{1F504}"
    case Completed => "\U{2705}"
  }

  /** Each status has its own one-character icon. */
  lemma IconIdentifies(a: Status, b: Status)
    ensures |Icon(a)| == 1
    ensures Icon(a) == Icon(b) <==> a == b
  {
  }

  function Render(line: Line): string {
    match line
    case Title => "\U{1F4CB} Current Plan:"
    case Blank => ""
    case StepRow(n, step) =>
      Icon(step.status) + " Step " + NatToString(n) + ": " + step.description + " [" + StatusName(step.status) + "]"
    case ProgressRow(completed, total) =>
      "Progress: " + NatToString(completed) + "/" + NatToString(total) + " steps completed"
    case Done => "\U{1F389} All steps completed!"
    case Working(n) => "Currently working on: Step " + NatToString(n)
  }

  function RenderAll(lines: seq<Line>): (r: seq<string>)
    ensures |r| == |lines|
    ensures forall k :: 0 <= k < |lines| ==> r[k] == Render(lines[k])
  {
    seq(|lines|, k requires 0 <= k < |lines| => Render(lines[k]))
  }

  /** `next((i + 1 for i, step in enumerate(steps) if step.status == "in_progress"), None)`. */
  function FirstInProgress(steps: seq<PlanStep>): (r: Option<nat>)
    ensures r.Some? ==> 1 <= r.value <= |steps|
    ensures r.Some? ==> steps[r.value - 1].status == InProgress && NoneHas(steps[..r.value - 1], InProgress)
    ensures r.None? <==> NoneHas(steps, InProgress)
    decreases |steps|
  {
    if steps == [] then None
    else if steps[0].status == InProgress then Some(1)
    else
      var rest := FirstInProgress(steps[1..]);
      if rest.None? then
        assert forall i :: 1 <= i < |steps| ==> steps[i] == steps[1..][i - 1];
        None
      else
        assert steps[..rest.value] == [steps[0]] + steps[1..][..rest.value - 1];
        Some(rest.value + 1)
  }

  /** The steps' rows, numbered from 1. */
  function Rows(steps: seq<PlanStep>): (r: seq<Line>)
    ensures |r| == |steps|
    ensures forall i :: 0 <= i < |steps| ==> r[i] == StepRow(i + 1, steps[i])
  {
    seq(|steps|, i requires 0 <= i < |steps| => StepRow(i + 1, steps[i]))
  }

  /** The closing line: all done, or the step in progress, or nothing when there is none. */
  function Closing(steps: seq<PlanStep>): seq<Line> {
    if Count(steps, Completed) == |steps| then [Done]
    else match FirstInProgress(steps)
      case Some(n) => [Working(n)]
      case None => []
  }

  /** The lines `run` joins with newlines. */
  function SummaryLines(steps: seq<PlanStep>): seq<Line> {
    [Title, Blank] + Rows(steps) + [Blank, ProgressRow(Count(steps, Completed), |steps|)] + Closing(steps)
  }

  /** `run`: the plan summary. Storing the plan in the agency context is not modelled. */
  method Run(steps: seq<PlanStep>) returns (text: string)
    ensures text == Join(RenderAll(SummaryLines(steps)), "\n")
  {
    var total := |steps|;
    var completed := Count(steps, Completed);
    var inProgressStep := FirstInProgress(steps);
    var result := [Title, Blank];
    var i := 0;
    while i < |steps|
      invariant 0 <= i <= |steps|
      invariant result == [Title, Blank] + Rows(steps[..i])
    {
      assert Rows(steps[..i + 1]) == Rows(steps[..i]) + [StepRow(i + 1, steps[i])];
      result := result + [StepRow(i + 1, steps[i])];
      i := i + 1;
    }
    assert steps[..i] == steps;
    result := result + [Blank];
    result := result + [ProgressRow(completed, total)];
    ghost var opening := result;
    if completed == total {
      result := result + [Done];
    } else if inProgressStep.Some? {
      result := result + [Working(inProgressStep.value)];
    }
    assert result == opening + Closing(steps);
    assert opening == [Title, Blank] + Rows(steps) + [Blank, ProgressRow(completed, total)];
    text := Join(RenderAll(result), "\n");
  }

  /**
   * The summary opens with the header and a blank line, lists every step in order numbered
   * from 1, then a blank line and the progress line, whose count of completed steps is at most
   * the number of steps.
   */
  lemma SummaryShape(steps: seq<PlanStep>)
    ensures var lines := SummaryLines(steps);
      && |steps| + 4 <= |lines| <= |steps| + 5
      && lines[0] == Title && lines[1] == Blank
      && (forall i :: 0 <= i < |steps| ==> lines[i + 2] == StepRow(i + 1, steps[i]))
      && lines[|steps| + 2] == Blank
      && lines[|steps| + 3] == ProgressRow(Count(steps, Completed), |steps|)
      && Count(steps, Completed) <= |steps|
  {
    var lines := SummaryLines(steps);
    var rows := Rows(steps);
    var head := [Title, Blank] + rows;
    var tail := [Blank, ProgressRow(Count(steps, Completed), |steps|)] + Closing(steps);
    assert lines == head + tail;
    forall i | 0 <= i < |steps| ensures lines[i + 2] == StepRow(i + 1, steps[i]) {
      assert lines[i + 2] == head[i + 2] == rows[i];
    }
    assert lines[|steps| + 2] == tail[0] && lines[|steps| + 3] == tail[1];
  }

  /**
   * The closing line says all steps are completed exactly when they are; otherwise it names
   * the first step in progress, and it is missing only when no step is in progress.
   */
  lemma SummaryClosing(steps: seq<PlanStep>)
    ensures var lines := SummaryLines(steps);
      && (AllHave(steps, Completed) <==> |lines| == |steps| + 5 && lines[|steps| + 4] == Done)
      && (!AllHave(steps, Completed) && !NoneHas(steps, InProgress) ==>
            exists k :: 1 <= k <= |steps| && steps[k - 1].status == InProgress && NoneHas(steps[..k - 1], InProgress)
              && |lines| == |steps| + 5 && lines[|steps| + 4] == Working(k))
      && (|lines| == |steps| + 4 <==> !AllHave(steps, Completed) && NoneHas(steps, InProgress))
  {
    CountAll(steps, Completed);
  }

  /** For an accepted plan exactly one closing line appears: all done or the single step in progress. */
  lemma ValidSummaryCloses(steps: seq<PlanStep>)
    requires Validate(steps).Ok?
    ensures var lines := SummaryLines(steps);
      && |lines| == |steps| + 5
      && (lines[|steps| + 4] == Done <==> AllHave(steps, Completed))
      && (!AllHave(steps, Completed) ==>
            exists k :: 1 <= k <= |steps| && steps[k - 1].status == InProgress && lines[|steps| + 4] == Working(k))
  {
    ValidateSpec(steps);
    CountNone(steps, InProgress);
    SummaryClosing(steps);
  }

  /** The two closing texts differ, and a step's text shows its description and its status. */
  lemma RenderedLines(n: nat, step: PlanStep, m: nat)
    ensures Render(Done) != Render(Working(m))
    ensures Render(StepRow(n, step)) == Icon(step.status) + " Step " + NatToString(n) + ": " + step.description + " [" + StatusName(step.status) + "]"
  {
    assert Render(Working(m))[0] == 'C';
  }

  // ------------------------------------------------------------ reading the summary back

  lemma NumeralHasNoNewline(n: nat)
    ensures '\n' !in NatToString(n)
  {
    var s := NatToString(n);
    assert forall i :: 0 <= i < |s| ==> IsDigit(s[i]);
  }

  lemma FixedTextsHaveNoNewline()
    ensures '\n' !in Render(Title) && '\n' !in Render(Done) && '\n' !in Render(Blank)
    ensures forall s: Status :: '\n' !in Icon(s) && '\n' !in StatusName(s)
  {
  }

  /** A line renders without a newline when its description has none. */
  lemma LineHasNoNewline(line: Line)
    requires line.StepRow? ==> '\n' !in line.step.description
    ensures '\n' !in Render(line)
  {
    FixedTextsHaveNoNewline();
    match line
    case StepRow(n, step) => NumeralHasNoNewline(n);
    case ProgressRow(c, t) => NumeralHasNoNewline(c); NumeralHasNoNewline(t);
    case Working(n) => NumeralHasNoNewline(n);
    case _ =>
  }

  /** With newline-free descriptions, splitting the summary at newlines gives its rendered lines back. */
  lemma SummarySplits(steps: seq<PlanStep>)
    requires forall i :: 0 <= i < |steps| ==> '\n' !in steps[i].description
    ensures Split(Join(RenderAll(SummaryLines(steps)), "\n"), '\n') == RenderAll(SummaryLines(steps))
  {
    var lines := SummaryLines(steps);
    var texts := RenderAll(lines);
    StepRowsComeFromSteps(steps);
    forall k | 0 <= k < |texts| ensures '\n' !in texts[k] {
      LineHasNoNewline(lines[k]);
    }
    SplitJoin(texts, '\n');
  }

  /** The only step rows of the summary are those of the steps, in their places. */
  lemma StepRowsComeFromSteps(steps: seq<PlanStep>)
    ensures var lines := SummaryLines(steps);
      forall k :: 0 <= k < |lines| && lines[k].StepRow? ==> 2 <= k < |steps| + 2 && lines[k].step == steps[k - 2]
  {
    var lines := SummaryLines(steps);
    var rows, closing := Rows(steps), Closing(steps);
    assert forall j :: 0 <= j < |closing| ==> !closing[j].StepRow?;
    forall k | 0 <= k < |lines| && lines[k].StepRow?
      ensures 2 <= k < |steps| + 2 && lines[k].step == steps[k - 2]
    {
      if 2 <= k < |steps| + 2 {
        assert lines[k] == rows[k - 2];
      }
    }
  }

  // ------------------------------------------------------------ the manual test cases

  function Steps(statuses: seq<Status>): (r: seq<PlanStep>)
    ensures |r| == |statuses|
    ensures forall i :: 0 <= i < |r| ==> r[i].status == statuses[i]
  {
    var descriptions := ["Read project structure", "Create tool file", "Add tool to agent", "Test the tool"];
    seq(|statuses|, i requires 0 <= i < |statuses| => PlanStep(if i < 4 then descriptions[i] else "", statuses[i]))
  }

  /** The three plans the script accepts, and the two it expects to be refused with the in-progress count. */
  lemma ManualCases()
    ensures Validate(Steps([Completed, InProgress, Pending, Pending])).Ok?
    ensures Validate(Steps([Completed, Completed, InProgress, Pending])).Ok?
    ensures Validate(Steps([Completed, Completed, Completed, Completed])).Ok?
    ensures Validate(Steps([Completed, Pending, Pending])) == Err(WrongInProgressCount(0))
    ensures Validate(Steps([InProgress, InProgress, Pending])) == Err(WrongInProgressCount(2))
  {
    AcceptedCases();
    RefusedCases();
  }

  lemma AcceptedCases()
    ensures Validate(Steps([Completed, InProgress, Pending, Pending])).Ok?
    ensures Validate(Steps([Completed, Completed, InProgress, Pending])).Ok?
    ensures Validate(Steps([Completed, Completed, Completed, Completed])).Ok?
  {
    AcceptedFirst();
    AcceptedSecond();
    AcceptedThird();
  }

  lemma AcceptedFirst()
    ensures Validate(Steps([Completed, InProgress, Pending, Pending])).Ok?
  {
    var s1 := Steps([Completed, InProgress, Pending, Pending]);
    assert s1[1..][1..][1..][1..] == [];
    assert Count(s1, InProgress) == 1;
  }

  lemma AcceptedSecond()
    ensures Validate(Steps([Completed, Completed, InProgress, Pending])).Ok?
  {
    var s2 := Steps([Completed, Completed, InProgress, Pending]);
    assert s2[1..][1..][1..][1..] == [];
    assert Count(s2, InProgress) == 1;
  }

  lemma AcceptedThird()
    ensures Validate(Steps([Completed, Completed, Completed, Completed])).Ok?
  {
    var s3 := Steps([Completed, Completed, Completed, Completed]);
    assert s3[1..][1..][1..][1..] == [];
    assert Count(s3, Completed) == 4;
  }

  lemma RefusedCases()
    ensures Validate(Steps([Completed, Pending, Pending])) == Err(WrongInProgressCount(0))
    ensures Validate(Steps([InProgress, InProgress, Pending])) == Err(WrongInProgressCount(2))
  {
    var s4 := Steps([Completed, Pending, Pending]);
    assert s4[1..][1..][1..] == [];
    assert Count(s4, Completed) == 1 && Count(s4, InProgress) == 0;
    var s5 := Steps([InProgress, InProgress, Pending]);
    assert s5[1..][1..][1..] == [];
    assert Count(s5, Completed) == 0 && Count(s5, InProgress) == 2;
  }

  /** The last three lines for a plan of four steps. */
  lemma FourStepSummary(steps: seq<PlanStep>, closing: Line)
    requires |steps| == 4 && Closing(steps) == [closing]
    ensures SummaryLines(steps)[6..] == [Blank, ProgressRow(Count(steps, Completed), 4), closing]
  {
    var lines := SummaryLines(steps);
    assert lines[6..] == [lines[6], lines[7], lines[8]];
  }

  /** The closing lines the script prints for its three accepted plans. */
  lemma ManualSummaries()
    ensures SummaryLines(Steps([Completed, InProgress, Pending, Pending]))[6..] == [Blank, ProgressRow(1, 4), Working(2)]
    ensures SummaryLines(Steps([Completed, Completed, InProgress, Pending]))[6..] == [Blank, ProgressRow(2, 4), Working(3)]
    ensures SummaryLines(Steps([Completed, Completed, Completed, Completed]))[6..] == [Blank, ProgressRow(4, 4), Done]
  {
    ManualFirst();
    ManualSecond();
    ManualThird();
  }

  lemma ManualFirst()
    ensures SummaryLines(Steps([Completed, InProgress, Pending, Pending]))[6..] == [Blank, ProgressRow(1, 4), Working(2)]
  {
    var s := Steps([Completed, InProgress, Pending, Pending]);
    assert s[1..][1..][1..][1..] == [];
    assert s[1..][0].status == InProgress;
    assert FirstInProgress(s[1..]) == Some(1);
    assert FirstInProgress(s) == Some(2);
    assert Count(s[1..][1..], Completed) == 0;
    assert Count(s, Completed) == 1;
    FourStepSummary(s, Working(2));
  }

  lemma ManualSecond()
    ensures SummaryLines(Steps([Completed, Completed, InProgress, Pending]))[6..] == [Blank, ProgressRow(2, 4), Working(3)]
  {
    var s := Steps([Completed, Completed, InProgress, Pending]);
    assert s[1..][1..][1..][1..] == [];
    assert s[1..][1..][0].status == InProgress;
    assert FirstInProgress(s[1..][1..]) == Some(1);
    assert FirstInProgress(s[1..]) == Some(2);
    assert FirstInProgress(s) == Some(3);
    assert Count(s[1..][1..], Completed) == 0;
    assert Count(s, Completed) == 2;
    FourStepSummary(s, Working(3));
  }

  lemma ManualThird()
    ensures SummaryLines(Steps([Completed, Completed, Completed, Completed]))[6..] == [Blank, ProgressRow(4, 4), Done]
  {
    var s := Steps([Completed, Completed, Completed, Completed]);
    assert s[1..][1..][1..][1..] == [];
    FourStepSummary(s, Done);
  }
}
