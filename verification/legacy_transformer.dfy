/**
 * `IntervalTransformer`, earlier revision: the fuzzy threshold is an
 * option, the task is searched by the first no-bill tag, an interval whose
 * task cannot be found falls back to the project's first task, and no
 * activity is ever skipped or marked not billable.
 */
module LegacyTransformer {
  import opened Wrappers
  import opened Failures
  import opened Search
  import opened TimewarriorParser
  import opened Activity

  const DefaultThreshold: real := 0.8

  /** `if (options?.fuzzyThreshold)`: an absent option and the falsy 0 both
      keep the default, so the threshold in effect is never 0. */
  function Threshold(option: Option<real>): (t: real)
    ensures t != 0.0
    ensures t == DefaultThreshold <==> option.None? || option.value == 0.0 || option.value == DefaultThreshold
    ensures option.Some? && option.value != 0.0 ==> t == option.value
  {
    match option
    case Some(v) => if v != 0.0 then v else DefaultThreshold
    case None => DefaultThreshold
  }

  /** The tags that survive both filters: not `work`, and a no-bill tag. */
  function NoBillTerms(tags: seq<string>): (r: seq<string>)
    ensures forall i :: 0 <= i < |r| ==> IsNoBill(r[i]) && r[i] in tags
    ensures forall i :: 0 <= i < |tags| && IsNoBill(tags[i]) ==> tags[i] in r
    decreases |tags|
  {
    if |tags| == 0 then []
    else
      var rest := NoBillTerms(tags[1..]);
      assert forall i :: 1 <= i < |tags| ==> tags[i] == tags[1..][i - 1];
      if tags[0] != "work" && IsNoBill(tags[0]) then [tags[0]] + rest else rest
  }

  /** The filters commute with concatenation. */
  lemma {:induction false} NoBillTermsAppend(a: seq<string>, b: seq<string>)
    ensures NoBillTerms(a + b) == NoBillTerms(a) + NoBillTerms(b)
    decreases |a|
  {
    if |a| > 0 {
      assert (a + b)[0] == a[0];
      assert (a + b)[1..] == a[1..] + b;
      NoBillTermsAppend(a[1..], b);
    } else {
      assert a + b == b;
    }
  }

  /** `nonBillableTags[0] ?? "software engineering"`. */
  function SearchTerm(tags: seq<string>): (term: string)
    ensures IsNoBill(term) || term == DefaultTerm
    ensures term == DefaultTerm <==> forall i :: 0 <= i < |tags| ==> !IsNoBill(tags[i])
    ensures term != DefaultTerm ==> term in tags
  {
    var terms := NoBillTerms(tags);
    if |terms| == 0 then DefaultTerm
    else
      assert terms[0] in tags;
      assert !IsNoBill(DefaultTerm);
      terms[0]
  }

  /** With a no-bill tag present, the search term is the first of them. */
  lemma {:induction false} FirstNoBillTag(tags: seq<string>) returns (i: nat)
    requires exists j :: 0 <= j < |tags| && IsNoBill(tags[j])
    ensures i < |tags| && tags[i] == SearchTerm(tags) && IsNoBill(tags[i])
    ensures forall j :: 0 <= j < i ==> !IsNoBill(tags[j])
    decreases |tags|
  {
    if IsNoBill(tags[0]) {
      assert tags[0] != "work";
      i := 0;
    } else {
      var j :| 0 <= j < |tags| && IsNoBill(tags[j]);
      assert tags[1..][j - 1] == tags[j];
      assert NoBillTerms(tags) == NoBillTerms(tags[1..]);
      var k := FirstNoBillTag(tags[1..]);
      i := k + 1;
      forall m | 0 <= m < i ensures !IsNoBill(tags[m]) {
        if m > 0 {
          assert tags[m] == tags[1..][m - 1];
        }
      }
    }
  }

  /** Tags that are not no-bill tags, wherever they stand, do not change
      the search term. */
  lemma IgnoresBillableTags(a: seq<string>, t: string, b: seq<string>)
    requires !IsNoBill(t)
    ensures SearchTerm(a + [t] + b) == SearchTerm(a + b)
  {
    NoBillTermsAppend(a + [t], b);
    NoBillTermsAppend(a, [t]);
    NoBillTermsAppend(a, b);
    assert NoBillTerms([t]) == [] by {
      assert [t][1..] == [];
    }
  }

  /** `findTask`: nothing when no task is active, otherwise the first hit of
      the threshold search of the active tasks' names. */
  function FindTask(tags: seq<string>, tasks: seq<Task>, threshold: real, pick: Picker<Task>)
    : (r: Option<Task>)
    ensures (forall i :: 0 <= i < |tasks| ==> !tasks[i].active) ==> r.None?
    ensures r == FuzzyFind(ActiveTasks(tasks), SearchTerm(tags), ["name"], threshold, pick)
  {
    var active := ActiveTasks(tasks);
    if |active| == 0 then None
    else
      assert active[0] in tasks && active[0].active;
      FuzzyFind(active, SearchTerm(tags), ["name"], threshold, pick)
  }

  /** A task found is an active task of the project. */
  lemma FoundTaskIsActive(tags: seq<string>, tasks: seq<Task>, threshold: real, pick: Picker<Task>)
    requires DrawsFrom(pick)
    requires FindTask(tags, tasks, threshold, pick).Some?
    ensures FindTask(tags, tasks, threshold, pick).value in tasks
    ensures FindTask(tags, tasks, threshold, pick).value.active
  {
    FindIsCandidate(ActiveTasks(tasks), SearchTerm(tags), ["name"], threshold, pick);
  }

  /** `toActivity`: validate, find the project and the task, then build the
      activity. Nothing is skipped: the result fails exactly when a step
      throws, the date is computed (and fails) before the duration, and
      `billable` is never set. */
  function ToActivity(
    iv: Interval, catalog: seq<Project>, option: Option<real>, pickProject: Picker<Project>, pickTask: Picker<Task>)
    : (r: Result<Draft, Error>)
    ensures ValidateInterval(iv).Failure? ==> r == Failure(ValidateInterval(iv).error)
    ensures ValidateInterval(iv).Success? && FindProject(catalog, iv.project, Threshold(option), pickProject).Failure? ==>
      r == Failure(FindProject(catalog, iv.project, Threshold(option), pickProject).error)
    ensures r.Success? <==>
      && ValidateInterval(iv).Success?
      && FindProject(catalog, iv.project, Threshold(option), pickProject).Success?
      && ActivityDate(iv.start).Success?
      && CalculateSeconds(iv.start, iv.end).Success?
    ensures ValidateInterval(iv).Success? && FindProject(catalog, iv.project, Threshold(option), pickProject).Success? ==>
      && (ActivityDate(iv.start).Failure? ==> r == Failure(InvalidTimeValue))
      && (ActivityDate(iv.start).Success? && CalculateSeconds(iv.start, iv.end).Failure? ==>
            r == Failure(CalculateSeconds(iv.start, iv.end).error))
    ensures r.Success? ==> r.value.billable.None?
  {
    var threshold := Threshold(option);
    var _ :- ValidateInterval(iv);
    var project :- FindProject(catalog, iv.project, threshold, pickProject);
    var taskId := match FindTask(iv.tags, project.tasks, threshold, pickTask)
      case Some(task) => task.id
      case None => project.tasks[0].id;
    var date :- ActivityDate(iv.start);
    var seconds :- CalculateSeconds(iv.start, iv.end);
    Success(Draft(project.id, taskId, date, seconds, iv.description, None))
  }

  /** A produced activity: the found project from the catalogue, the task
      found or else the project's first task, the start date, a
      non-negative duration and the description. */
  lemma ActivityFields(
    iv: Interval, catalog: seq<Project>, option: Option<real>, pickProject: Picker<Project>, pickTask: Picker<Task>)
    requires DrawsFrom(pickProject) && DrawsFrom(pickTask)
    requires ToActivity(iv, catalog, option, pickProject, pickTask).Success?
    ensures var d := ToActivity(iv, catalog, option, pickProject, pickTask).value;
      && var project := FindProject(catalog, iv.project, Threshold(option), pickProject).value;
      && project in catalog
      && d.projectId == project.id
      && (exists t :: t in project.tasks && t.id == d.taskId)
      && (FindTask(iv.tags, project.tasks, Threshold(option), pickTask).None? ==> d.taskId == project.tasks[0].id)
      && (FindTask(iv.tags, project.tasks, Threshold(option), pickTask).Some? ==>
            d.taskId == FindTask(iv.tags, project.tasks, Threshold(option), pickTask).value.id)
      && d.date == iv.start[..4] + "-" + iv.start[4..6] + "-" + iv.start[6..8]
      && d.seconds == CalculateSeconds(iv.start, iv.end).value
      && d.seconds >= 0
      && d.description == iv.description
  {
    var threshold := Threshold(option);
    var project := FindProject(catalog, iv.project, threshold, pickProject).value;
    FoundProjectInCatalog(catalog, iv.project, threshold, pickProject);
    match FindTask(iv.tags, project.tasks, threshold, pickTask)
    case Some(task) =>
      FoundTaskIsActive(iv.tags, project.tasks, threshold, pickTask);
    case None =>
      assert project.tasks[0] in project.tasks;
  }

  /** The fields that come straight from the interval and its lookups: the
      found project's id, the task found or else the project's first task,
      the start date, the exact duration and the description. */
  lemma DraftFields(
    iv: Interval, catalog: seq<Project>, option: Option<real>, pickProject: Picker<Project>, pickTask: Picker<Task>)
    requires ToActivity(iv, catalog, option, pickProject, pickTask).Success?
    ensures var d := ToActivity(iv, catalog, option, pickProject, pickTask).value;
      && var project := FindProject(catalog, iv.project, Threshold(option), pickProject).value;
      && d.projectId == project.id
      && (FindTask(iv.tags, project.tasks, Threshold(option), pickTask).None? ==> d.taskId == project.tasks[0].id)
      && (FindTask(iv.tags, project.tasks, Threshold(option), pickTask).Some? ==>
            d.taskId == FindTask(iv.tags, project.tasks, Threshold(option), pickTask).value.id)
      && d.date == iv.start[..4] + "-" + iv.start[4..6] + "-" + iv.start[6..8]
      && d.seconds == CalculateSeconds(iv.start, iv.end).value
      && d.description == iv.description
  {
  }

  /** A project without active tasks still yields an activity, booked on
      its first task. */
  lemma InactiveFallsBack(
    iv: Interval, catalog: seq<Project>, option: Option<real>, pickProject: Picker<Project>, pickTask: Picker<Task>)
    requires ToActivity(iv, catalog, option, pickProject, pickTask).Success?
    requires forall t :: t in FindProject(catalog, iv.project, Threshold(option), pickProject).value.tasks ==> !t.active
    ensures ToActivity(iv, catalog, option, pickProject, pickTask).value.taskId
      == FindProject(catalog, iv.project, Threshold(option), pickProject).value.tasks[0].id
  {
    var tasks := FindProject(catalog, iv.project, Threshold(option), pickProject).value.tasks;
    assert forall i :: 0 <= i < |tasks| ==> tasks[i] in tasks;
  }

  /** The two revisions search tasks by opposite tags: here the first
      no-bill tag, there every other tag. */
  lemma VacationTerm()
    ensures SearchTerm(["work", "acme", "vacation"]) == "vacation"
    ensures SearchTerm(["work", "acme"]) == DefaultTerm
  {
    var tags := ["work", "acme", "vacation"];
    assert IsNoBill(tags[2]);
    var i := FirstNoBillTag(tags);
    assert !IsNoBill("acme");
    assert i == 2;
    var tags2 := ["work", "acme"];
    assert !IsNoBill(tags2[0]) && !IsNoBill(tags2[1]);
  }
}
