/**
 * `IntervalTransformer`, current revision: the task is ranked by the
 * interval's billable tags, an interval whose project has no active task
 * is skipped (`None`), and a no-bill tag marks the activity not billable.
 */
module Transformer {
  import opened Wrappers
  import opened Failures
  import opened Search
  import opened TimewarriorParser
  import opened Activity
  import Timestamp

  /** Whether a tag names work to search tasks by: neither the `work`
      context nor a no-bill tag. */
  predicate IsTaskTerm(tag: string) {
    tag != "work" && !IsNoBill(tag)
  }

  /** The tags that are task terms, in order. */
  function TaskTerms(tags: seq<string>): (r: seq<string>)
    ensures forall i :: 0 <= i < |r| ==> IsTaskTerm(r[i]) && r[i] in tags
    ensures forall i :: 0 <= i < |tags| && IsTaskTerm(tags[i]) ==> tags[i] in r
    decreases |tags|
  {
    if |tags| == 0 then []
    else
      var rest := TaskTerms(tags[1..]);
      assert forall i :: 1 <= i < |tags| ==> tags[i] == tags[1..][i - 1];
      if IsTaskTerm(tags[0]) then [tags[0]] + rest else rest
  }

  /** The filter distributes over concatenation, so the task terms keep
      their order and their repetitions. */
  lemma {:induction false} TaskTermsAppend(a: seq<string>, b: seq<string>)
    ensures TaskTerms(a + b) == TaskTerms(a) + TaskTerms(b)
    decreases |a|
  {
    if |a| > 0 {
      assert (a + b)[0] == a[0];
      assert (a + b)[1..] == a[1..] + b;
      TaskTermsAppend(a[1..], b);
    } else {
      assert a + b == b;
    }
  }

  /** A single tag survives exactly when it is a task term. */
  lemma TaskTermsSingle(tag: string)
    ensures TaskTerms([tag]) == if IsTaskTerm(tag) then [tag] else []
  {
  }

  /** The search terms of `findTask`: never empty, never `work` or a no-bill
      tag, and the default exactly when no tag qualifies. */
  function SearchTerms(tags: seq<string>): (r: seq<string>)
    ensures |r| > 0
    ensures forall i :: 0 <= i < |r| ==> r[i] != "work" && !IsNoBill(r[i])
    ensures (forall i :: 0 <= i < |tags| ==> !IsTaskTerm(tags[i])) ==> r == [DefaultTerm]
    ensures (exists i :: 0 <= i < |tags| && IsTaskTerm(tags[i])) ==> r == TaskTerms(tags)
  {
    var terms := TaskTerms(tags);
    if |terms| == 0 then [DefaultTerm]
    else
      assert terms[0] in tags;
      terms
  }

  /** `findTask`: nothing when no task is active, otherwise the head of the
      ranking of the active tasks by name, with no threshold. */
  function FindTask(tags: seq<string>, tasks: seq<Task>, sim: Similarity): (r: Option<Task>)
    ensures r.None? <==> forall i :: 0 <= i < |tasks| ==> !tasks[i].active
    ensures r.Some? ==> r.value in tasks && r.value.active
  {
    var active := ActiveTasks(tasks);
    if |active| == 0 then None
    else
      var ranked := FuzzyRank(active, SearchTerms(tags), ["name"], TaskName, sim).value;
      RankIsPermutation(active, SearchTerms(tags), ["name"], TaskName, sim);
      assert Things(ranked)[0] in multiset(active);
      Some(ranked[0].thing)
  }

  /** The task found is the first active task with the highest rating. */
  lemma FindTaskIsBest(tags: seq<string>, tasks: seq<Task>, sim: Similarity) returns (i: nat)
    requires FindTask(tags, tasks, sim).Some?
    ensures IsFirstMax(Rate(ActiveTasks(tasks), SearchTerms(tags), ["name"], TaskName, sim), i)
    ensures FindTask(tags, tasks, sim).value == ActiveTasks(tasks)[i]
  {
    i := RankHead(ActiveTasks(tasks), SearchTerms(tags), ["name"], TaskName, sim);
  }

  /** `buildCreateMocoActivity`: the date is computed before the duration. */
  function BuildDraft(project: Project, task: Task, iv: Interval): (r: Result<Draft, Error>)
    ensures r.Success? <==> ActivityDate(iv.start).Success? && CalculateSeconds(iv.start, iv.end).Success?
    ensures ActivityDate(iv.start).Failure? ==> r == Failure(InvalidTimeValue)
    ensures ActivityDate(iv.start).Success? && CalculateSeconds(iv.start, iv.end).Failure? ==>
      r == Failure(CalculateSeconds(iv.start, iv.end).error)
    ensures r.Success? ==>
      r.value == Draft(project.id, task.id, ActivityDate(iv.start).value,
                       CalculateSeconds(iv.start, iv.end).value, iv.description, Billable(iv.tags))
  {
    var date :- ActivityDate(iv.start);
    var seconds :- CalculateSeconds(iv.start, iv.end);
    Success(Draft(project.id, task.id, date, seconds, iv.description, Billable(iv.tags)))
  }

  /** `toActivity`: validate, find the project, find the task (none means
      the interval is skipped), then build the draft. A failure of the
      first two steps is the result, the result is "skipped" exactly when
      both pass and no task is found, and with a task found the result is
      the draft built from the project and that task, or its failure. */
  function ToActivity(iv: Interval, catalog: seq<Project>, pick: Picker<Project>, sim: Similarity)
    : (r: Result<Option<Draft>, Error>)
    ensures ValidateInterval(iv).Failure? ==> r == Failure(ValidateInterval(iv).error)
    ensures ValidateInterval(iv).Success? && FindProject(catalog, iv.project, FuzzyThreshold, pick).Failure? ==>
      r == Failure(FindProject(catalog, iv.project, FuzzyThreshold, pick).error)
    ensures r == Success(None) <==>
      && ValidateInterval(iv).Success?
      && FindProject(catalog, iv.project, FuzzyThreshold, pick).Success?
      && FindTask(iv.tags, FindProject(catalog, iv.project, FuzzyThreshold, pick).value.tasks, sim).None?
    ensures ValidateInterval(iv).Success? && FindProject(catalog, iv.project, FuzzyThreshold, pick).Success? ==>
      var project := FindProject(catalog, iv.project, FuzzyThreshold, pick).value;
      FindTask(iv.tags, project.tasks, sim).Some? ==>
        var b := BuildDraft(project, FindTask(iv.tags, project.tasks, sim).value, iv);
        r == if b.Success? then Success(Some(b.value)) else Failure(b.error)
  {
    var _ :- ValidateInterval(iv);
    var project :- FindProject(catalog, iv.project, FuzzyThreshold, pick);
    match FindTask(iv.tags, project.tasks, sim)
    case None => Success(None)
    case Some(task) =>
      var draft :- BuildDraft(project, task, iv);
      Success(Some(draft))
  }

  /** The interval is skipped exactly when it is valid, its project is
      found, and that project has no active task. */
  lemma SkippedIff(iv: Interval, catalog: seq<Project>, pick: Picker<Project>, sim: Similarity)
    ensures ToActivity(iv, catalog, pick, sim) == Success(None) <==>
      && ValidateInterval(iv).Success?
      && FindProject(catalog, iv.project, FuzzyThreshold, pick).Success?
      && forall t :: t in FindProject(catalog, iv.project, FuzzyThreshold, pick).value.tasks ==> !t.active
  {
    if ValidateInterval(iv).Success? && FindProject(catalog, iv.project, FuzzyThreshold, pick).Success? {
      var tasks := FindProject(catalog, iv.project, FuzzyThreshold, pick).value.tasks;
      assert FindTask(iv.tags, tasks, sim).None? <==> forall i :: 0 <= i < |tasks| ==> !tasks[i].active;
      assert (forall t :: t in tasks ==> !t.active) <==> (forall i :: 0 <= i < |tasks| ==> !tasks[i].active);
    }
  }

  /** A produced activity: the found project, one of its active tasks, the
      start date, a non-negative duration, the description, and `billable`
      set to false exactly when a no-bill tag is present. */
  lemma ActivityFields(iv: Interval, catalog: seq<Project>, pick: Picker<Project>, sim: Similarity)
    requires DrawsFrom(pick)
    requires ToActivity(iv, catalog, pick, sim).Success? && ToActivity(iv, catalog, pick, sim).value.Some?
    ensures var d := ToActivity(iv, catalog, pick, sim).value.value;
      && var project := FindProject(catalog, iv.project, FuzzyThreshold, pick).value;
      && project in catalog
      && d.projectId == project.id
      && (exists t :: t in project.tasks && t.active && t.id == d.taskId)
      && d.taskId == FindTask(iv.tags, project.tasks, sim).value.id
      && d.date == iv.start[..4] + "-" + iv.start[4..6] + "-" + iv.start[6..8]
      && d.seconds == CalculateSeconds(iv.start, iv.end).value
      && d.seconds >= 0
      && d.description == iv.description
      && (d.billable == Some(false) <==> exists i :: 0 <= i < |iv.tags| && IsNoBill(iv.tags[i]))
      && (d.billable.None? <==> forall i :: 0 <= i < |iv.tags| ==> !IsNoBill(iv.tags[i]))
  {
    var project := FindProject(catalog, iv.project, FuzzyThreshold, pick).value;
    FoundProjectInCatalog(catalog, iv.project, FuzzyThreshold, pick);
    var task := FindTask(iv.tags, project.tasks, sim).value;
    assert task in project.tasks && task.active;
    var draft := BuildDraft(project, task, iv);
    assert ToActivity(iv, catalog, pick, sim) == Success(Some(draft.value));
  }

  // ---------------------------------------------------------------------
  // The worked example: half an hour on "acme app" with no tags

  const AcmeTask := Task(3281058, "Software Engineering", true)
  const Acme := Project(944934716, "Acme App", [AcmeTask])
  const AcmeInterval := Interval(6, "20250228T063000Z", "20250228T070000Z", "acme app", "Get all tests running again!", [])

  /** A search that returns every candidate. */
  const PickAll: Picker<Project> := (ps: seq<Project>, term: string, attrs: seq<string>, threshold: real) => ps

  lemma AcmeLookup(sim: Similarity)
    ensures ValidateInterval(AcmeInterval) == Success(AcmeInterval)
    ensures FindProject([Acme], "acme app", FuzzyThreshold, PickAll) == Success(Acme)
    ensures FindTask([], [AcmeTask], sim) == Some(AcmeTask)
  {
    assert FuzzyFind([Acme], "acme app", ["name"], FuzzyThreshold, PickAll) == Some(Acme);
  }

  lemma AcmeDraft()
    ensures BuildDraft(Acme, AcmeTask, AcmeInterval)
      == Success(Draft(944934716, 3281058, "2025-02-28", 1800, "Get all tests running again!", None))
  {
    HalfHour();
    AcmeDate();
    assert Billable([]) == None;
  }

  lemma AcmeDate()
    ensures ActivityDate("20250228T063000Z") == Success("2025-02-28")
  {
    var start := "20250228T063000Z";
    ReadHalfHourStart();
    assert start[..4] + "-" + start[4..6] + "-" + start[6..8] == "2025-02-28" by {
      assert start[..4] == "2025" && start[4..6] == "02" && start[6..8] == "28";
    }
  }

  /** The default search term selects the project's only active task; the
      activity is dated by the start and carries no billable field. */
  lemma AcmeExample(sim: Similarity)
    ensures ToActivity(AcmeInterval, [Acme], PickAll, sim)
      == Success(Some(Draft(944934716, 3281058, "2025-02-28", 1800, "Get all tests running again!", None)))
  {
    AcmeLookup(sim);
    AcmeDraft();
  }
}
