/**
 * The parts both revisions of `IntervalTransformer` share: the Moco
 * catalogue, the activity draft, interval validation, the project lookup,
 * the activity date, the duration and the no-bill tags.
 */
module Activity {
  import opened Wrappers
  import opened Failures
  import opened Timestamp
  import opened Search
  import opened TimewarriorParser

  /** A Moco task: only the fields the transformer reads. */
  datatype Task = Task(id: int, name: string, active: bool)

  /** A Moco project and its tasks. */
  datatype Project = Project(id: int, name: string, tasks: seq<Task>)

  /** `CreateMocoActivity`; `billable` is absent (`None`) unless set. */
  datatype Draft = Draft(
    projectId: int, taskId: int, date: string, seconds: int, description: string, billable: Option<bool>)

  /** `NO_BILL_TAGS`, spelled as in the source (including "non-billabe"). */
  const NoBillTags: seq<string> := [
    "vacation", "holiday", "sick", "illness", "ill", "non-billabe", "nobi", "nobill",
    "no-bill", "unbillable", "unbill", "un-bill", "nonbillable", "nonbill", "non-bill",
    "non-billable"]

  predicate IsNoBill(tag: string) {
    tag in NoBillTags
  }

  /** The task search term when no tag supplies one. */
  const DefaultTerm: string := "software engineering"

  /** The search key is `name` for projects and tasks alike. */
  const ProjectName: Field<Project> := (p: Project, key: string) => p.name
  const TaskName: Field<Task> := (t: Task, key: string) => t.name

  /** `validateInterval`: start and end must be non-empty, then the project name. */
  function ValidateInterval(iv: Interval): (r: Result<Interval, Error>)
    ensures r.Success? <==> iv.start != "" && iv.end != "" && iv.project != ""
    ensures r.Success? ==> r.value == iv
    ensures (iv.start == "" || iv.end == "") ==> r == Failure(MissingDates)
    ensures iv.start != "" && iv.end != "" && iv.project == "" ==> r == Failure(MissingProjectName)
  {
    if iv.start == "" || iv.end == "" then Failure(MissingDates)
    else if iv.project == "" then Failure(MissingProjectName)
    else Success(iv)
  }

  /** `findProject`: the first hit of the name search, which must exist and have tasks. */
  function FindProject(catalog: seq<Project>, term: string, threshold: real, pick: Picker<Project>)
    : (r: Result<Project, Error>)
    ensures r.Success? <==>
      FuzzyFind(catalog, term, ["name"], threshold, pick).Some?
      && |FuzzyFind(catalog, term, ["name"], threshold, pick).value.tasks| > 0
    ensures r.Success? ==> r.value == FuzzyFind(catalog, term, ["name"], threshold, pick).value
    ensures FuzzyFind(catalog, term, ["name"], threshold, pick).None? ==> r == Failure(ProjectNotFound(term))
    ensures |catalog| == 0 ==> r == Failure(ProjectNotFound(term))
    ensures (FuzzyFind(catalog, term, ["name"], threshold, pick).Some?
             && |FuzzyFind(catalog, term, ["name"], threshold, pick).value.tasks| == 0)
      ==> r == Failure(ProjectHasNoTasks(FuzzyFind(catalog, term, ["name"], threshold, pick).value.id))
  {
    match FuzzyFind(catalog, term, ["name"], threshold, pick)
    case None => Failure(ProjectNotFound(term))
    case Some(p) => if |p.tasks| == 0 then Failure(ProjectHasNoTasks(p.id)) else Success(p)
  }

  /** A found project comes from the catalogue. */
  lemma FoundProjectInCatalog(catalog: seq<Project>, term: string, threshold: real, pick: Picker<Project>)
    requires DrawsFrom(pick)
    requires FindProject(catalog, term, threshold, pick).Success?
    ensures FindProject(catalog, term, threshold, pick).value in catalog
    ensures |FindProject(catalog, term, threshold, pick).value.tasks| > 0
  {
    FindIsCandidate(catalog, term, ["name"], threshold, pick);
  }

  /** `tasks.filter(task => task.active)`: the active tasks, in order. */
  function ActiveTasks(tasks: seq<Task>): (r: seq<Task>)
    ensures forall i :: 0 <= i < |r| ==> r[i].active && r[i] in tasks
    ensures forall i :: 0 <= i < |tasks| && tasks[i].active ==> tasks[i] in r
    decreases |tasks|
  {
    if |tasks| == 0 then []
    else
      var rest := ActiveTasks(tasks[1..]);
      assert forall i :: 1 <= i < |tasks| ==> tasks[i] == tasks[1..][i - 1];
      if tasks[0].active then [tasks[0]] + rest else rest
  }

  /** The filter distributes over concatenation, so the active tasks keep
      their order and their repetitions. */
  lemma {:induction false} ActiveTasksAppend(a: seq<Task>, b: seq<Task>)
    ensures ActiveTasks(a + b) == ActiveTasks(a) + ActiveTasks(b)
    decreases |a|
  {
    if |a| > 0 {
      assert (a + b)[0] == a[0];
      assert (a + b)[1..] == a[1..] + b;
      ActiveTasksAppend(a[1..], b);
    } else {
      assert a + b == b;
    }
  }

  /** A single task survives exactly when it is active. */
  lemma ActiveTasksSingle(t: Task)
    ensures ActiveTasks([t]) == if t.active then [t] else []
  {
  }

  /** `new Date(formatISOString(start)).toISOString().split('T')[0]`:
      `toISOString` throws on an invalid date. */
  function ActivityDate(start: string): (r: Result<string, Error>)
    ensures r.Success? <==> ParseCompact(start).Some?
    ensures r.Failure? ==> r.error == InvalidTimeValue
    ensures r.Success? ==> r.value == FormatIso(start)[..10]
    ensures r.Success? ==> r.value == start[..4] + "-" + start[4..6] + "-" + start[6..8]
  {
    ParseThroughFormat(start);
    match ParseIso(FormatIso(start))
    case None => Failure(InvalidTimeValue)
    case Some(c) =>
      var iso := FormatIso(start);
      DateStringOfParse(iso);
      assert iso[..10] == iso[..4] + "-" + iso[5..7] + "-" + iso[8..10];
      Success(DateString(c))
  }

  /** `calculateSeconds`: both timestamps must parse and the end must not
      precede the start; the result is the difference in seconds. */
  function CalculateSeconds(start: string, end: string): (r: Result<int, Error>)
    ensures r.Success? <==>
      ParseCompact(start).Some? && ParseCompact(end).Some?
      && !Before(ParseCompact(end).value, ParseCompact(start).value)
    ensures r.Success? ==> r.value >= 0
    ensures r.Success? ==> (r.value == 0 <==> ParseCompact(start) == ParseCompact(end))
    ensures ParseCompact(start).None? || ParseCompact(end).None? ==> r == Failure(InvalidDateFormat)
    ensures (ParseCompact(start).Some? && ParseCompact(end).Some?
             && Before(ParseCompact(end).value, ParseCompact(start).value))
      ==> r == Failure(EndBeforeStart)
  {
    ParseThroughFormat(start);
    ParseThroughFormat(end);
    match (ParseIso(FormatIso(start)), ParseIso(FormatIso(end)))
    case (Some(s), Some(e)) =>
      InstantOrder(e, s);
      if EpochSeconds(e) < EpochSeconds(s) then Failure(EndBeforeStart)
      else Success(EpochSeconds(e) - EpochSeconds(s))
    case _ => Failure(InvalidDateFormat)
  }

  /** The duration is exactly the gap between the two instants. */
  lemma SecondsAreGap(start: string, end: string)
    requires CalculateSeconds(start, end).Success?
    ensures EpochSeconds(ParseCompact(start).value) + CalculateSeconds(start, end).value
      == EpochSeconds(ParseCompact(end).value)
  {
    ParseThroughFormat(start);
    ParseThroughFormat(end);
  }

  /** Half an hour on the same morning. */
  lemma HalfHour()
    ensures CalculateSeconds("20250228T063000Z", "20250228T070000Z") == Success(1800)
  {
    var a := Civil(2025, 2, 28, 6, 30, 0);
    var b := Civil(2025, 2, 28, 7, 0, 0);
    ReadHalfHourStart();
    ReadHalfHourEnd();
    assert DayNumber(a) == DayNumber(b);
    assert EpochSeconds(b) - EpochSeconds(a) == 1800;
  }

  /** The two timestamps of the half hour, read field by field. */
  lemma ReadHalfHourStart()
    ensures ParseCompact("20250228T063000Z") == Some(Civil(2025, 2, 28, 6, 30, 0))
  {
    var s := "20250228T063000Z";
    assert s[..8] == "20250228" && s[9..15] == "063000";
    assert s[..4] == "2025" && s[4..6] == "02" && s[6..8] == "28";
    assert s[9..11] == "06" && s[11..13] == "30" && s[13..15] == "00";
    ReadCompact(s, Civil(2025, 2, 28, 6, 30, 0));
  }

  lemma ReadHalfHourEnd()
    ensures ParseCompact("20250228T070000Z") == Some(Civil(2025, 2, 28, 7, 0, 0))
  {
    var s := "20250228T070000Z";
    assert s[..8] == "20250228" && s[9..15] == "070000";
    assert s[..4] == "2025" && s[4..6] == "02" && s[6..8] == "28";
    assert s[9..11] == "07" && s[11..13] == "00" && s[13..15] == "00";
    ReadCompact(s, Civil(2025, 2, 28, 7, 0, 0));
  }

  /** Reading a compact timestamp whose digit groups spell out `c`. */
  lemma ReadCompact(s: string, c: Civil)
    requires |s| == 16 && ValidCivil(c)
    requires AllDigits(s[..8]) && AllDigits(s[9..15])
    requires FourDigitValue(s[..4]) == c.year && TwoDigitValue(s[4..6]) == c.month
    requires TwoDigitValue(s[6..8]) == c.day && TwoDigitValue(s[9..11]) == c.hour
    requires TwoDigitValue(s[11..13]) == c.minute && TwoDigitValue(s[13..15]) == c.second
    ensures ParseCompact(s) == Some(c)
  {
    assert forall i :: 0 <= i < 4 ==> s[..4][i] == s[..8][i];
    assert forall i :: 0 <= i < 2 ==> s[4..6][i] == s[..8][i + 4];
    assert forall i :: 0 <= i < 2 ==> s[6..8][i] == s[..8][i + 6];
    assert forall i :: 0 <= i < 2 ==> s[9..11][i] == s[9..15][i];
    assert forall i :: 0 <= i < 2 ==> s[11..13][i] == s[9..15][i + 2];
    assert forall i :: 0 <= i < 2 ==> s[13..15][i] == s[9..15][i + 4];
    assert AllDigits(s[..4]) && AllDigits(s[4..6]) && AllDigits(s[6..8]);
    assert AllDigits(s[9..11]) && AllDigits(s[11..13]) && AllDigits(s[13..15]);
    FourDigits(s[..4]);
    TwoDigits(s[4..6]);
    TwoDigits(s[6..8]);
    TwoDigits(s[9..11]);
    TwoDigits(s[11..13]);
    TwoDigits(s[13..15]);
  }

  function DigitValue(c: char): int {
    c as int - '0' as int
  }

  function TwoDigitValue(s: string): int
    requires |s| == 2
  {
    DigitValue(s[0]) * 10 + DigitValue(s[1])
  }

  function FourDigitValue(s: string): int
    requires |s| == 4
  {
    DigitValue(s[0]) * 1000 + DigitValue(s[1]) * 100 + DigitValue(s[2]) * 10 + DigitValue(s[3])
  }

  lemma TwoDigits(s: string)
    requires |s| == 2 && AllDigits(s)
    ensures Number(s) == TwoDigitValue(s)
  {
    var p := s[..1];
    assert AllDigits(p) && p[..0] == [] && p[0] == s[0];
    assert Number(p) == DigitValue(s[0]);
  }

  lemma FourDigits(s: string)
    requires |s| == 4 && AllDigits(s)
    ensures Number(s) == FourDigitValue(s)
  {
    var p3, p2 := s[..3], s[..2];
    assert p3[..2] == p2;
    assert p3[2] == s[2];
    assert AllDigits(p2);
    TwoDigits(p2);
    assert p2[0] == s[0] && p2[1] == s[1];
  }

  /** Some tag is a no-bill tag. */
  function HasNoBillTag(tags: seq<string>): (b: bool)
    ensures b <==> exists i :: 0 <= i < |tags| && IsNoBill(tags[i])
    decreases |tags|
  {
    if |tags| == 0 then false
    else if IsNoBill(tags[0]) then true
    else
      var b := HasNoBillTag(tags[1..]);
      assert forall i :: 1 <= i < |tags| ==> tags[i] == tags[1..][i - 1];
      b
  }

  /** `billable` is `false` when some tag is a no-bill tag and absent otherwise. */
  function Billable(tags: seq<string>): (r: Option<bool>)
    ensures r.Some? <==> exists i :: 0 <= i < |tags| && IsNoBill(tags[i])
    ensures r.Some? ==> r.value == false
  {
    if HasNoBillTag(tags) then Some(false) else None
  }
}
