/**
 * `TimewarriorParser`: the export Timewarrior pipes to an extension is a
 * block of `key: value` configuration lines, one blank line, and a JSON
 * array of intervals. `Parse` splits the two sections, folds the config
 * lines into a nested map and turns each decoded interval into an
 * `Interval` whose first tag is split into project and description.
 */
module TimewarriorParser {
  import opened Wrappers
  import opened Text
  import opened Failures

  /** A config entry: a string, one of the two flags, or a nested object. */
  datatype ConfigValue = Leaf(text: string) | Flag(on: bool) | Table(entries: map<string, ConfigValue>)

  type Config = map<string, ConfigValue>

  /** One element of the JSON array, as `JSON.parse` produces it. */
  datatype RawInterval = RawInterval(id: int, start: string, end: string, tags: seq<string>)

  /** A parsed interval; `tags` no longer holds the project tag. */
  datatype Interval = Interval(
    id: int, start: string, end: string, project: string, description: string, tags: seq<string>)

  datatype Export = Export(config: Config, intervals: seq<Interval>)

  /** `JSON.parse` of the interval section; `None` is malformed JSON. */
  type JsonDecoder = string -> Option<seq<RawInterval>>

  const DefaultConfig: Config := map["debug" := Flag(false), "verbose" := Flag(false)]

  /** JavaScript truthiness of a config value. */
  predicate Truthy(v: ConfigValue) {
    match v
    case Leaf(t) => t != ""
    case Flag(b) => b
    case Table(_) => true
  }

  /** A truthy value that is not an object: `x || {}` keeps it, and
      assigning a property to it then throws in strict mode. */
  predicate Primitive(v: ConfigValue) {
    Truthy(v) && !v.Table?
  }

  /** The value stored at a dotted path, if every step is an object. */
  function GetPath(m: Config, path: seq<string>): Option<ConfigValue>
    requires |path| >= 1
    decreases |path|
  {
    if path[0] !in m then None
    else if |path| == 1 then Some(m[path[0]])
    else match m[path[0]]
      case Table(c) => GetPath(c, path[1..])
      case _ => None
  }

  /** The object `current[part] = current[part] || {}` walks into, given that it is not a primitive. */
  function Child(m: Config, part: string): Config {
    if part in m && m[part].Table? then m[part].entries else map[]
  }

  /** The walk of `parseConfig` for a dotted key (`temp.report.start`): missing
      or falsy steps become fresh objects, existing objects are kept, and
      the last step is assigned the value. */
  function SetPath(m: Config, path: seq<string>, value: string): (r: Result<Config, Error>)
    requires |path| >= 1
    ensures r.Success? ==> GetPath(r.value, path) == Some(Leaf(value))
    ensures r.Success? ==> r.value.Keys == m.Keys + {path[0]}
    ensures r.Success? ==> forall k :: k in m && k != path[0] ==> r.value[k] == m[k]
    decreases |path|
  {
    var part := path[0];
    if |path| == 1 then Success(m[part := Leaf(value)])
    else if part in m && Primitive(m[part]) then Failure(PropertyOnPrimitive(path[1]))
    else
      match SetPath(Child(m, part), path[1..], value)
      case Failure(e) => Failure(e)
      case Success(c) => Success(m[part := Table(c)])
  }

  /** Some proper prefix of `path` leads to a primitive. */
  ghost predicate Blocked(m: Config, path: seq<string>) {
    exists i :: 1 <= i < |path| && BlocksAt(m, path, i)
  }

  ghost predicate BlocksAt(m: Config, path: seq<string>, i: nat)
    requires 1 <= i <= |path|
  {
    GetPath(m, path[..i]).Some? && Primitive(GetPath(m, path[..i]).value)
  }

  lemma GetPathThroughChild(m: Config, path: seq<string>, i: nat)
    requires 2 <= i <= |path|
    requires !(path[0] in m && Primitive(m[path[0]]))
    ensures GetPath(m, path[..i]) == GetPath(Child(m, path[0]), path[1..][..i - 1])
  {
    assert path[..i][1..] == path[1..][..i - 1];
    if path[0] in m && m[path[0]].Table? {
    } else {
      var q := path[1..][..i - 1];
      assert GetPath(map[], q) == None;
    }
  }

  /** A dotted assignment throws exactly when the walk meets a string or `true`. */
  lemma {:induction false} SetPathFailsIff(m: Config, path: seq<string>, value: string)
    requires |path| >= 1
    ensures SetPath(m, path, value).Failure? <==> Blocked(m, path)
    decreases |path|
  {
    var part := path[0];
    if |path| == 1 {
    } else if part in m && Primitive(m[part]) {
      assert path[..1] == [part];
      assert BlocksAt(m, path, 1);
    } else {
      var child, tail := Child(m, part), path[1..];
      SetPathFailsIff(child, tail, value);
      assert path[..1] == [part];
      assert !BlocksAt(m, path, 1);
      forall i | 2 <= i < |path|
        ensures BlocksAt(m, path, i) == BlocksAt(child, tail, i - 1)
      {
        GetPathThroughChild(m, path, i);
      }
      if Blocked(m, path) {
        var i :| 1 <= i < |path| && BlocksAt(m, path, i);
        assert BlocksAt(child, tail, i - 1);
      }
      if Blocked(child, tail) {
        var i :| 1 <= i < |tail| && BlocksAt(child, tail, i);
        assert BlocksAt(m, path, i + 1);
      }
    }
  }

  /** Two paths that differ at some shared position. */
  ghost predicate Diverge(p: seq<string>, q: seq<string>) {
    exists i :: 0 <= i < |p| && i < |q| && p[i] != q[i]
  }

  /** A dotted assignment leaves every path that branches off it unchanged:
      existing sibling entries and objects survive. */
  lemma {:induction false} SetPathKeepsOthers(m: Config, path: seq<string>, q: seq<string>, value: string)
    requires |path| >= 1 && |q| >= 1 && Diverge(path, q)
    requires SetPath(m, path, value).Success?
    ensures GetPath(SetPath(m, path, value).value, q) == GetPath(m, q)
    decreases |path|
  {
    var m' := SetPath(m, path, value).value;
    if path[0] != q[0] {
      assert (q[0] in m') == (q[0] in m);
      if q[0] in m {
        assert m'[q[0]] == m[q[0]];
      }
    } else {
      var i :| 0 <= i < |path| && i < |q| && path[i] != q[i];
      assert i >= 1;
      var child := Child(m, path[0]);
      assert Diverge(path[1..], q[1..]) by {
        assert path[1..][i - 1] != q[1..][i - 1];
      }
      SetPathKeepsOthers(child, path[1..], q[1..], value);
      if !(path[0] in m && m[path[0]].Table?) {
        assert GetPath(map[], q[1..]) == None;
      }
    }
  }

  /** `parseConfig`'s handling of one line. */
  function ApplyLine(cfg: Config, line: string): (r: Result<Config, Error>)
    ensures Find(line, ": ").None? ==> r == Success(cfg)
    ensures r.Success? ==> cfg.Keys <= r.value.Keys
  {
    var kv := SplitFirst(line, ": ");
    var key, value := kv.0, kv.1;
    if key == "" || value == "" then Success(cfg)
    else if key == "debug" then Success(cfg["debug" := Flag(value == "1")])
    else if key == "verbose" then Success(cfg["verbose" := Flag(value == "1")])
    else SetPath(cfg, Split(key, "."), value)
  }

  /** A line with no `": "`, with nothing before its first `": "`, or with
      nothing after it, has an empty key or value and is skipped. */
  lemma SkippedLine(cfg: Config, line: string)
    requires || Find(line, ": ").None?
             || StartsWith(line, ": ")
             || (|line| >= 2 && Find(line, ": ") == Some(|line| - 2))
    ensures ApplyLine(cfg, line) == Success(cfg)
  {
    if StartsWith(line, ": ") {
      assert OccursAt(line, ": ", 0);
    }
  }

  function ApplyLines(cfg: Config, lines: seq<string>): Result<Config, Error>
    decreases |lines|
  {
    if |lines| == 0 then Success(cfg)
    else match ApplyLine(cfg, lines[0])
      case Failure(e) => Failure(e)
      case Success(c) => ApplyLines(c, lines[1..])
  }

  /** `parseConfig`: both flags start out false and every line is applied in order. */
  function ParseConfig(text: string): (r: Result<Config, Error>)
    ensures r.Success? ==> "debug" in r.value && "verbose" in r.value
  {
    var lines := Split(text, "\n");
    ApplyLinesKeepKeys(DefaultConfig, lines);
    var r := ApplyLines(DefaultConfig, lines);
    assert "debug" in DefaultConfig.Keys && "verbose" in DefaultConfig.Keys;
    assert r.Success? ==> DefaultConfig.Keys <= r.value.Keys;
    r
  }

  lemma {:induction false} ApplyLinesKeepKeys(cfg: Config, lines: seq<string>)
    ensures ApplyLines(cfg, lines).Success? ==> cfg.Keys <= ApplyLines(cfg, lines).value.Keys
    decreases |lines|
  {
    if |lines| > 0 {
      match ApplyLine(cfg, lines[0])
      case Failure(_) =>
      case Success(c) => ApplyLinesKeepKeys(c, lines[1..]);
    }
  }

  /** Only the first `": "` separates: the key is the text before it and the
      value everything after it, however many `": "` that contains. */
  lemma KeyValueSplit(key: string, value: string)
    requires !Contains(key, ": ")
    ensures SplitFirst(key + ": " + value, ": ") == (key, value)
  {
    var line := key + ": " + value;
    assert OccursAt(line, ": ", |key|) by {
      assert line[|key|..|key| + 2] == ": ";
    }
    var j := Find(line, ": ").value;
    if j < |key| {
      if j + 2 <= |key| {
        assert key[j..j + 2] == line[j..j + 2];
        assert OccursAt(key, ": ", j);
      } else {
        assert line[j + 1] == ':';
      }
    }
    assert line[..|key|] == key;
    assert line[|key| + 2..] == value;
  }

  /** Any other key is split on `.` and the value is assigned along that
      path, failing exactly when the assignment does. */
  lemma DottedLine(cfg: Config, key: string, value: string)
    requires !Contains(key, ": ")
    requires key != "" && key != "debug" && key != "verbose" && value != ""
    ensures ApplyLine(cfg, key + ": " + value) == SetPath(cfg, Split(key, "."), value)
  {
    KeyValueSplit(key, value);
  }

  /** A configuration of one line `a.b.c: v` (as `temp.report.start:
      20240228T000000Z`) stores `v` under `a`, `b`, `c` and keeps both
      flags false. */
  lemma NestedKeyConfig(a: string, b: string, c: string, value: string)
    requires a != "" && b != "" && c != "" && value != ""
    requires a != "debug" && a != "verbose"
    requires '.' !in a && '.' !in b && '.' !in c
    requires ':' !in a && ':' !in b && ':' !in c
    requires '\n' !in a && '\n' !in b && '\n' !in c && '\n' !in value
    ensures var r := ParseConfig(a + "." + b + "." + c + ": " + value);
      && r.Success?
      && GetPath(r.value, [a, b, c]) == Some(Leaf(value))
      && r.value["debug"] == Flag(false) && r.value["verbose"] == Flag(false)
  {
    var line := a + "." + b + "." + c + ": " + value;
    assert '\n' !in line;
    OneLineConfig(line);
    NestedKeyLine(a, b, c, value);
    ThreeStepPath(a, b, c, value);
  }

  /** The report start of a Timewarrior export. */
  lemma ReportStartConfig()
    ensures var r := ParseConfig("temp" + "." + "report" + "." + "start" + ": " + "20240228T000000Z");
      && r.Success?
      && GetPath(r.value, ["temp", "report", "start"]) == Some(Leaf("20240228T000000Z"))
  {
    NestedKeyConfig("temp", "report", "start", "20240228T000000Z");
  }

  /** The line `a.b.c: v` assigns `v` along the path `a`, `b`, `c`. */
  lemma NestedKeyLine(a: string, b: string, c: string, value: string)
    requires a != "" && value != ""
    requires '.' !in a && '.' !in b && '.' !in c
    requires ':' !in a && ':' !in b && ':' !in c
    ensures ApplyLine(DefaultConfig, a + "." + b + "." + c + ": " + value)
      == SetPath(DefaultConfig, [a, b, c], value)
  {
    var key := a + "." + b + "." + c;
    assert !Contains(key, ": ") by {
      assert key[..|key|] == key;
      NoFirstCharBefore(key, ": ", |key|);
    }
    assert key != "debug" && key != "verbose" by {
      assert key[|a|] == '.';
    }
    DottedLine(DefaultConfig, key, value);
    ThreePartKey(a, b, c);
  }

  /** Input without a line break is one configuration line. */
  lemma OneLineConfig(line: string)
    requires '\n' !in line
    ensures ParseConfig(line) == ApplyLine(DefaultConfig, line)
  {
    SplitNone(line, '\n');
    assert Split(line, "\n") == [line];
    assert [line][1..] == [];
    match ApplyLine(DefaultConfig, line)
    case Failure(_) =>
    case Success(c) => assert ApplyLines(c, []) == Success(c);
  }

  lemma ThreePartKey(a: string, b: string, c: string)
    requires '.' !in a && '.' !in b && '.' !in c
    ensures Split(a + "." + b + "." + c, ".") == [a, b, c]
  {
    var mid := b + ['.'] + c;
    assert a + "." + b + "." + c == a + ['.'] + mid;
    SplitNone(c, '.');
    SplitHead(b, '.', c);
    SplitHead(a, '.', mid);
  }

  /** A three-step path below a fresh top-level key is created from nothing. */
  lemma ThreeStepPath(a: string, b: string, c: string, value: string)
    requires a != "debug" && a != "verbose"
    ensures var r := SetPath(DefaultConfig, [a, b, c], value);
      && r.Success?
      && GetPath(r.value, [a, b, c]) == Some(Leaf(value))
      && r.value["debug"] == Flag(false) && r.value["verbose"] == Flag(false)
  {
    assert [b, c][1..] == [c];
    assert SetPath(map[], [b, c], value).Success?;
    assert a !in DefaultConfig;
    assert [a, b, c][1..] == [b, c];
  }

  /** A line `debug: v` with non-empty `v` sets the flag, true exactly when `v` is `"1"`. */
  lemma DebugLine(cfg: Config, value: string)
    requires value != ""
    ensures ApplyLine(cfg, "debug: " + value) == Success(cfg["debug" := Flag(value == "1")])
  {
    assert !Contains("debug", ": ") by {
      forall k: nat ensures !OccursAt("debug", ": ", k) {
        if k + 2 <= 5 {
          assert "debug"[k..k + 2][0] == "debug"[k] != ':';
        }
      }
    }
    KeyValueSplit("debug", value);
    assert "debug" + ": " + value == "debug: " + value;
  }

  /** The flag line for `name`: its key is exactly `name` and its value is non-empty. */
  predicate IsFlagLine(line: string, name: string) {
    SplitFirst(line, ": ").0 == name && SplitFirst(line, ": ").1 != ""
  }

  /** The flag as the last flag line for `name` leaves it (`dflt` when there is none). */
  function LastFlag(lines: seq<string>, name: string, dflt: bool): bool
    decreases |lines|
  {
    if |lines| == 0 then dflt
    else LastFlag(lines[1..], name,
                  if IsFlagLine(lines[0], name) then SplitFirst(lines[0], ": ").1 == "1" else dflt)
  }

  /** No line writes below `name` through a dotted key. */
  ghost predicate NoDottedUnder(lines: seq<string>, name: string) {
    forall i :: 0 <= i < |lines| ==> !StartsWith(SplitFirst(lines[i], ": ").0, name + ".")
  }

  lemma DottedKeyHead(key: string, name: string)
    requires |Split(key, ".")| >= 2 && Split(key, ".")[0] == name
    ensures StartsWith(key, name + ".")
  {
    var parts := Split(key, ".");
    assert key == Join(parts, ".") == name + "." + Join(parts[1..], ".");
    assert key[..|name| + 1] == name + ".";
  }

  lemma ApplyLineFlag(cfg: Config, line: string, name: string)
    requires name == "debug" || name == "verbose"
    requires name in cfg && cfg[name].Flag?
    requires !StartsWith(SplitFirst(line, ": ").0, name + ".")
    requires ApplyLine(cfg, line).Success?
    ensures name in ApplyLine(cfg, line).value
    ensures ApplyLine(cfg, line).value[name] ==
      if IsFlagLine(line, name) then Flag(SplitFirst(line, ": ").1 == "1") else cfg[name]
  {
    var key := SplitFirst(line, ": ").0;
    var value := SplitFirst(line, ": ").1;
    if key != "" && value != "" && key != "debug" && key != "verbose" {
      var path := Split(key, ".");
      if path[0] == name && |path| >= 2 {
        DottedKeyHead(key, name);
      }
    }
  }

  lemma {:induction false} ApplyLinesFlag(cfg: Config, lines: seq<string>, name: string, dflt: bool)
    requires name == "debug" || name == "verbose"
    requires name in cfg && cfg[name] == Flag(dflt)
    requires NoDottedUnder(lines, name)
    requires ApplyLines(cfg, lines).Success?
    ensures name in ApplyLines(cfg, lines).value
    ensures ApplyLines(cfg, lines).value[name] == Flag(LastFlag(lines, name, dflt))
    decreases |lines|
  {
    if |lines| > 0 {
      assert !StartsWith(SplitFirst(lines[0], ": ").0, name + ".");
      ApplyLineFlag(cfg, lines[0], name);
      var c := ApplyLine(cfg, lines[0]).value;
      var d := if IsFlagLine(lines[0], name) then SplitFirst(lines[0], ": ").1 == "1" else dflt;
      assert NoDottedUnder(lines[1..], name) by {
        forall i | 0 <= i < |lines| - 1
          ensures !StartsWith(SplitFirst(lines[1..][i], ": ").0, name + ".")
        {
          assert lines[1..][i] == lines[i + 1];
        }
      }
      ApplyLinesFlag(c, lines[1..], name, d);
    }
  }

  /** `debug` and `verbose` start out false; each ends up true exactly when
      the last `debug: v` (or `verbose: v`) line with non-empty `v` has `v == "1"`. */
  lemma ConfigFlags(text: string, name: string)
    requires name == "debug" || name == "verbose"
    requires NoDottedUnder(Split(text, "\n"), name)
    requires ParseConfig(text).Success?
    ensures ParseConfig(text).value[name] == Flag(LastFlag(Split(text, "\n"), name, false))
  {
    ApplyLinesFlag(DefaultConfig, Split(text, "\n"), name, false);
  }

  // ---------------------------------------------------------------------
  // Project tag

  /** The pattern `^([^:]+):\s*(.+)$` matches `tag` with group 1 `tag[..i]`
      and group 2 `tag[j..]`. */
  ghost predicate TagMatchAt(tag: string, i: nat, j: nat) {
    && 0 < i < j < |tag|
    && tag[i] == ':'
    && (forall p :: 0 <= p < i ==> tag[p] != ':')
    && (forall p :: i < p < j ==> IsWhitespace(tag[p]))
    && (forall p :: j <= p < |tag| ==> !IsLineTerminator(tag[p]))
  }

  /** The match a backtracking engine reports: `\s*` is greedy, so group 2 starts as late as possible. */
  ghost predicate GreedyMatchAt(tag: string, i: nat, j: nat) {
    TagMatchAt(tag, i, j) && forall j' :: j < j' ==> !TagMatchAt(tag, i, j')
  }

  predicate NoLineTerminator(s: string) {
    forall p :: 0 <= p < |s| ==> !IsLineTerminator(s[p])
  }

  /** Where the two groups of `^([^:]+):\s*(.+)$` start, when it matches:
      group 1 is `tag[..i]` and group 2 `tag[j..]`. */
  function TagGroups(tag: string): (g: Option<(nat, nat)>)
    ensures g.Some? ==> 0 < g.value.0 < g.value.1 < |tag|
  {
    match IndexOf(tag, ':')
    case None => None
    case Some(i) =>
      if i == 0 then None
      else
        var rest := tag[i + 1..];
        var k := WhitespacePrefix(rest);
        if k < |rest| && NoLineTerminator(rest[k..]) then Some((i, i + 1 + k))
        else if k == |rest| && k > 0 && !IsLineTerminator(rest[k - 1]) then Some((i, |tag| - 1))
        else None
  }

  /** `parseProjectTag`: project lowercased, description trimmed, both empty without a match. */
  function ParseProjectTag(tag: string): (pd: (string, string))
    ensures pd.0 == "" <==> TagGroups(tag).None?
    ensures pd.0 == "" ==> pd.1 == ""
  {
    match TagGroups(tag)
    case None => ("", "")
    case Some((i, j)) => (Lower(tag[..i]), Trim(tag[j..]))
  }

  lemma MatchAtFirstColon(tag: string, i: nat, j: nat)
    requires TagMatchAt(tag, i, j)
    ensures IndexOf(tag, ':') == Some(i)
  {
    match IndexOf(tag, ':')
    case None =>
    case Some(r) =>
  }

  lemma MatchIsFound(tag: string, i: nat, j: nat)
    requires TagMatchAt(tag, i, j)
    ensures TagGroups(tag).Some?
  {
    MatchAtFirstColon(tag, i, j);
    var rest := tag[i + 1..];
    var k := WhitespacePrefix(rest);
    if k < |rest| {
      assert forall p :: 0 <= p < |rest[k..]| ==> rest[k..][p] == tag[i + 1 + k + p];
      assert NoLineTerminator(rest[k..]);
    } else {
      assert rest[k - 1] == tag[|tag| - 1];
    }
  }

  lemma GreedyInside(tag: string, i: nat, k: nat)
    requires 0 < i < |tag| && tag[i] == ':' && (forall p :: 0 <= p < i ==> tag[p] != ':')
    requires k == WhitespacePrefix(tag[i + 1..])
    requires k < |tag[i + 1..]| && NoLineTerminator(tag[i + 1..][k..])
    ensures GreedyMatchAt(tag, i, i + 1 + k)
  {
    var rest := tag[i + 1..];
    var j := i + 1 + k;
    assert forall p :: 0 <= p < k ==> rest[..k][p] == tag[i + 1 + p];
    assert forall p :: j <= p < |tag| ==> tag[p] == rest[k..][p - j];
    assert TagMatchAt(tag, i, j);
    assert tag[j] == rest[k];
  }

  lemma GreedyAtEnd(tag: string, i: nat, k: nat)
    requires 0 < i < |tag| && tag[i] == ':' && (forall p :: 0 <= p < i ==> tag[p] != ':')
    requires k == WhitespacePrefix(tag[i + 1..])
    requires k == |tag[i + 1..]| && k > 0 && !IsLineTerminator(tag[i + 1..][k - 1])
    ensures GreedyMatchAt(tag, i, |tag| - 1)
  {
    var rest := tag[i + 1..];
    assert forall p :: 0 <= p < k ==> rest[..k][p] == tag[i + 1 + p];
    assert TagMatchAt(tag, i, |tag| - 1);
  }

  lemma FoundIsGreedyMatch(tag: string)
    requires TagGroups(tag).Some?
    ensures GreedyMatchAt(tag, TagGroups(tag).value.0, TagGroups(tag).value.1)
  {
    var i := IndexOf(tag, ':').value;
    var rest := tag[i + 1..];
    var k := WhitespacePrefix(rest);
    if k < |rest| && NoLineTerminator(rest[k..]) {
      GreedyInside(tag, i, k);
    } else {
      GreedyAtEnd(tag, i, k);
    }
  }

  /** The split agrees with the regular expression: the project is non-empty
      exactly when the pattern matches. */
  lemma ProjectTagMatches(tag: string)
    ensures ParseProjectTag(tag).0 != "" <==> exists i, j :: TagMatchAt(tag, i, j)
  {
    if TagGroups(tag).Some? {
      FoundIsGreedyMatch(tag);
    }
    if exists i, j :: TagMatchAt(tag, i, j) {
      var i, j :| TagMatchAt(tag, i, j);
      MatchIsFound(tag, i, j);
    }
  }

  /** When the pattern matches, the two groups of the greedy match give
      the lowercased project and the trimmed description. */
  lemma ProjectTagGroups(tag: string) returns (i: nat, j: nat)
    requires ParseProjectTag(tag).0 != ""
    ensures GreedyMatchAt(tag, i, j)
    ensures ParseProjectTag(tag) == (Lower(tag[..i]), Trim(tag[j..]))
  {
    FoundIsGreedyMatch(tag);
    i, j := TagGroups(tag).value.0, TagGroups(tag).value.1;
  }

  // ---------------------------------------------------------------------
  // Intervals

  /** One element of the `map`: the first tag is taken apart, the other tags are kept. */
  function ToInterval(raw: RawInterval): (r: Result<Interval, Error>)
    ensures r.Failure? <==> |raw.tags| == 0
    ensures r.Success? ==>
      && r.value.id == raw.id && r.value.start == raw.start && r.value.end == raw.end
      && (r.value.project, r.value.description) == ParseProjectTag(raw.tags[0])
      && [raw.tags[0]] + r.value.tags == raw.tags
  {
    if |raw.tags| == 0 then Failure(MissingProjectTag(raw.id))
    else
      var pd := ParseProjectTag(raw.tags[0]);
      Success(Interval(raw.id, raw.start, raw.end, pd.0, pd.1, raw.tags[1..]))
  }

  /** The `map` over decoded intervals: it throws on an interval without
      tags, and otherwise keeps order and drops each first tag. */
  function ToIntervals(raws: seq<RawInterval>): (r: Result<seq<Interval>, Error>)
    ensures r.Failure? <==> exists i :: 0 <= i < |raws| && |raws[i].tags| == 0
    ensures r.Success? ==> |r.value| == |raws|
    ensures r.Success? ==> forall i :: 0 <= i < |raws| ==> ToInterval(raws[i]) == Success(r.value[i])
  {
    if |raws| == 0 then Success([])
    else
      match ToInterval(raws[0])
      case Failure(e) => Failure(e)
      case Success(iv) =>
        match ToIntervals(raws[1..])
        case Failure(e) =>
          assert forall i :: 1 <= i < |raws| ==> raws[i] == raws[1..][i - 1];
          Failure(e)
        case Success(ivs) =>
          ConsIntervals(raws, iv, ivs);
          Success([iv] + ivs)
  }

  lemma ConsIntervals(raws: seq<RawInterval>, iv: Interval, ivs: seq<Interval>)
    requires |raws| > 0 && ToInterval(raws[0]) == Success(iv) && |ivs| == |raws| - 1
    requires forall i :: 0 <= i < |raws| - 1 ==> ToInterval(raws[1..][i]) == Success(ivs[i])
    ensures forall i :: 0 <= i < |raws| ==> |raws[i].tags| > 0
    ensures forall i :: 0 <= i < |raws| ==> ToInterval(raws[i]) == Success(([iv] + ivs)[i])
  {
    var r := [iv] + ivs;
    forall i | 0 <= i < |raws| ensures ToInterval(raws[i]) == Success(r[i]) {
      if i > 0 {
        var raw := raws[1..][i - 1];
        assert raw == raws[i] && r[i] == ivs[i - 1];
        assert ToInterval(raw) == Success(ivs[i - 1]);
      }
    }
    forall i | 0 <= i < |raws| ensures |raws[i].tags| > 0 {
      assert ToInterval(raws[i]).Success?;
    }
  }

  /** `parseIntervals`: a blank section is no intervals; otherwise the decoded array, mapped. */
  function ParseIntervals(section: string, decode: JsonDecoder): (r: Result<seq<Interval>, Error>)
    ensures AllWhitespace(section) ==> r == Success([])
    ensures !AllWhitespace(section) && decode(section).None? ==> r == Failure(MalformedJson)
    ensures !AllWhitespace(section) && decode(section).Some? ==> r == ToIntervals(decode(section).value)
  {
    if Trim(section) == "" then Success([])
    else match decode(section)
      case None => Failure(MalformedJson)
      case Some(raws) => ToIntervals(raws)
  }

  /** `parse`: the config section precedes the first blank line and the interval
      section runs up to the next one; without a blank line there is no interval section. */
  function Parse(input: string, decode: JsonDecoder): (r: Result<Export, Error>)
    ensures r.Success? ==> Contains(input, "\n\n")
    ensures !Contains(input, "\n\n") ==>
      r == (match ParseConfig(input)
            case Failure(e) => Failure(e)
            case Success(_) => Failure(MissingIntervalSection))
  {
    var sections := Split(input, "\n\n");
    assert !Contains(input, "\n\n") ==> sections == [input] by {
      if !Contains(input, "\n\n") {
        SplitWithout(input, "\n\n");
      }
    }
    var config :- ParseConfig(sections[0]);
    if |sections| == 1 then Failure(MissingIntervalSection)
    else
      var intervals :- ParseIntervals(sections[1], decode);
      Success(Export(config, intervals))
  }

  predicate EndsWithNewline(s: string) {
    |s| > 0 && s[|s| - 1] == '\n'
  }

  lemma FirstBlankLine(c: string, rest: string)
    requires !Contains(c, "\n\n") && !EndsWithNewline(c)
    ensures Find(c + "\n\n" + rest, "\n\n") == Some(|c|)
  {
    var s := c + "\n\n" + rest;
    assert s[|c|..|c| + 2] == "\n\n";
    assert OccursAt(s, "\n\n", |c|);
    forall k: nat | k < |c| ensures !OccursAt(s, "\n\n", k) {
      if k + 2 <= |c| {
        assert !OccursAt(c, "\n\n", k);
        assert s[k..k + 2] == c[k..k + 2];
      } else {
        assert s[k] == c[|c| - 1];
        assert s[k..k + 2][0] == s[k];
      }
    }
  }

  lemma SplitWithout(s: string, sep: string)
    requires |sep| > 0 && !Contains(s, sep)
    ensures Split(s, sep) == [s]
  {
  }

  /** The config section is the text before the first blank line and the
      interval section is everything after it, up to the next blank line. */
  lemma ParseSections(c: string, j: string, decode: JsonDecoder)
    requires !Contains(c, "\n\n") && !EndsWithNewline(c)
    requires !Contains(j, "\n\n")
    ensures Parse(c + "\n\n" + j, decode) ==
      match ParseConfig(c)
      case Failure(e) => Failure(e)
      case Success(cfg) =>
        match ParseIntervals(j, decode)
        case Failure(e) => Failure(e)
        case Success(ivs) => Success(Export(cfg, ivs))
  {
    TwoSections(c, j);
  }

  /** Anything after the second blank line is discarded. */
  lemma ParseDropsTail(c: string, j: string, tail: string, decode: JsonDecoder)
    requires !Contains(c, "\n\n") && !EndsWithNewline(c)
    requires !Contains(j, "\n\n") && !EndsWithNewline(j)
    ensures Parse(c + "\n\n" + j + "\n\n" + tail, decode) == Parse(c + "\n\n" + j, decode)
  {
    ThreeSections(c, j, tail);
    TwoSections(c, j);
  }

  lemma ThreeSections(c: string, j: string, tail: string)
    requires !Contains(c, "\n\n") && !EndsWithNewline(c)
    requires !Contains(j, "\n\n") && !EndsWithNewline(j)
    ensures var parts := Split(c + "\n\n" + j + "\n\n" + tail, "\n\n");
      |parts| >= 2 && parts[0] == c && parts[1] == j
  {
    var long := c + "\n\n" + j + "\n\n" + tail;
    assert long == c + "\n\n" + (j + "\n\n" + tail);
    FirstBlankLine(c, j + "\n\n" + tail);
    SplitAt(long, "\n\n", |c|);
    assert long[..|c|] == c;
    assert long[|c| + 2..] == j + "\n\n" + tail;
    FirstBlankLine(j, tail);
    SplitAt(j + "\n\n" + tail, "\n\n", |j|);
    assert (j + "\n\n" + tail)[..|j|] == j;
  }

  lemma TwoSections(c: string, j: string)
    requires !Contains(c, "\n\n") && !EndsWithNewline(c)
    requires !Contains(j, "\n\n")
    ensures Split(c + "\n\n" + j, "\n\n") == [c, j]
  {
    var short := c + "\n\n" + j;
    FirstBlankLine(c, j);
    SplitAt(short, "\n\n", |c|);
    assert short[|c| + 2..] == j;
    assert short[..|c|] == c;
    SplitWithout(j, "\n\n");
  }
}
