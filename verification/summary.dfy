/**
 * `IntervalTransformer.summarize` (current revision): the skipped
 * intervals are dropped and drafts with the same date, project and
 * description are merged into the first of them, adding up the seconds.
 */
module Summary {
  import opened Wrappers
  import opened Activity

  /** What `summarize` merges on. */
  datatype Key = Key(date: string, projectId: int, description: string)

  function KeyOf(d: Draft): Key {
    Key(d.date, d.projectId, d.description)
  }

  /** `activities.filter(activity => !!activity)`. */
  function Defined(ds: seq<Option<Draft>>): (r: seq<Draft>)
    ensures forall i :: 0 <= i < |r| ==> Some(r[i]) in ds
    ensures forall i :: 0 <= i < |ds| && ds[i].Some? ==> ds[i].value in r
    decreases |ds|
  {
    if |ds| == 0 then []
    else
      var rest := Defined(ds[1..]);
      assert forall i :: 1 <= i < |ds| ==> ds[i] == ds[1..][i - 1];
      match ds[0]
      case None => rest
      case Some(d) => [d] + rest
  }

  /** The filter distributes over concatenation, so the defined drafts keep
      their order and their repetitions. */
  lemma {:induction false} DefinedAppend(a: seq<Option<Draft>>, b: seq<Option<Draft>>)
    ensures Defined(a + b) == Defined(a) + Defined(b)
    decreases |a|
  {
    if |a| > 0 {
      assert (a + b)[0] == a[0];
      assert (a + b)[1..] == a[1..] + b;
      DefinedAppend(a[1..], b);
    } else {
      assert a + b == b;
    }
  }

  /** A single entry survives exactly when it is defined. */
  lemma DefinedSingle(x: Option<Draft>)
    ensures Defined([x]) == if x.Some? then [x.value] else []
  {
  }

  /** `summarized.find(...)`: the first entry with key `k`. */
  function FindKey(s: seq<Draft>, k: Key): (r: Option<nat>)
    ensures r.Some? ==> r.value < |s|
    decreases |s|
  {
    if |s| == 0 then None
    else if KeyOf(s[0]) == k then Some(0)
    else match FindKey(s[1..], k)
      case None => None
      case Some(j) => Some(j + 1)
  }

  /** `FindKey` finds the first entry with the key, and finds nothing only
      when no entry has it. */
  lemma {:induction false} FindKeySpec(s: seq<Draft>, k: Key)
    ensures FindKey(s, k).Some? ==> KeyOf(s[FindKey(s, k).value]) == k
    ensures FindKey(s, k).Some? ==> forall j :: 0 <= j < FindKey(s, k).value ==> KeyOf(s[j]) != k
    ensures FindKey(s, k).None? ==> forall j :: 0 <= j < |s| ==> KeyOf(s[j]) != k
    decreases |s|
  {
    if |s| > 0 && KeyOf(s[0]) != k {
      FindKeySpec(s[1..], k);
      assert forall j :: 1 <= j < |s| ==> s[j] == s[1..][j - 1];
    }
  }

  /** One step of the `forEach`: add to the existing entry, or append. */
  function Merge(acc: seq<Draft>, d: Draft): (r: seq<Draft>)
    ensures FindKey(acc, KeyOf(d)).None? ==> r == acc + [d]
    ensures FindKey(acc, KeyOf(d)).Some? ==> r == AddTo(acc, FindKey(acc, KeyOf(d)).value, d)
  {
    match FindKey(acc, KeyOf(d))
    case None => acc + [d]
    case Some(i) => AddTo(acc, i, d)
  }

  /** `existing.seconds += interval.seconds` on entry `i`. */
  function AddTo(s: seq<Draft>, i: nat, d: Draft): (r: seq<Draft>)
    requires i < |s|
    ensures |r| == |s| && Keys(r) == Keys(s)
    ensures r[i] == s[i].(seconds := s[i].seconds + d.seconds)
    ensures forall j :: 0 <= j < |s| && j != i ==> r[j] == s[j]
  {
    var r := s[i := s[i].(seconds := s[i].seconds + d.seconds)];
    assert Keys(r) == Keys(s);
    r
  }

  /** The `forEach` over the defined drafts, in order. */
  function MergeAll(ds: seq<Draft>): seq<Draft>
    decreases |ds|
  {
    if |ds| == 0 then [] else Merge(MergeAll(ds[..|ds| - 1]), ds[|ds| - 1])
  }

  /** `summarize(activities)`: no two entries share a key, and the seconds add up. */
  function Summarize(activities: seq<Option<Draft>>): (r: seq<Draft>)
    ensures UniqueKeys(r)
    ensures TotalSeconds(r) == TotalSeconds(Defined(activities))
  {
    var ds := Defined(activities);
    MergeAllSummarizes(ds);
    MergeAllConserves(ds);
    MergeAll(ds)
  }

  // ---------------------------------------------------------------------
  // Reference definitions

  function Keys(s: seq<Draft>): (r: seq<Key>)
    ensures |r| == |s| && forall i :: 0 <= i < |s| ==> r[i] == KeyOf(s[i])
  {
    seq(|s|, i requires 0 <= i < |s| => KeyOf(s[i]))
  }

  ghost predicate UniqueKeys(s: seq<Draft>) {
    forall i, j :: 0 <= i < j < |s| ==> Keys(s)[i] != Keys(s)[j]
  }

  function TotalSeconds(s: seq<Draft>): int
    decreases |s|
  {
    if |s| == 0 then 0 else TotalSeconds(s[..|s| - 1]) + s[|s| - 1].seconds
  }

  /** The seconds of all drafts with key `k`. */
  function GroupSeconds(s: seq<Draft>, k: Key): int
    decreases |s|
  {
    if |s| == 0 then 0
    else GroupSeconds(s[..|s| - 1], k) + (if KeyOf(s[|s| - 1]) == k then s[|s| - 1].seconds else 0)
  }

  /** Where key `k` first appears in `ds` (`|ds|` when it does not). */
  function FirstAt(ds: seq<Draft>, k: Key): nat {
    match FindKey(ds, k)
    case None => |ds|
    case Some(i) => i
  }

  /** The merged draft for key `k`: the first draft with that key, carrying
      the seconds of all of them. */
  function Representative(ds: seq<Draft>, k: Key): Draft
    requires FindKey(ds, k).Some?
  {
    ds[FindKey(ds, k).value].(seconds := GroupSeconds(ds, k))
  }

  /** Each entry of `r` is the representative of its key in `ds`. */
  ghost predicate Represents(r: seq<Draft>, ds: seq<Draft>) {
    forall i :: 0 <= i < |r| ==> FindKey(ds, Keys(r)[i]).Some? && r[i] == Representative(ds, Keys(r)[i])
  }

  /** Every key of `ds` has an entry in `r`. */
  ghost predicate Covers(r: seq<Draft>, ds: seq<Draft>) {
    forall j :: 0 <= j < |ds| ==> FindKey(r, Keys(ds)[j]).Some?
  }

  /** The entries of `r` are in the order their keys first appear in `ds`. */
  ghost predicate FirstAppearanceOrder(r: seq<Draft>, ds: seq<Draft>) {
    forall i, j :: 0 <= i < j < |r| ==> FirstAt(ds, Keys(r)[i]) < FirstAt(ds, Keys(r)[j])
  }

  /** `r` summarizes `ds`: one entry per key of `ds`, each the representative
      of its key, in the order the keys first appear. */
  ghost predicate Summarizes(r: seq<Draft>, ds: seq<Draft>) {
    UniqueKeys(r) && Represents(r, ds) && Covers(r, ds) && FirstAppearanceOrder(r, ds)
  }

  // ---------------------------------------------------------------------
  // Proofs

  lemma {:induction false} FindKeySnoc(p: seq<Draft>, d: Draft, k: Key)
    ensures FindKey(p + [d], k) ==
      if FindKey(p, k).Some? then FindKey(p, k)
      else if KeyOf(d) == k then Some(|p|) else None
    decreases |p|
  {
    if |p| > 0 {
      assert (p + [d])[0] == p[0];
      assert (p + [d])[1..] == p[1..] + [d];
      FindKeySnoc(p[1..], d, k);
    } else {
      assert p + [d] == [d];
    }
  }

  /** `FindKey` only looks at the keys. */
  lemma {:induction false} FindKeyByKeys(s: seq<Draft>, t: seq<Draft>, k: Key)
    requires Keys(s) == Keys(t)
    ensures FindKey(s, k) == FindKey(t, k)
    decreases |s|
  {
    if |s| > 0 {
      assert KeyOf(s[0]) == Keys(s)[0] == Keys(t)[0] == KeyOf(t[0]);
      assert Keys(s[1..]) == Keys(s)[1..] == Keys(t)[1..] == Keys(t[1..]);
      FindKeyByKeys(s[1..], t[1..], k);
    }
  }

  lemma {:induction false} GroupAbsent(s: seq<Draft>, k: Key)
    requires FindKey(s, k).None?
    ensures GroupSeconds(s, k) == 0
    decreases |s|
  {
    if |s| > 0 {
      var p := s[..|s| - 1];
      assert s == p + [s[|s| - 1]];
      FindKeySnoc(p, s[|s| - 1], k);
      GroupAbsent(p, k);
    }
  }

  lemma GroupSnoc(p: seq<Draft>, d: Draft, k: Key)
    ensures GroupSeconds(p + [d], k) == GroupSeconds(p, k) + (if KeyOf(d) == k then d.seconds else 0)
  {
    assert (p + [d])[..|p|] == p;
  }

  /** A key the summary of `p` lacks does not occur in `p`. */
  lemma AbsentFromSource(acc: seq<Draft>, p: seq<Draft>, k: Key)
    requires Covers(acc, p)
    requires FindKey(acc, k).None?
    ensures FindKey(p, k).None?
  {
    forall j | 0 <= j < |p| ensures KeyOf(p[j]) != k {
      assert FindKey(acc, Keys(p)[j]).Some?;
    }
    FindKeySpec(p, k);
  }

  lemma NewKeyUnique(acc: seq<Draft>, d: Draft)
    requires UniqueKeys(acc) && FindKey(acc, KeyOf(d)).None?
    ensures UniqueKeys(acc + [d])
  {
    FindKeySpec(acc, KeyOf(d));
    var r := acc + [d];
    forall i, j | 0 <= i < j < |r| ensures Keys(r)[i] != Keys(r)[j] {
      assert r[i] == acc[i];
      if j < |acc| {
        assert r[j] == acc[j];
        assert Keys(acc)[i] != Keys(acc)[j];
      }
    }
  }

  lemma NewKeyRepresents(acc: seq<Draft>, p: seq<Draft>, d: Draft)
    requires Represents(acc, p) && FindKey(p, KeyOf(d)).None?
    ensures Represents(acc + [d], p + [d])
  {
    var r, ds := acc + [d], p + [d];
    forall i | 0 <= i < |r| ensures FindKey(ds, Keys(r)[i]).Some? && r[i] == Representative(ds, Keys(r)[i]) {
      var k := Keys(r)[i];
      FindKeySnoc(p, d, k);
      GroupSnoc(p, d, k);
      if i < |acc| {
        assert r[i] == acc[i] && k == Keys(acc)[i];
        assert FindKey(p, k).Some?;
        assert k != KeyOf(d);
        assert ds[FindKey(p, k).value] == p[FindKey(p, k).value];
      } else {
        GroupAbsent(p, KeyOf(d));
        assert r[i] == d && ds[|p|] == d;
      }
    }
  }

  lemma NewKeyCovers(acc: seq<Draft>, p: seq<Draft>, d: Draft)
    requires Covers(acc, p)
    ensures Covers(acc + [d], p + [d])
  {
    var r, ds := acc + [d], p + [d];
    forall j | 0 <= j < |ds| ensures FindKey(r, Keys(ds)[j]).Some? {
      FindKeySnoc(acc, d, Keys(ds)[j]);
      if j < |p| {
        assert Keys(ds)[j] == Keys(p)[j];
      }
    }
  }

  lemma NewKeyOrder(acc: seq<Draft>, p: seq<Draft>, d: Draft)
    requires Represents(acc, p) && FirstAppearanceOrder(acc, p) && FindKey(p, KeyOf(d)).None?
    ensures FirstAppearanceOrder(acc + [d], p + [d])
  {
    var r, ds := acc + [d], p + [d];
    forall i | 0 <= i < |acc| ensures FirstAt(ds, Keys(r)[i]) == FirstAt(p, Keys(acc)[i]) < |p| {
      assert Keys(r)[i] == Keys(acc)[i];
      FindKeySnoc(p, d, Keys(acc)[i]);
    }
    FindKeySnoc(p, d, KeyOf(d));
    assert FirstAt(ds, Keys(r)[|acc|]) == |p|;
    forall i, j | 0 <= i < j < |r| ensures FirstAt(ds, Keys(r)[i]) < FirstAt(ds, Keys(r)[j]) {
      if j < |acc| {
        assert FirstAt(p, Keys(acc)[i]) < FirstAt(p, Keys(acc)[j]);
      }
    }
  }

  lemma OldKeyRepresents(acc: seq<Draft>, p: seq<Draft>, d: Draft, i0: nat)
    requires UniqueKeys(acc) && Represents(acc, p)
    requires FindKey(acc, KeyOf(d)) == Some(i0)
    ensures Represents(AddTo(acc, i0, d), p + [d])
  {
    var r, ds := AddTo(acc, i0, d), p + [d];
    FindKeySpec(acc, KeyOf(d));
    forall i | 0 <= i < |r| ensures FindKey(ds, Keys(r)[i]).Some? && r[i] == Representative(ds, Keys(r)[i]) {
      var k := Keys(acc)[i];
      FindKeySnoc(p, d, k);
      GroupSnoc(p, d, k);
      assert FindKey(p, k).Some?;
      assert ds[FindKey(p, k).value] == p[FindKey(p, k).value];
      if i != i0 {
        assert Keys(acc)[i] != Keys(acc)[i0];
      }
    }
  }

  lemma OldKeyCovers(acc: seq<Draft>, p: seq<Draft>, d: Draft, i0: nat)
    requires Covers(acc, p)
    requires FindKey(acc, KeyOf(d)) == Some(i0)
    ensures Covers(AddTo(acc, i0, d), p + [d])
  {
    var r, ds := AddTo(acc, i0, d), p + [d];
    forall j | 0 <= j < |ds| ensures FindKey(r, Keys(ds)[j]).Some? {
      FindKeyByKeys(r, acc, Keys(ds)[j]);
      if j < |p| {
        assert Keys(ds)[j] == Keys(p)[j];
      }
    }
  }

  lemma OldKeyOrder(acc: seq<Draft>, p: seq<Draft>, d: Draft, i0: nat)
    requires Represents(acc, p) && FirstAppearanceOrder(acc, p)
    requires FindKey(acc, KeyOf(d)) == Some(i0)
    ensures FirstAppearanceOrder(AddTo(acc, i0, d), p + [d])
  {
    var r, ds := AddTo(acc, i0, d), p + [d];
    forall i | 0 <= i < |acc| ensures FirstAt(ds, Keys(acc)[i]) == FirstAt(p, Keys(acc)[i]) {
      FindKeySnoc(p, d, Keys(acc)[i]);
    }
  }

  lemma MergeStep(acc: seq<Draft>, p: seq<Draft>, d: Draft)
    requires Summarizes(acc, p)
    ensures Summarizes(Merge(acc, d), p + [d])
  {
    match FindKey(acc, KeyOf(d))
    case None =>
      AbsentFromSource(acc, p, KeyOf(d));
      NewKeyUnique(acc, d);
      NewKeyRepresents(acc, p, d);
      NewKeyCovers(acc, p, d);
      NewKeyOrder(acc, p, d);
    case Some(i0) =>
      OldKeyRepresents(acc, p, d, i0);
      OldKeyCovers(acc, p, d, i0);
      OldKeyOrder(acc, p, d, i0);
  }

  /** The fold computes the summary the reference definitions describe. */
  lemma {:induction false} MergeAllSummarizes(ds: seq<Draft>)
    ensures Summarizes(MergeAll(ds), ds)
    decreases |ds|
  {
    if |ds| > 0 {
      var p, d := ds[..|ds| - 1], ds[|ds| - 1];
      assert ds == p + [d];
      MergeAllSummarizes(p);
      MergeStep(MergeAll(p), p, d);
    }
  }

  lemma {:induction false} TotalAddTo(s: seq<Draft>, i: nat, d: Draft)
    requires i < |s|
    ensures TotalSeconds(AddTo(s, i, d)) == TotalSeconds(s) + d.seconds
    decreases |s|
  {
    var n := |s| - 1;
    var r := AddTo(s, i, d);
    assert r[..n] == (if i < n then AddTo(s[..n], i, d) else s[..n]);
    if i < n {
      TotalAddTo(s[..n], i, d);
    }
  }

  lemma TotalSnoc(s: seq<Draft>, d: Draft)
    ensures TotalSeconds(s + [d]) == TotalSeconds(s) + d.seconds
  {
    assert (s + [d])[..|s|] == s;
  }

  lemma {:induction false} MergeAllConserves(ds: seq<Draft>)
    ensures TotalSeconds(MergeAll(ds)) == TotalSeconds(ds)
    decreases |ds|
  {
    if |ds| > 0 {
      var p, d := ds[..|ds| - 1], ds[|ds| - 1];
      MergeAllConserves(p);
      var acc := MergeAll(p);
      assert ds == p + [d];
      TotalSnoc(p, d);
      match FindKey(acc, KeyOf(d))
      case None => TotalSnoc(acc, d);
      case Some(i0) => TotalAddTo(acc, i0, d);
    }
  }

  // ---------------------------------------------------------------------
  // Properties of `summarize`

  /** The summary: skipped intervals dropped, one entry per (date, project,
      description) in order of first appearance, each the first such draft
      (task, billable and all) with the seconds of all of them. */
  lemma SummarizeCharacterized(activities: seq<Option<Draft>>)
    ensures Summarizes(Summarize(activities), Defined(activities))
  {
    MergeAllSummarizes(Defined(activities));
  }

  /** Drafts with distinct keys are left exactly as they are. */
  lemma {:induction false} MergeAllUnique(s: seq<Draft>)
    requires UniqueKeys(s)
    ensures MergeAll(s) == s
    decreases |s|
  {
    if |s| > 0 {
      var p, d := s[..|s| - 1], s[|s| - 1];
      UniqueSplit(s);
      MergeAllUnique(p);
      assert Merge(p, d) == p + [d];
      assert p + [d] == s;
    }
  }

  /** Dropping the last draft keeps the keys distinct, and its key is new. */
  lemma UniqueSplit(s: seq<Draft>)
    requires UniqueKeys(s) && |s| > 0
    ensures UniqueKeys(s[..|s| - 1])
    ensures FindKey(s[..|s| - 1], KeyOf(s[|s| - 1])).None?
  {
    var p, d := s[..|s| - 1], s[|s| - 1];
    forall i, j | 0 <= i < j < |p| ensures Keys(p)[i] != Keys(p)[j] {
      assert Keys(p)[i] == Keys(s)[i] && Keys(p)[j] == Keys(s)[j];
    }
    forall j | 0 <= j < |p| ensures KeyOf(p[j]) != KeyOf(d) {
      assert Keys(s)[j] != Keys(s)[|s| - 1];
    }
    FindKeySpec(p, KeyOf(d));
  }

  function Wrap(s: seq<Draft>): (r: seq<Option<Draft>>)
    ensures |r| == |s| && forall i :: 0 <= i < |s| ==> r[i] == Some(s[i])
  {
    seq(|s|, i requires 0 <= i < |s| => Some(s[i]))
  }

  lemma {:induction false} DefinedWrap(s: seq<Draft>)
    ensures Defined(Wrap(s)) == s
    decreases |s|
  {
    if |s| > 0 {
      assert Wrap(s)[1..] == Wrap(s[1..]);
      DefinedWrap(s[1..]);
      assert s == [s[0]] + s[1..];
    }
  }

  /** Summarizing a summary changes nothing. */
  lemma SummarizeIdempotent(activities: seq<Option<Draft>>)
    ensures Summarize(Wrap(Summarize(activities))) == Summarize(activities)
  {
    var r := Summarize(activities);
    DefinedWrap(r);
    MergeAllUnique(r);
  }

  /** Two identical half hours become one hour. */
  lemma TwoHalfHours()
    ensures var d := Draft(944934716, 3281058, "2025-02-28", 1800, "Get all tests running again!", None);
      Summarize([Some(d), Some(d)]) == [d.(seconds := 3600)]
  {
    var d := Draft(944934716, 3281058, "2025-02-28", 1800, "Get all tests running again!", None);
    assert Defined([Some(d), Some(d)]) == [d, d];
    assert [d, d][..1] == [d];
    assert MergeAll([d]) == [d];
  }
}
