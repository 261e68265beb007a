/**
 * `SearchUtil`: `fuzzyRank` rates every candidate by the sum of a
 * similarity score over all (key, query) pairs and sorts the candidates
 * by descending rating with a stable sort; `fuzzyFind` returns the first
 * hit of a threshold search. Both similarity libraries are parameters:
 * a `Similarity` stands for `fuzzySearch` and a `Picker` for `picoSearch`.
 */
module Search {
  import opened Wrappers
  import opened Failures
  import opened Text

  /** `fuzzySearch(query, haystack)?.score`: `None` when the library reports no match. */
  type Similarity = (string, string) -> Option<real>

  /** `String(thing[key])`. */
  type Field<-T> = (T, string) -> string

  /** `picoSearch(things, term, attributes, { threshold })`. */
  type Picker<!T> = (seq<T>, string, seq<string>, real) -> seq<T>

  datatype Ranked<T> = Ranked(thing: T, rating: real)

  /** The threshold `fuzzyFind` hands to the threshold search. */
  const FuzzyThreshold: real := 0.8

  /** `searchResult?.score || 0`. */
  function PairScore(sim: Similarity, query: string, haystack: string): real {
    match sim(query, haystack)
    case None => 0.0
    case Some(score) => score
  }

  // ---------------------------------------------------------------------
  // Ratings

  function TermScores<T>(thing: T, key: string, terms: seq<string>, field: Field<T>, sim: Similarity): (r: seq<real>)
    ensures |r| == |terms|
    ensures forall b :: 0 <= b < |terms| ==> r[b] == PairScore(sim, terms[b], field(thing, key))
  {
    seq(|terms|, b requires 0 <= b < |terms| => PairScore(sim, terms[b], field(thing, key)))
  }

  /** `keys.flatMap(key => searchTerms.map(query => score))`: one score per
      (key, query) pair, key-major. */
  function Scores<T>(thing: T, keys: seq<string>, terms: seq<string>, field: Field<T>, sim: Similarity): (r: seq<real>)
    ensures |r| == |keys| * |terms|
    decreases |keys|
  {
    if |keys| == 0 then []
    else
      var head := TermScores(thing, keys[0], terms, field, sim);
      var tail := Scores(thing, keys[1..], terms, field, sim);
      assert |head + tail| == |keys| * |terms| by {
        assert |keys| * |terms| == |terms| + (|keys| - 1) * |terms|;
      }
      head + tail
  }

  /** Every score comes from some (key, query) pair. */
  lemma {:induction false} ScoresArePairScores<T>(thing: T, keys: seq<string>, terms: seq<string>, field: Field<T>, sim: Similarity, n: nat)
    requires n < |Scores(thing, keys, terms, field, sim)|
    ensures exists a, b ::
              && 0 <= a < |keys| && 0 <= b < |terms|
              && Scores(thing, keys, terms, field, sim)[n] == PairScore(sim, terms[b], field(thing, keys[a]))
    decreases |keys|
  {
    var head := TermScores(thing, keys[0], terms, field, sim);
    var tail := Scores(thing, keys[1..], terms, field, sim);
    var all := Scores(thing, keys, terms, field, sim);
    assert all == head + tail;
    if n < |head| {
      assert all[n] == PairScore(sim, terms[n], field(thing, keys[0]));
    } else {
      ScoresArePairScores(thing, keys[1..], terms, field, sim, n - |head|);
      var a, b :| 0 <= a < |keys| - 1 && 0 <= b < |terms|
        && tail[n - |head|] == PairScore(sim, terms[b], field(thing, keys[1..][a]));
      assert keys[1..][a] == keys[a + 1];
      assert all[n] == PairScore(sim, terms[b], field(thing, keys[a + 1]));
    }
  }

  /** `reduce((p, n) => p + n)` without a seed: a left fold starting at the first element. */
  function ReduceSum(xs: seq<real>): real
    requires |xs| > 0
  {
    FoldSum(xs[0], xs[1..])
  }

  function FoldSum(acc: real, xs: seq<real>): real
    decreases |xs|
  {
    if |xs| == 0 then acc else FoldSum(acc + xs[0], xs[1..])
  }

  /** The plain sum, from the right. */
  function Sum(xs: seq<real>): real
    decreases |xs|
  {
    if |xs| == 0 then 0.0 else xs[0] + Sum(xs[1..])
  }

  lemma {:induction false} FoldIsSum(acc: real, xs: seq<real>)
    ensures FoldSum(acc, xs) == acc + Sum(xs)
    decreases |xs|
  {
    if |xs| > 0 {
      FoldIsSum(acc + xs[0], xs[1..]);
    }
  }

  /** The left fold without a seed adds up every element. */
  lemma ReduceIsSum(xs: seq<real>)
    requires |xs| > 0
    ensures ReduceSum(xs) == Sum(xs)
  {
    FoldIsSum(xs[0], xs[1..]);
  }

  lemma {:induction false} SumAppend(xs: seq<real>, ys: seq<real>)
    ensures Sum(xs + ys) == Sum(xs) + Sum(ys)
    decreases |xs|
  {
    if |xs| > 0 {
      assert (xs + ys)[0] == xs[0];
      assert (xs + ys)[1..] == xs[1..] + ys;
      SumAppend(xs[1..], ys);
    } else {
      assert xs + ys == ys;
    }
  }

  /** Reference definition of a rating: the double sum over keys and
      queries of the pair score. */
  function TermTotal<T>(thing: T, key: string, terms: seq<string>, field: Field<T>, sim: Similarity): real
    decreases |terms|
  {
    if |terms| == 0 then 0.0
    else PairScore(sim, terms[0], field(thing, key)) + TermTotal(thing, key, terms[1..], field, sim)
  }

  function PairTotal<T>(thing: T, keys: seq<string>, terms: seq<string>, field: Field<T>, sim: Similarity): real
    decreases |keys|
  {
    if |keys| == 0 then 0.0
    else TermTotal(thing, keys[0], terms, field, sim) + PairTotal(thing, keys[1..], terms, field, sim)
  }

  lemma {:induction false} TermScoresSum<T>(thing: T, key: string, terms: seq<string>, field: Field<T>, sim: Similarity)
    ensures Sum(TermScores(thing, key, terms, field, sim)) == TermTotal(thing, key, terms, field, sim)
    decreases |terms|
  {
    if |terms| > 0 {
      var s := TermScores(thing, key, terms, field, sim);
      assert s[1..] == TermScores(thing, key, terms[1..], field, sim);
      TermScoresSum(thing, key, terms[1..], field, sim);
    }
  }

  lemma {:induction false} ScoresSum<T>(thing: T, keys: seq<string>, terms: seq<string>, field: Field<T>, sim: Similarity)
    ensures Sum(Scores(thing, keys, terms, field, sim)) == PairTotal(thing, keys, terms, field, sim)
    decreases |keys|
  {
    if |keys| > 0 {
      SumAppend(TermScores(thing, keys[0], terms, field, sim), Scores(thing, keys[1..], terms, field, sim));
      TermScoresSum(thing, keys[0], terms, field, sim);
      ScoresSum(thing, keys[1..], terms, field, sim);
    }
  }

  /** `things.map(thing => ({ thing, rating }))`. */
  function Rate<T>(things: seq<T>, terms: seq<string>, keys: seq<string>, field: Field<T>, sim: Similarity): (r: seq<Ranked<T>>)
    requires |keys| * |terms| > 0
    ensures |r| == |things|
    ensures forall i :: 0 <= i < |things| ==> r[i].thing == things[i]
  {
    seq(|things|, i requires 0 <= i < |things| =>
      Ranked(things[i], ReduceSum(Scores(things[i], keys, terms, field, sim))))
  }

  /** Each rating is the sum, over every (key, query) pair, of the pair score. */
  lemma RatingIsPairSum<T>(things: seq<T>, terms: seq<string>, keys: seq<string>, field: Field<T>, sim: Similarity, i: nat)
    requires |keys| * |terms| > 0 && i < |things|
    ensures Rate(things, terms, keys, field, sim)[i].rating == PairTotal(things[i], keys, terms, field, sim)
  {
    ReduceIsSum(Scores(things[i], keys, terms, field, sim));
    ScoresSum(things[i], keys, terms, field, sim);
  }

  // ---------------------------------------------------------------------
  // Stable sort by descending rating

  ghost predicate SortedDesc<T>(s: seq<Ranked<T>>) {
    forall i, j :: 0 <= i < j < |s| ==> s[i].rating >= s[j].rating
  }

  /** The entries rated exactly `v`, in their order in `s`. */
  function WithRating<T>(s: seq<Ranked<T>>, v: real): seq<Ranked<T>>
    decreases |s|
  {
    if |s| == 0 then []
    else (if s[0].rating == v then [s[0]] else []) + WithRating(s[1..], v)
  }

  /** Places `x` before the first entry rated no higher, so that `x`
      stays ahead of the entries it ties with. */
  function Insert<T>(x: Ranked<T>, s: seq<Ranked<T>>): (r: seq<Ranked<T>>)
    ensures |r| == |s| + 1
    ensures multiset(r) == multiset(s) + multiset{x}
    ensures r[0] == x || (|s| > 0 && r[0] == s[0])
    decreases |s|
  {
    if |s| == 0 || x.rating >= s[0].rating then [x] + s
    else
      var t := Insert(x, s[1..]);
      assert s == [s[0]] + s[1..];
      [s[0]] + t
  }

  lemma {:induction false} InsertSorted<T>(x: Ranked<T>, s: seq<Ranked<T>>)
    requires SortedDesc(s)
    ensures SortedDesc(Insert(x, s))
    decreases |s|
  {
    if |s| > 0 && x.rating < s[0].rating {
      InsertSorted(x, s[1..]);
      InsertBounded(x, s[1..], s[0].rating);
    }
  }

  /** Inserting below a bound keeps every rating below it. */
  lemma {:induction false} InsertBounded<T>(x: Ranked<T>, s: seq<Ranked<T>>, b: real)
    requires x.rating <= b && forall j :: 0 <= j < |s| ==> s[j].rating <= b
    ensures forall j :: 0 <= j < |Insert(x, s)| ==> Insert(x, s)[j].rating <= b
    decreases |s|
  {
    if |s| > 0 && x.rating < s[0].rating {
      InsertBounded(x, s[1..], b);
    }
  }

  lemma {:induction false} InsertStable<T>(x: Ranked<T>, s: seq<Ranked<T>>, v: real)
    requires SortedDesc(s)
    ensures WithRating(Insert(x, s), v) == (if x.rating == v then [x] else []) + WithRating(s, v)
    decreases |s|
  {
    if |s| == 0 || x.rating >= s[0].rating {
      assert ([x] + s)[1..] == s;
    } else {
      InsertStable(x, s[1..], v);
      assert ([s[0]] + Insert(x, s[1..]))[1..] == Insert(x, s[1..]);
    }
  }

  /** `toSorted((a, b) => b.rating - a.rating)`. */
  function SortByRating<T>(s: seq<Ranked<T>>): (r: seq<Ranked<T>>)
    ensures |r| == |s|
    ensures multiset(r) == multiset(s)
    decreases |s|
  {
    if |s| == 0 then []
    else
      assert s == [s[0]] + s[1..];
      Insert(s[0], SortByRating(s[1..]))
  }

  lemma {:induction false} SortSorted<T>(s: seq<Ranked<T>>)
    ensures SortedDesc(SortByRating(s))
    decreases |s|
  {
    if |s| > 0 {
      SortSorted(s[1..]);
      InsertSorted(s[0], SortByRating(s[1..]));
    }
  }

  /** Entries with equal ratings keep their relative order. */
  lemma {:induction false} SortStable<T>(s: seq<Ranked<T>>, v: real)
    ensures WithRating(SortByRating(s), v) == WithRating(s, v)
    decreases |s|
  {
    if |s| > 0 {
      SortStable(s[1..], v);
      SortSorted(s[1..]);
      InsertStable(s[0], SortByRating(s[1..]), v);
    }
  }

  /** `i` is the first entry of `s` with the highest rating. */
  ghost predicate IsFirstMax<T>(s: seq<Ranked<T>>, i: nat) {
    && i < |s|
    && (forall j :: 0 <= j < |s| ==> s[j].rating <= s[i].rating)
    && (forall j :: 0 <= j < i ==> s[j].rating < s[i].rating)
  }

  /** The head of the sorted list is the first entry with the highest rating. */
  lemma {:induction false} SortHead<T>(s: seq<Ranked<T>>) returns (i: nat)
    requires |s| > 0
    ensures IsFirstMax(s, i) && SortByRating(s)[0] == s[i]
    decreases |s|
  {
    if |s| == 1 {
      i := 0;
    } else {
      var k := SortHead(s[1..]);
      var t := SortByRating(s[1..]);
      assert t[0] == s[1 + k];
      if s[0].rating >= t[0].rating {
        i := 0;
        assert forall j :: 1 <= j < |s| ==> s[j] == s[1..][j - 1];
      } else {
        i := 1 + k;
        assert forall j :: 1 <= j < |s| ==> s[j] == s[1..][j - 1];
      }
    }
  }

  /** A list whose ratings are all equal is already sorted and stays as it is. */
  lemma {:induction false} SortConstant<T>(s: seq<Ranked<T>>, v: real)
    requires forall i :: 0 <= i < |s| ==> s[i].rating == v
    ensures SortByRating(s) == s
    decreases |s|
  {
    if |s| > 0 {
      SortConstant(s[1..], v);
      assert [s[0]] + s[1..] == s;
    }
  }

  // ---------------------------------------------------------------------
  // fuzzyRank and fuzzyFind

  /** `fuzzyRank(things, searchTerms, keys)`: empty for no candidates, an
      error when there is no (key, query) pair to add up, and otherwise
      the rated candidates sorted by descending rating, ties in input order. */
  function FuzzyRank<T>(things: seq<T>, terms: seq<string>, keys: seq<string>, field: Field<T>, sim: Similarity)
    : (r: Result<seq<Ranked<T>>, Error>)
    ensures |things| == 0 ==> r == Success([])
    ensures |things| > 0 ==> (r.Failure? <==> |keys| * |terms| == 0)
    ensures r.Success? && |things| > 0 ==>
      && |r.value| == |things|
      && multiset(r.value) == multiset(Rate(things, terms, keys, field, sim))
      && SortedDesc(r.value)
      && forall v :: WithRating(r.value, v) == WithRating(Rate(things, terms, keys, field, sim), v)
  {
    if |things| == 0 then Success([])
    else if |keys| * |terms| == 0 then Failure(ReduceOfEmptyArray)
    else
      var rated := Rate(things, terms, keys, field, sim);
      SortSorted(rated);
      assert forall v :: WithRating(SortByRating(rated), v) == WithRating(rated, v) by {
        forall v ensures WithRating(SortByRating(rated), v) == WithRating(rated, v) {
          SortStable(rated, v);
        }
      }
      Success(SortByRating(rated))
  }

  /** Every candidate appears in the ranking, each exactly once. */
  lemma RankIsPermutation<T>(things: seq<T>, terms: seq<string>, keys: seq<string>, field: Field<T>, sim: Similarity)
    requires FuzzyRank(things, terms, keys, field, sim).Success?
    ensures multiset(Things(FuzzyRank(things, terms, keys, field, sim).value)) == multiset(things)
  {
    if |things| > 0 {
      var rated := Rate(things, terms, keys, field, sim);
      ThingsOfMultiset(FuzzyRank(things, terms, keys, field, sim).value, rated);
      assert Things(rated) == things;
    }
  }

  function Things<T>(s: seq<Ranked<T>>): (r: seq<T>)
    ensures |r| == |s| && forall i :: 0 <= i < |s| ==> r[i] == s[i].thing
  {
    seq(|s|, i requires 0 <= i < |s| => s[i].thing)
  }

  lemma {:induction false} ThingsAppend<T>(a: seq<Ranked<T>>, b: seq<Ranked<T>>)
    ensures Things(a + b) == Things(a) + Things(b)
  {
  }

  lemma {:induction false} ThingsOfMultiset<T>(s: seq<Ranked<T>>, t: seq<Ranked<T>>)
    requires multiset(s) == multiset(t)
    ensures multiset(Things(s)) == multiset(Things(t))
    decreases |s|
  {
    if |s| > 0 {
      var x := s[0];
      assert x in multiset(t);
      var k :| 0 <= k < |t| && t[k] == x;
      var t' := t[..k] + t[k + 1..];
      assert t == t[..k] + [x] + t[k + 1..];
      assert multiset(t') == multiset(t) - multiset{x};
      assert s == [x] + s[1..];
      assert multiset(s[1..]) == multiset(t');
      ThingsOfMultiset(s[1..], t');
      ThingsAppend([x], s[1..]);
      ThingsAppend(t[..k], [x]);
      ThingsAppend(t[..k] + [x], t[k + 1..]);
      ThingsAppend(t[..k], t[k + 1..]);
    }
  }

  /** The first entry of the ranking is the first candidate with the highest rating. */
  lemma RankHead<T>(things: seq<T>, terms: seq<string>, keys: seq<string>, field: Field<T>, sim: Similarity)
    returns (i: nat)
    requires |things| > 0 && |keys| * |terms| > 0
    ensures IsFirstMax(Rate(things, terms, keys, field, sim), i)
    ensures FuzzyRank(things, terms, keys, field, sim).value[0].thing == things[i]
  {
    i := SortHead(Rate(things, terms, keys, field, sim));
  }

  /** When no pair scores anything, every rating is 0 and the ranking keeps the input order. */
  lemma NoMatchesKeepOrder<T>(things: seq<T>, terms: seq<string>, keys: seq<string>, field: Field<T>, sim: Similarity)
    requires |things| > 0 && |keys| * |terms| > 0
    requires forall t, k, q :: t in things && k in keys && q in terms ==> PairScore(sim, q, field(t, k)) == 0.0
    ensures Things(FuzzyRank(things, terms, keys, field, sim).value) == things
    ensures forall i :: 0 <= i < |things| ==> FuzzyRank(things, terms, keys, field, sim).value[i].rating == 0.0
  {
    var rated := Rate(things, terms, keys, field, sim);
    forall i | 0 <= i < |things| ensures rated[i].rating == 0.0 {
      var xs := Scores(things[i], keys, terms, field, sim);
      forall n | 0 <= n < |xs| ensures xs[n] == 0.0 {
        ScoresArePairScores(things[i], keys, terms, field, sim, n);
        var a, b :| 0 <= a < |keys| && 0 <= b < |terms|
          && xs[n] == PairScore(sim, terms[b], field(things[i], keys[a]));
        assert things[i] in things && keys[a] in keys && terms[b] in terms;
      }
      ZeroSum(xs);
      ReduceIsSum(xs);
    }
    SortConstant(rated, 0.0);
  }

  lemma {:induction false} ZeroSum(xs: seq<real>)
    requires forall n :: 0 <= n < |xs| ==> xs[n] == 0.0
    ensures Sum(xs) == 0.0
    decreases |xs|
  {
    if |xs| > 0 {
      ZeroSum(xs[1..]);
    }
  }

  /** The picker only returns candidates it was given. */
  ghost predicate DrawsFrom<T(!new)>(pick: Picker<T>) {
    forall things, term, attrs, threshold, i ::
      0 <= i < |pick(things, term, attrs, threshold)| ==> pick(things, term, attrs, threshold)[i] in things
  }

  /** `fuzzyFind(things, searchTerm, keys)`: nothing for no candidates,
      otherwise the first hit of the threshold search over the lowercased keys. */
  function FuzzyFind<T>(things: seq<T>, term: string, keys: seq<string>, threshold: real, pick: Picker<T>)
    : (r: Option<T>)
    ensures |things| == 0 ==> r.None?
    ensures |things| > 0 && |pick(things, term, LowerAll(keys), threshold)| > 0 ==>
      r == Some(pick(things, term, LowerAll(keys), threshold)[0])
    ensures |things| > 0 && |pick(things, term, LowerAll(keys), threshold)| == 0 ==> r.None?
  {
    if |things| == 0 then None
    else
      var results := pick(things, term, LowerAll(keys), threshold);
      if |results| == 0 then None else Some(results[0])
  }

  /** `keys.map(key => key.toString().toLowerCase())`. */
  function LowerAll(keys: seq<string>): (r: seq<string>)
    ensures |r| == |keys| && forall i :: 0 <= i < |keys| ==> r[i] == Lower(keys[i])
  {
    seq(|keys|, i requires 0 <= i < |keys| => Lower(keys[i]))
  }

  /** Whatever `fuzzyFind` returns is one of the candidates. */
  lemma FindIsCandidate<T(!new)>(things: seq<T>, term: string, keys: seq<string>, threshold: real, pick: Picker<T>)
    requires DrawsFrom(pick)
    ensures FuzzyFind(things, term, keys, threshold, pick).Some? ==>
      FuzzyFind(things, term, keys, threshold, pick).value in things
  {
    if |things| > 0 && |pick(things, term, LowerAll(keys), threshold)| > 0 {
      assert pick(things, term, LowerAll(keys), threshold)[0] in things;
    }
  }
}
