/** `MainService.getTopThreeEmotions` and its wrapper `getTopThreeEmotionsForCurrentMonth`: the
    month's per-emotion counters reduced to the (at most) three most frequent emotions. */
module EmotionRanking {
  import opened Wrappers
  import opened Emotions

  /** A user's counters for one month, one `Long` per emotion (read-only here). */
  datatype EmotionStatistics = EmotionStatistics(
    joy: int, excitement: int, happiness: int, calm: int,
    depression: int, anxiety: int, sadness: int, anger: int)

  /** One entry of the answer (`EmotionCountDTO`). */
  datatype EmotionCount = EmotionCount(emotion: Emotion, count: int)

  /** How many entries the ranking keeps (`limit(3)`). */
  const RankLimit: nat := 3

  /** The counter the statistics hold for `e`: the value put into the map for key `e`. */
  function Count(stats: EmotionStatistics, e: Emotion): int
  {
    match e
    case Joy => stats.joy
    case Excitement => stats.excitement
    case Happiness => stats.happiness
    case Calm => stats.calm
    case Depression => stats.depression
    case Anxiety => stats.anxiety
    case Sadness => stats.sadness
    case Anger => stats.anger
  }

  predicate SortedByCountDesc(r: seq<EmotionCount>)
  {
    forall i, j :: 0 <= i < j < |r| ==> r[i].count >= r[j].count
  }

  predicate DistinctEmotions(r: seq<EmotionCount>)
  {
    forall i, j :: 0 <= i < j < |r| ==> r[i].emotion != r[j].emotion
  }

  /** Every entry carries exactly the counter the statistics hold for its emotion. */
  predicate CountsMatch(stats: EmotionStatistics, r: seq<EmotionCount>)
  {
    forall i :: 0 <= i < |r| ==> r[i].count == Count(stats, r[i].emotion)
  }

  ghost function EmotionsOf(r: seq<EmotionCount>): set<Emotion>
  {
    set i | 0 <= i < |r| :: r[i].emotion
  }

  /** The emotions whose counter is strictly positive. */
  ghost function PositiveEmotions(stats: EmotionStatistics): set<Emotion>
  {
    set e | e in AllEmotions && Count(stats, e) > 0
  }

  /** What `getTopThreeEmotions` promises, whatever order a `HashMap` hands out tied entries in:
      min(3, #positive) entries, each positive and faithful to the statistics, no emotion twice,
      non-increasing counts, and no omitted positive emotion counted higher than the last entry. */
  ghost predicate IsTopThree(stats: EmotionStatistics, r: seq<EmotionCount>)
  {
    && |r| == (if |PositiveEmotions(stats)| < RankLimit then |PositiveEmotions(stats)| else RankLimit)
    && (forall i :: 0 <= i < |r| ==> r[i].count > 0)
    && CountsMatch(stats, r)
    && DistinctEmotions(r)
    && SortedByCountDesc(r)
    && (forall e :: e in PositiveEmotions(stats) ==>
          e in EmotionsOf(r) || (|r| > 0 && Count(stats, e) <= r[|r| - 1].count))
  }

  /** `r` lists exactly the emotions of `es` with a positive counter, each once and paired with
      that counter. */
  ghost predicate PositiveListOf(stats: EmotionStatistics, es: seq<Emotion>, r: seq<EmotionCount>)
  {
    && (forall i :: 0 <= i < |r| ==> r[i].emotion in es && r[i].count > 0)
    && CountsMatch(stats, r)
    && (forall e :: e in es && Count(stats, e) > 0 ==> e in EmotionsOf(r))
    && DistinctEmotions(r)
  }

  ghost predicate NoRepeats(es: seq<Emotion>)
  {
    forall i, j :: 0 <= i < j < |es| ==> es[i] != es[j]
  }

  /** The `filter(entry -> entry.getValue() > 0)` step over the map's keys `es`, in their order. */
  function PositiveCounts(stats: EmotionStatistics, es: seq<Emotion>): (r: seq<EmotionCount>)
    requires NoRepeats(es)
    ensures PositiveListOf(stats, es, r)
  {
    if |es| == 0 then []
    else
      NoRepeatsTail(es);
      var rest := PositiveCounts(stats, es[1..]);
      var x := EmotionCount(es[0], Count(stats, es[0]));
      PositiveStep(stats, es, rest);
      if x.count > 0 then [x] + rest else rest
  }

  lemma NoRepeatsTail(es: seq<Emotion>)
    requires NoRepeats(es) && |es| > 0
    ensures NoRepeats(es[1..]) && es[0] !in es[1..]
  {
    var tail := es[1..];
    forall i, j | 0 <= i < j < |tail| ensures tail[i] != tail[j] {
      assert tail[i] == es[i + 1] && tail[j] == es[j + 1];
    }
    forall j | 0 <= j < |tail| ensures tail[j] != es[0] {
      assert tail[j] == es[j + 1];
    }
  }

  lemma PositiveStep(stats: EmotionStatistics, es: seq<Emotion>, rest: seq<EmotionCount>)
    requires NoRepeats(es) && |es| > 0 && es[0] !in es[1..]
    requires PositiveListOf(stats, es[1..], rest)
    ensures var x := EmotionCount(es[0], Count(stats, es[0]));
            PositiveListOf(stats, es, if x.count > 0 then [x] + rest else rest)
  {
    var x := EmotionCount(es[0], Count(stats, es[0]));
    if x.count > 0 {
      PositiveKeep(stats, es, rest, x);
    } else {
      PositiveSkip(stats, es, rest);
    }
  }

  lemma PositiveKeep(stats: EmotionStatistics, es: seq<Emotion>, rest: seq<EmotionCount>, x: EmotionCount)
    requires |es| > 0 && es[0] !in es[1..]
    requires PositiveListOf(stats, es[1..], rest)
    requires x == EmotionCount(es[0], Count(stats, es[0])) && x.count > 0
    ensures PositiveListOf(stats, es, [x] + rest)
  {
    var r := [x] + rest;
    ConsEmotions(x, rest);
    forall i | 0 <= i < |rest| ensures rest[i].emotion != x.emotion && rest[i].emotion in es {
      var e := rest[i].emotion;
      assert e in es[1..];
      var k :| 0 <= k < |es[1..]| && es[1..][k] == e;
      assert es[k + 1] == e;
    }
    ConsDistinct(x, rest);
    forall e | e in es && Count(stats, e) > 0 ensures e in EmotionsOf(r) {
      var k :| 0 <= k < |es| && es[k] == e;
      if k > 0 {
        assert es[1..][k - 1] == e;
      }
    }
  }

  lemma PositiveSkip(stats: EmotionStatistics, es: seq<Emotion>, rest: seq<EmotionCount>)
    requires |es| > 0 && Count(stats, es[0]) <= 0
    requires PositiveListOf(stats, es[1..], rest)
    ensures PositiveListOf(stats, es, rest)
  {
    forall i | 0 <= i < |rest| ensures rest[i].emotion in es {
      var e := rest[i].emotion;
      var k :| 0 <= k < |es[1..]| && es[1..][k] == e;
      assert es[k + 1] == e;
    }
    forall e | e in es && Count(stats, e) > 0 ensures e in EmotionsOf(rest) {
      var k :| 0 <= k < |es| && es[k] == e;
      assert k > 0;
      assert es[1..][k - 1] == e;
    }
  }

  lemma ConsEmotions(x: EmotionCount, rest: seq<EmotionCount>)
    ensures EmotionsOf([x] + rest) == {x.emotion} + EmotionsOf(rest)
    ensures forall i :: 0 <= i < |rest| ==> ([x] + rest)[i + 1] == rest[i]
  {
    var r := [x] + rest;
    assert forall i :: 0 <= i < |rest| ==> r[i + 1] == rest[i];
    forall e | e in EmotionsOf(r) ensures e in {x.emotion} + EmotionsOf(rest) {
      var i :| 0 <= i < |r| && r[i].emotion == e;
      if i > 0 { assert r[i] == rest[i - 1]; }
    }
    forall e | e in EmotionsOf(rest) ensures e in EmotionsOf(r) {
      var i :| 0 <= i < |rest| && rest[i].emotion == e;
      assert r[i + 1].emotion == e;
    }
    assert r[0].emotion == x.emotion;
  }

  lemma ConsDistinct(x: EmotionCount, rest: seq<EmotionCount>)
    requires DistinctEmotions(rest)
    requires forall i :: 0 <= i < |rest| ==> rest[i].emotion != x.emotion
    ensures DistinctEmotions([x] + rest)
  {
    var r := [x] + rest;
    forall i, j | 0 <= i < j < |r| ensures r[i].emotion != r[j].emotion {
      assert r[j] == rest[j - 1];
      if i > 0 { assert r[i] == rest[i - 1]; }
    }
  }

  /** Where `x` goes in a list sorted by non-increasing count: before the first entry whose
      count does not exceed its own. */
  function InsertPos(x: EmotionCount, s: seq<EmotionCount>, from: nat): (k: nat)
    requires from <= |s|
    requires forall j :: 0 <= j < from ==> s[j].count > x.count
    ensures from <= k <= |s|
    ensures forall j :: 0 <= j < k ==> s[j].count > x.count
    ensures k < |s| ==> s[k].count <= x.count
    decreases |s| - from
  {
    if from == |s| || s[from].count <= x.count then from else InsertPos(x, s, from + 1)
  }

  lemma InsertSorted(x: EmotionCount, s: seq<EmotionCount>, k: nat)
    requires SortedByCountDesc(s) && k <= |s|
    requires forall j :: 0 <= j < k ==> s[j].count > x.count
    requires k < |s| ==> s[k].count <= x.count
    ensures SortedByCountDesc(s[..k] + [x] + s[k..])
  {
    var r := s[..k] + [x] + s[k..];
    forall i, j | 0 <= i < j < |r| ensures r[i].count >= r[j].count {
      if j < k {
        assert r[i] == s[i] && r[j] == s[j];
      } else if j == k {
        assert r[i] == s[i] && r[j] == x;
      } else if i < k {
        assert r[i] == s[i] && r[j] == s[j - 1];
      } else if i == k {
        assert r[i] == x && r[j] == s[j - 1];
        assert s[k].count >= s[j - 1].count;
      } else {
        assert r[i] == s[i - 1] && r[j] == s[j - 1];
      }
    }
  }

  lemma InsertMultiset(x: EmotionCount, s: seq<EmotionCount>, k: nat)
    requires k <= |s|
    ensures multiset(s[..k] + [x] + s[k..]) == multiset(s) + multiset{x}
  {
    assert s == s[..k] + s[k..];
  }

  function Insert(x: EmotionCount, s: seq<EmotionCount>): (r: seq<EmotionCount>)
    requires SortedByCountDesc(s)
    ensures SortedByCountDesc(r)
    ensures multiset(r) == multiset(s) + multiset{x}
  {
    var k := InsertPos(x, s, 0);
    InsertSorted(x, s, k);
    InsertMultiset(x, s, k);
    s[..k] + [x] + s[k..]
  }

  /** The `sorted` step: a sort by non-increasing count. */
  function SortByCountDesc(s: seq<EmotionCount>): (r: seq<EmotionCount>)
    ensures SortedByCountDesc(r)
    ensures multiset(r) == multiset(s)
  {
    if |s| == 0 then []
    else
      assert s == [s[0]] + s[1..];
      Insert(s[0], SortByCountDesc(s[1..]))
  }

  /** `getTopThreeEmotions`: keep the positive counters, sort them by count, keep the first three.
      The contract leaves the order of tied entries open. */
  function TopThree(stats: EmotionStatistics): (r: seq<EmotionCount>)
    ensures IsTopThree(stats, r)
  {
    AllEmotionsNoRepeats();
    var positives := PositiveCounts(stats, AllEmotions);
    var sorted := SortByCountDesc(positives);
    var r := if |sorted| <= RankLimit then sorted else sorted[..RankLimit];
    TopThreeIsTopThree(stats, positives, sorted, r);
    r
  }

  lemma TopThreeIsTopThree(stats: EmotionStatistics, positives: seq<EmotionCount>,
                           sorted: seq<EmotionCount>, r: seq<EmotionCount>)
    requires NoRepeats(AllEmotions) && PositiveListOf(stats, AllEmotions, positives)
    requires SortedByCountDesc(sorted) && multiset(sorted) == multiset(positives)
    requires r == if |sorted| <= RankLimit then sorted else sorted[..RankLimit]
    ensures IsTopThree(stats, r)
  {
    PermutationFacts(positives, sorted);
    PositiveEmotionsCard(stats, positives);
    assert forall i :: 0 <= i < |r| ==> r[i] == sorted[i];
    forall i | 0 <= i < |r| ensures r[i].count > 0 && r[i].count == Count(stats, r[i].emotion) {
      assert sorted[i] in positives;
    }
    forall e | e in PositiveEmotions(stats)
      ensures e in EmotionsOf(r) || (|r| > 0 && Count(stats, e) <= r[|r| - 1].count)
    {
      var i :| 0 <= i < |positives| && positives[i].emotion == e;
      assert positives[i] in sorted;
      var j :| 0 <= j < |sorted| && sorted[j] == positives[i];
      if j < |r| {
        assert e == r[j].emotion;
      } else {
        assert sorted[j].count <= sorted[|r| - 1].count;
      }
    }
  }

  /** What a rearrangement keeps: the length, the entries, and having no emotion twice. */
  lemma PermutationFacts(s: seq<EmotionCount>, r: seq<EmotionCount>)
    requires multiset(r) == multiset(s) && DistinctEmotions(s)
    ensures |r| == |s|
    ensures forall x :: x in r <==> x in s
    ensures DistinctEmotions(r)
  {
    assert |multiset(r)| == |multiset(s)|;
    forall x ensures x in r <==> x in s {
      assert x in r <==> x in multiset(r);
      assert x in s <==> x in multiset(s);
    }
    PermutationKeepsDistinct(s, r);
  }

  /** The filtered list has one entry per positive emotion. */
  lemma PositiveEmotionsCard(stats: EmotionStatistics, positives: seq<EmotionCount>)
    requires PositiveListOf(stats, AllEmotions, positives)
    ensures EmotionsOf(positives) == PositiveEmotions(stats)
    ensures |PositiveEmotions(stats)| == |positives|
  {
    forall e | e in EmotionsOf(positives) ensures e in PositiveEmotions(stats) {
      var i :| 0 <= i < |positives| && positives[i].emotion == e;
    }
    DistinctCard(positives);
  }

  lemma AllEmotionsNoRepeats()
    ensures NoRepeats(AllEmotions)
  {
    AllEmotionsDistinct();
  }

  /** A rearrangement of a list with no emotion twice has no emotion twice. */
  lemma PermutationKeepsDistinct(s: seq<EmotionCount>, r: seq<EmotionCount>)
    requires multiset(r) == multiset(s)
    requires DistinctEmotions(s)
    ensures DistinctEmotions(r)
  {
    forall i, j | 0 <= i < j < |r| ensures r[i].emotion != r[j].emotion {
      if r[i].emotion == r[j].emotion {
        assert r[i] in multiset(s) && r[j] in multiset(s);
        var a :| 0 <= a < |s| && s[a] == r[i];
        var b :| 0 <= b < |s| && s[b] == r[j];
        assert a == b;
        assert r[i] == r[j];
        MultisetCountTwo(r, i, j);
        MultisetDistinctOnce(s, a);
        assert false;
      }
    }
  }

  /** An element at two positions occurs at least twice. */
  lemma {:induction false} MultisetCountTwo(r: seq<EmotionCount>, i: int, j: int)
    requires 0 <= i < j < |r| && r[i] == r[j]
    ensures multiset(r)[r[i]] >= 2
  {
    assert r == r[..j] + [r[j]] + r[j + 1..];
    assert r[i] in r[..j];
    assert multiset(r) == multiset(r[..j]) + multiset{r[j]} + multiset(r[j + 1..]);
  }

  /** In a list with no emotion twice, every entry occurs once. */
  lemma {:induction false} MultisetDistinctOnce(s: seq<EmotionCount>, a: int)
    requires DistinctEmotions(s) && 0 <= a < |s|
    ensures multiset(s)[s[a]] == 1
  {
    assert s == s[..a] + [s[a]] + s[a + 1..];
    assert multiset(s) == multiset(s[..a]) + multiset{s[a]} + multiset(s[a + 1..]);
    assert s[a] !in s[..a] by {
      forall k | 0 <= k < a ensures s[..a][k] != s[a] {
        assert s[..a][k].emotion == s[k].emotion != s[a].emotion;
      }
    }
    assert s[a] !in s[a + 1..] by {
      forall k | a + 1 <= k < |s| ensures s[k] != s[a] {
        assert s[k].emotion != s[a].emotion;
      }
    }
  }

  /** A list with no emotion twice has as many distinct emotions as entries. */
  lemma {:induction false} DistinctCard(r: seq<EmotionCount>)
    requires DistinctEmotions(r)
    ensures |EmotionsOf(r)| == |r|
    decreases |r|
  {
    if |r| > 0 {
      var init := r[..|r| - 1];
      assert DistinctEmotions(init);
      DistinctCard(init);
      assert EmotionsOf(r) == EmotionsOf(init) + {r[|r| - 1].emotion};
      assert r[|r| - 1].emotion !in EmotionsOf(init);
    } else {
      assert EmotionsOf(r) == {};
    }
  }

  lemma SubsetCard<T>(a: set<T>, b: set<T>)
    requires a <= b
    ensures |a| <= |b|
  {
    assert b == a + (b - a);
  }

  /** Emotions counted strictly more than `v`. */
  ghost function Above(stats: EmotionStatistics, v: int): set<Emotion>
  {
    set e | e in AllEmotions && Count(stats, e) > v
  }

  /** Emotions counted at least `v`. */
  ghost function AtLeast(stats: EmotionStatistics, v: int): set<Emotion>
  {
    set e | e in AllEmotions && Count(stats, e) >= v
  }

  /** The count at position `i` of a top-three answer is the (i+1)-th largest counter: at most
      `i` emotions are counted higher and at least `i + 1` are counted as high. */
  lemma RankOfEntry(stats: EmotionStatistics, r: seq<EmotionCount>, i: int)
    requires IsTopThree(stats, r) && 0 <= i < |r|
    ensures |Above(stats, r[i].count)| <= i
    ensures |AtLeast(stats, r[i].count)| >= i + 1
  {
    var v := r[i].count;
    var before := r[..i];
    forall e | e in Above(stats, v) ensures e in EmotionsOf(before) {
      assert e in PositiveEmotions(stats);
      assert r[i].count >= r[|r| - 1].count;
      assert e in EmotionsOf(r);
      var j :| 0 <= j < |r| && r[j].emotion == e;
      assert r[j].count == Count(stats, e);
      assert before[j].emotion == e;
    }
    assert DistinctEmotions(before);
    DistinctCard(before);
    SubsetCard(Above(stats, v), EmotionsOf(before));
    var upTo := r[..i + 1];
    forall e | e in EmotionsOf(upTo) ensures e in AtLeast(stats, v) {
      var j :| 0 <= j < |upTo| && upTo[j].emotion == e;
      assert r[j].count >= v;
      AllEmotionsComplete(e);
    }
    assert DistinctEmotions(upTo);
    DistinctCard(upTo);
    SubsetCard(EmotionsOf(upTo), AtLeast(stats, v));
  }

  lemma AtLeastWithinAbove(stats: EmotionStatistics, v: int, w: int)
    ensures v < w ==> |AtLeast(stats, w)| <= |Above(stats, v)|
  {
    if v < w {
      SubsetCard(AtLeast(stats, w), Above(stats, v));
    }
  }

  /** At most one count can be the (i+1)-th largest. */
  lemma RankValueUnique(stats: EmotionStatistics, v: int, w: int, i: int)
    requires |Above(stats, v)| <= i < |AtLeast(stats, v)|
    requires |Above(stats, w)| <= i < |AtLeast(stats, w)|
    ensures v == w
  {
    AtLeastWithinAbove(stats, v, w);
    AtLeastWithinAbove(stats, w, v);
  }

  /** Two answers that both meet the top-three contract differ at most in the order of tied
      emotions: they have the same length and the same count at every position. */
  lemma TopThreeUniqueUpToTies(stats: EmotionStatistics, a: seq<EmotionCount>, b: seq<EmotionCount>)
    requires IsTopThree(stats, a) && IsTopThree(stats, b)
    ensures |a| == |b|
    ensures forall i :: 0 <= i < |a| ==> a[i].count == b[i].count
  {
    forall i | 0 <= i < |a| ensures a[i].count == b[i].count {
      RankOfEntry(stats, a, i);
      RankOfEntry(stats, b, i);
      RankValueUnique(stats, a[i].count, b[i].count, i);
    }
  }

  /** When fewer than three emotions are counted at all, every one of them is in the answer. */
  lemma AllPositivesAppear(stats: EmotionStatistics, r: seq<EmotionCount>)
    requires IsTopThree(stats, r)
    requires |PositiveEmotions(stats)| < RankLimit
    ensures EmotionsOf(r) == PositiveEmotions(stats)
  {
    forall e | e in EmotionsOf(r) ensures e in PositiveEmotions(stats) {
      var i :| 0 <= i < |r| && r[i].emotion == e;
      AllEmotionsComplete(e);
    }
    DistinctCard(r);
    var missing := PositiveEmotions(stats) - EmotionsOf(r);
    assert PositiveEmotions(stats) == EmotionsOf(r) + missing;
    assert |missing| == 0;
  }

  lemma OnlyPositive(stats: EmotionStatistics, e: Emotion)
    requires Count(stats, e) > 0
    requires forall e' :: e' != e ==> Count(stats, e') <= 0
    ensures PositiveEmotions(stats) == {e}
  {
    AllEmotionsComplete(e);
    forall e' | e' in PositiveEmotions(stats) ensures e' == e {
      assert Count(stats, e') > 0;
    }
  }

  /** A single counted emotion is the whole answer, with its count. */
  lemma SinglePositive(stats: EmotionStatistics, e: Emotion)
    requires Count(stats, e) > 0
    requires forall e' :: e' != e ==> Count(stats, e') <= 0
    ensures TopThree(stats) == [EmotionCount(e, Count(stats, e))]
  {
    var r := TopThree(stats);
    OnlyPositive(stats, e);
    assert |r| == 1;
    assert Count(stats, r[0].emotion) > 0;
  }

  /** All-zero statistics give an empty ranking, which is still present (not `null`). */
  lemma NoPositiveCounts(stats: EmotionStatistics)
    requires forall e :: Count(stats, e) <= 0
    ensures TopThree(stats) == []
    ensures TopThreeForMonth(Some(stats)) == Some([])
  {
    assert PositiveEmotions(stats) == {};
  }

  /** The statistics of the worked example: joy 5, calm 5, sadness 3, every other emotion 0. */
  const ExampleStats: EmotionStatistics := EmotionStatistics(5, 0, 0, 5, 0, 0, 3, 0)

  lemma ExamplePositives()
    ensures PositiveEmotions(ExampleStats) == {Joy, Calm, Sadness}
  {
    forall e | e in PositiveEmotions(ExampleStats) ensures e in {Joy, Calm, Sadness} {
      assert Count(ExampleStats, e) > 0;
    }
  }

  lemma ExampleExpected()
    ensures IsTopThree(ExampleStats,
              [EmotionCount(Joy, 5), EmotionCount(Calm, 5), EmotionCount(Sadness, 3)])
  {
    var expected := [EmotionCount(Joy, 5), EmotionCount(Calm, 5), EmotionCount(Sadness, 3)];
    ExamplePositives();
    assert expected[0].emotion == Joy && expected[1].emotion == Calm && expected[2].emotion == Sadness;
    assert EmotionsOf(expected) == {Joy, Calm, Sadness};
  }

  /** Worked example: joy 5, calm 5, sadness 3, the rest 0. Every answer meeting the contract
      lists joy and calm (in either order) with 5 each, then sadness with 3. */
  lemma ExampleRanking(r: seq<EmotionCount>)
    requires IsTopThree(ExampleStats, r)
    ensures |r| == 3
    ensures r[0].count == 5 && r[1].count == 5 && r[2] == EmotionCount(Sadness, 3)
    ensures {r[0].emotion, r[1].emotion} == {Joy, Calm}
  {
    var expected := [EmotionCount(Joy, 5), EmotionCount(Calm, 5), EmotionCount(Sadness, 3)];
    ExampleExpected();
    TopThreeUniqueUpToTies(ExampleStats, r, expected);
    assert Count(ExampleStats, r[2].emotion) == 3;
    assert Count(ExampleStats, r[0].emotion) == 5 && Count(ExampleStats, r[1].emotion) == 5;
    assert r[0].emotion != r[1].emotion;
  }

  /** `getTopThreeEmotionsForCurrentMonth`: no statistics record for the month means no ranking
      at all (`null`), which is different from an empty ranking. */
  function TopThreeForMonth(monthStats: Option<EmotionStatistics>): (r: Option<seq<EmotionCount>>)
    ensures r.None? <==> monthStats.None?
    ensures r.Some? ==> IsTopThree(monthStats.value, r.value)
  {
    match monthStats
    case None => None
    case Some(stats) => Some(TopThree(stats))
  }
}
