/** The closed enumeration of emotions a diary can be tagged with, and lookup by constant name
    (Java's `Emotion.valueOf`). */
module Emotions {
  import opened Wrappers

  /** The eight `Emotion` constants; `Name` gives each one's declared (Korean) name. */
  datatype Emotion =
    | Joy | Excitement | Happiness | Calm | Depression | Anxiety | Sadness | Anger

  /** The constant name `Emotion.valueOf` matches against. */
  function Name(e: Emotion): string
  {
    match e
    case Joy => "기쁨"
    case Excitement => "신남"
    case Happiness => "행복"
    case Calm => "평온"
    case Depression => "우울"
    case Anxiety => "불안"
    case Sadness => "슬픔"
    case Anger => "분노"
  }

  /** Every constant, in declaration order (the order of `Emotion.values()`). */
  const AllEmotions: seq<Emotion> :=
    [Joy, Excitement, Happiness, Calm, Depression, Anxiety, Sadness, Anger]

  lemma AllEmotionsComplete(e: Emotion)
    ensures e in AllEmotions
  {
  }

  lemma AllEmotionsDistinct()
    ensures forall i, j :: 0 <= i < j < |AllEmotions| ==> AllEmotions[i] != AllEmotions[j]
  {
  }

  /** Distinct constants have distinct names, so a name identifies at most one constant. */
  lemma NameInjective(a: Emotion, b: Emotion)
    ensures Name(a) == Name(b) ==> a == b
  {
  }

  /** True when `s` is exactly the name of some constant. */
  predicate IsName(s: string)
  {
    exists e: Emotion :: Name(e) == s
  }

  /** Looks `s` up among the constants of `es`, front to back, by exact (case-sensitive) name. */
  function FindByName(es: seq<Emotion>, s: string): (r: Option<Emotion>)
    ensures r.Some? <==> exists i :: 0 <= i < |es| && Name(es[i]) == s
    ensures r.Some? ==> r.value in es && Name(r.value) == s
  {
    if |es| == 0 then None
    else if Name(es[0]) == s then Some(es[0])
    else
      var r := FindByName(es[1..], s);
      assert forall i :: 1 <= i < |es| ==> es[i] == es[1..][i - 1];
      r
  }

  /** `Emotion.valueOf(s)`: the constant whose name is exactly `s`, or `None` where Java throws
      `IllegalArgumentException`. */
  function ValueOf(s: string): (r: Option<Emotion>)
    ensures r.Some? <==> IsName(s)
    ensures r.Some? ==> Name(r.value) == s
    ensures forall e :: Name(e) == s ==> r == Some(e)
  {
    var r := FindByName(AllEmotions, s);
    assert forall e :: Name(e) == s ==> r.Some? by {
      forall e | Name(e) == s
        ensures r.Some?
      {
        AllEmotionsComplete(e);
        var i :| 0 <= i < |AllEmotions| && AllEmotions[i] == e;
      }
    }
    assert r.Some? ==> IsName(s);
    assert forall e :: Name(e) == s ==> r == Some(e) by {
      forall e | Name(e) == s
        ensures r == Some(e)
      {
        NameInjective(r.value, e);
      }
    }
    r
  }
}
