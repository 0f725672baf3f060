/** The text side of `GeminiService`: the two prompts it sends, and the parser that turns the
    model's reply into a list of emotions (`analyzeEmotion` after the HTTP call, `parseEmotion`). */
module GeminiService {
  import opened Wrappers
  import opened Emotions
  import opened JavaText

  /** The emotion-classification prompt: the configured template, a line break, then the diary
      content between double quotes. */
  function EmotionPrompt(template: string, diaryContent: string): (p: string)
    ensures |p| == |template| + |diaryContent| + 3
    ensures p[..|template|] == template
    ensures p[|template|..|template| + 2] == "\n\""
    ensures p[|template| + 2..|p| - 1] == diaryContent
    ensures p[|p| - 1] == '"'
  {
    template + "\n" + "\"" + diaryContent + "\""
  }

  /** With the template fixed, the emotion prompt determines the diary content. */
  lemma EmotionPromptInjective(template: string, c1: string, c2: string)
    requires EmotionPrompt(template, c1) == EmotionPrompt(template, c2)
    ensures c1 == c2
  {
    var p := EmotionPrompt(template, c1);
    assert c1 == p[|template| + 2..|p| - 1];
  }

  /** Label preceding the diary content in the advice prompt ("diary content :"). */
  const DiaryLabel: string := "일기내용 :"
  /** Label preceding the emotion in the advice prompt ("emotion : "). */
  const EmotionLabel: string := "감정 : "

  /** The advice prompt: template, a line break, the labelled diary content and, with nothing in
      between, the labelled emotion. */
  function AdvicePrompt(template: string, diaryContent: string, emotion: string): (p: string)
    ensures |p| == |template| + 1 + |DiaryLabel| + |diaryContent| + |EmotionLabel| + |emotion|
    ensures p[..|template|] == template && p[|template|] == '\n'
    ensures p[|template| + 1..|template| + 1 + |DiaryLabel|] == DiaryLabel
    ensures p[|template| + 1 + |DiaryLabel|..|template| + 1 + |DiaryLabel| + |diaryContent|] == diaryContent
    ensures p[|template| + 1 + |DiaryLabel| + |diaryContent|..|p| - |emotion|] == EmotionLabel
    ensures p[|p| - |emotion|..] == emotion
  {
    template + "\n" + DiaryLabel + diaryContent + EmotionLabel + emotion
  }

  /** Because the content runs straight into the emotion label, the prompt cannot tell where
      the content stops: moving text containing the label between the content and the emotion
      gives the same prompt from two different (content, emotion) pairs. */
  lemma AdvicePromptAmbiguous(template: string, content: string, middle: string, emotion: string)
    ensures AdvicePrompt(template, content + EmotionLabel + middle, emotion)
         == AdvicePrompt(template, content, middle + EmotionLabel + emotion)
    ensures content + EmotionLabel + middle != content
  {
    assert |content + EmotionLabel + middle| > |content|;
  }

  /** `parseEmotion`: `Emotion.valueOf`, with its `IllegalArgumentException` turned into
      `DIARY_ANALYSIS_FAILED`. */
  function ParseEmotion(token: string): (r: Result<Emotion, ErrorCode>)
    ensures r.Success? <==> IsName(token)
    ensures r.Success? ==> Name(r.value) == token
    ensures r.Failure? ==> r.error == DiaryAnalysisFailed
  {
    match ValueOf(token)
    case Some(e) => Success(e)
    case None => Failure(DiaryAnalysisFailed)
  }

  /** The stream `map(this::parseEmotion).collect(toList())`: every token parsed in order; the
      first token that is not an emotion name aborts the whole list. */
  function ParseTokens(tokens: seq<string>): (r: Result<seq<Emotion>, ErrorCode>)
    ensures r.Success? <==> forall k :: 0 <= k < |tokens| ==> IsName(tokens[k])
    ensures r.Success? ==> |r.value| == |tokens|
    ensures r.Success? ==> forall k :: 0 <= k < |tokens| ==> Name(r.value[k]) == tokens[k]
    ensures r.Failure? ==> r.error == DiaryAnalysisFailed
  {
    if |tokens| == 0 then Success([])
    else
      var rest := tokens[1..];
      assert forall k :: 1 <= k < |tokens| ==> tokens[k] == rest[k - 1];
      match ParseEmotion(tokens[0])
      case Failure(err) => Failure(err)
      case Success(e) =>
        match ParseTokens(rest)
        case Failure(err) => Failure(err)
        case Success(es) => Success([e] + es)
  }

  /** The tokens `analyzeEmotion` parses: the reply trimmed, then split on `,\s*`. */
  function ReplyTokens(replyText: string): (ts: seq<string>)
    ensures forall k :: 0 <= k < |ts| ==> ',' !in ts[k]
    ensures |ts| > 0 ==> ts[0] == [] || !IsTrimSpace(ts[0][0])
  {
    var t := Trim(replyText);
    var ts := Split(t);
    assert |ts| > 0 ==> ts[0] == Fields(t)[0];
    ts
  }

  /** `analyzeEmotion` from the reply text on: one emotion per token, in token order, or
      `DIARY_ANALYSIS_FAILED` when any token is not exactly an emotion name. */
  function AnalyzeReply(replyText: string): (r: Result<seq<Emotion>, ErrorCode>)
    ensures r.Success? <==> forall k :: 0 <= k < |ReplyTokens(replyText)| ==> IsName(ReplyTokens(replyText)[k])
    ensures r.Success? ==> |r.value| == |ReplyTokens(replyText)|
    ensures r.Success? ==> forall k :: 0 <= k < |r.value| ==> Name(r.value[k]) == ReplyTokens(replyText)[k]
    ensures r.Failure? ==> r.error == DiaryAnalysisFailed
  {
    ParseTokens(ReplyTokens(replyText))
  }

  /** The names of `es`, in order. */
  function Names(es: seq<Emotion>): (ns: seq<string>)
    ensures |ns| == |es| && forall k :: 0 <= k < |es| ==> ns[k] == Name(es[k])
  {
    seq(|es|, k requires 0 <= k < |es| => Name(es[k]))
  }

  /** A reply listing `es` with `seps[k]` between the `k`-th and the next name, as the prompt asks
      the model to answer. */
  function FormatEmotions(es: seq<Emotion>, seps: seq<string>): string
    requires |es| == |seps| + 1
  {
    Interleave(Names(es), seps)
  }

  /** Every name is two characters, neither a trim character, and has no comma. */
  lemma NameIsPlainToken(e: Emotion)
    ensures |Name(e)| == 2 && ',' !in Name(e)
    ensures !IsTrimSpace(Name(e)[0]) && !IsTrimSpace(Name(e)[1])
  {
  }

  /** A listing of emotion names is trimmed already and splits back into the names. */
  lemma FormattedTokens(es: seq<Emotion>, seps: seq<string>)
    requires |es| == |seps| + 1 && AllSeparators(seps)
    ensures ReplyTokens(FormatEmotions(es, seps)) == Names(es)
  {
    var ns := Names(es);
    forall k | 0 <= k < |ns| ensures ',' !in ns[k] && |ns[k]| == 2 && !IsTrimSpace(ns[k][0]) {
      NameIsPlainToken(es[k]);
    }
    assert Separable(ns);
    var text := Interleave(ns, seps);
    InterleaveEnds(ns, seps);
    NameIsPlainToken(es[|es| - 1]);
    assert text[0] == ns[0][0];
    assert text[|text| - 1] == ns[|ns| - 1][1];
    TrimOfTrimmed(text);
    SplitOfInterleave(ns, seps);
  }

  /** Parsing the names of `es` gives `es` back. */
  lemma ParseNames(es: seq<Emotion>)
    ensures ParseTokens(Names(es)) == Success(es)
  {
    var ns := Names(es);
    assert forall k :: 0 <= k < |ns| ==> IsName(ns[k]);
    var r := ParseTokens(ns);
    assert r.Success? && |r.value| == |es|;
    forall k | 0 <= k < |es| ensures r.value[k] == es[k] {
      NameInjective(r.value[k], es[k]);
    }
    assert r.value == es;
  }

  /** Round trip: parsing a reply that lists emotions with a comma and any whitespace between
      each two gives the same emotions back, in order and with repetitions. */
  lemma AnalyzeFormatted(es: seq<Emotion>, seps: seq<string>)
    requires |es| == |seps| + 1 && AllSeparators(seps)
    ensures AnalyzeReply(FormatEmotions(es, seps)) == Success(es)
  {
    FormattedTokens(es, seps);
    ParseNames(es);
  }

  /** Leading and trailing whitespace around the reply never changes the outcome. */
  lemma AnalyzeIgnoresPadding(pre: string, replyText: string, post: string)
    requires forall k :: 0 <= k < |pre| ==> IsTrimSpace(pre[k])
    requires forall k :: 0 <= k < |post| ==> IsTrimSpace(post[k])
    ensures AnalyzeReply(pre + replyText + post) == AnalyzeReply(replyText)
  {
    TrimIgnoresPadding(pre, replyText, post);
  }

  /** Two tokens with a separator between them. */
  lemma InterleaveTwo(a: string, b: string, sep: string)
    ensures Interleave([a, b], [sep]) == a + sep + b
  {
    assert [a, b][1..] == [b];
  }

  /** Three tokens with a separator between each two. */
  lemma InterleaveThree(a: string, b: string, c: string, s1: string, s2: string)
    ensures Interleave([a, b, c], [s1, s2]) == a + s1 + b + s2 + c
  {
    assert Interleave([a, b, c], [s1, s2]) == a + s1 + Interleave([b, c], [s2]) by {
      assert [a, b, c][1..] == [b, c];
      assert [s1, s2][1..] == [s2];
    }
    assert Interleave([b, c], [s2]) == b + s2 + c by {
      InterleaveTwo(b, c, s2);
    }
    assert a + s1 + (b + s2 + c) == a + s1 + b + s2 + c;
  }

  /** A reply naming two emotions with one separator parses as those two, first one first. */
  lemma AnalyzeTwo(a: Emotion, b: Emotion, sep: string)
    requires IsSeparator(sep)
    ensures AnalyzeReply(Name(a) + sep + Name(b)) == Success([a, b])
  {
    var es := [a, b];
    assert FormatEmotions(es, [sep]) == Name(a) + sep + Name(b) by {
      var ns := Names(es);
      assert ns[0] == Name(a) && ns[1] == Name(b);
      assert ns == [Name(a), Name(b)];
      InterleaveTwo(Name(a), Name(b), sep);
    }
    assert AnalyzeReply(FormatEmotions(es, [sep])) == Success(es) by {
      assert AllSeparators([sep]);
      AnalyzeFormatted(es, [sep]);
    }
  }

  /** A reply naming three emotions, with possibly different separators, parses as those three. */
  lemma AnalyzeThree(a: Emotion, b: Emotion, c: Emotion, s1: string, s2: string)
    requires IsSeparator(s1) && IsSeparator(s2)
    ensures AnalyzeReply(Name(a) + s1 + Name(b) + s2 + Name(c)) == Success([a, b, c])
  {
    var es := [a, b, c];
    assert FormatEmotions(es, [s1, s2]) == Name(a) + s1 + Name(b) + s2 + Name(c) by {
      var ns := Names(es);
      assert ns[0] == Name(a) && ns[1] == Name(b) && ns[2] == Name(c);
      assert ns == [Name(a), Name(b), Name(c)];
      InterleaveThree(Name(a), Name(b), Name(c), s1, s2);
    }
    assert AnalyzeReply(FormatEmotions(es, [s1, s2])) == Success(es) by {
      assert AllSeparators([s1, s2]);
      AnalyzeFormatted(es, [s1, s2]);
    }
  }

  /** A reply naming two emotions comes back as those two, first one first. */
  lemma TwoEmotionsExample(replyText: string)
    requires replyText == "기쁨, 불안"
    ensures AnalyzeReply(replyText) == Success([Joy, Anxiety])
  {
    assert IsSeparator(", ");
    assert replyText == Name(Joy) + ", " + Name(Anxiety);
    AnalyzeTwo(Joy, Anxiety, ", ");
  }

  /** Separators may differ within one reply: each is a comma with any whitespace after it. */
  lemma MixedSeparatorsExample(replyText: string)
    requires replyText == "기쁨, 불안,슬픔"
    ensures AnalyzeReply(replyText) == Success([Joy, Anxiety, Sadness])
  {
    assert IsSeparator(", ") && IsSeparator(",");
    assert replyText == Name(Joy) + ", " + Name(Anxiety) + "," + Name(Sadness);
    AnalyzeThree(Joy, Anxiety, Sadness, ", ", ",");
  }

  /** Repeated names are kept, not merged. */
  lemma DuplicatesKeptExample(replyText: string)
    requires replyText == "기쁨,기쁨"
    ensures AnalyzeReply(replyText) == Success([Joy, Joy])
  {
    assert IsSeparator(",");
    assert replyText == Name(Joy) + "," + Name(Joy);
    AnalyzeTwo(Joy, Joy, ",");
  }

  /** A reply without commas or surrounding blanks is a single token. */
  lemma SingleTokenReply(t: string)
    requires ',' !in t
    requires t == [] || (!IsTrimSpace(t[0]) && !IsTrimSpace(t[|t| - 1]))
    ensures ReplyTokens(t) == [t]
  {
    TrimOfTrimmed(t);
  }

  /** Only two-character texts can be emotion names. */
  lemma NotNameUnlessTwoChars(s: string)
    requires |s| != 2
    ensures !IsName(s)
  {
    forall e: Emotion ensures Name(e) != s {
      NameIsPlainToken(e);
    }
  }

  /** A label outside the enumeration fails the whole call. */
  lemma UnknownLabelExample(replyText: string)
    requires replyText == "happyyy"
    ensures AnalyzeReply(replyText) == Failure(DiaryAnalysisFailed)
  {
    assert |replyText| == 7 && replyText[0] == 'h' && replyText[6] == 'y';
    assert forall k :: 0 <= k < |replyText| ==> replyText[k] != ',';
    SingleTokenReply(replyText);
    NotNameUnlessTwoChars(replyText);
  }

  /** Two comma-free tokens around one separator, the first not starting and the second neither
      starting nor ending with blanks, are exactly the reply's tokens. */
  lemma TwoTokens(t1: string, t2: string, sep: string)
    requires IsSeparator(sep)
    requires |t1| >= 1 && |t2| >= 1 && ',' !in t1 && ',' !in t2
    requires !IsTrimSpace(t1[0]) && !IsTrimSpace(t2[0]) && !IsTrimSpace(t2[|t2| - 1])
    ensures ReplyTokens(t1 + sep + t2) == [t1, t2]
  {
    var text := t1 + sep + t2;
    assert Trim(text) == text by {
      assert text[0] == t1[0] && text[|text| - 1] == t2[|t2| - 1];
      TrimOfTrimmed(text);
    }
    assert Split(text) == [t1, t2] by {
      SplitTwo(t1, t2, sep);
    }
  }

  lemma SplitTwo(t1: string, t2: string, sep: string)
    requires IsSeparator(sep)
    requires |t2| >= 1 && ',' !in t1 && ',' !in t2 && !IsRegexSpace(t2[0])
    ensures Split(t1 + sep + t2) == [t1, t2]
  {
    InterleaveTwo(t1, t2, sep);
    assert Separable([t1, t2]);
    assert AllSeparators([sep]);
    SplitOfInterleave([t1, t2], [sep]);
  }

  /** Space before a comma is not consumed by the separator: the first token keeps it, is no
      emotion name, and the whole reply fails. */
  lemma SpaceBeforeComma(a: Emotion, b: Emotion, sep: string)
    requires IsSeparator(sep)
    ensures AnalyzeReply(Name(a) + " " + sep + Name(b)) == Failure(DiaryAnalysisFailed)
  {
    var first := Name(a) + " ";
    NameIsPlainToken(a);
    NameIsPlainToken(b);
    assert |first| == 3 && first[0] == Name(a)[0] && first[1] == Name(a)[1] && first[2] == ' ';
    TwoTokens(first, Name(b), sep);
    NotNameUnlessTwoChars(first);
  }

  /** `"기쁨 ,불안"` fails, because its first token is `"기쁨 "`. */
  lemma SpaceBeforeCommaExample(replyText: string)
    requires replyText == "기쁨 ,불안"
    ensures AnalyzeReply(replyText) == Failure(DiaryAnalysisFailed)
  {
    assert IsSeparator(",");
    assert replyText == Name(Joy) + " " + "," + Name(Anxiety);
    SpaceBeforeComma(Joy, Anxiety, ",");
  }

  /** An empty (or all-blank) reply is one empty token, which is no emotion name. */
  lemma BlankReplyFails(replyText: string)
    requires forall k :: 0 <= k < |replyText| ==> IsTrimSpace(replyText[k])
    ensures AnalyzeReply(replyText) == Failure(DiaryAnalysisFailed)
  {
    TrimIgnoresPadding(replyText, "", "");
    assert replyText + "" + "" == replyText;
    TrimOfTrimmed("");
    assert ReplyTokens(replyText) == [""];
    assert !IsName("");
  }

  /** A reply made only of commas has no tokens left once trailing empty ones are dropped, so
      it succeeds with no emotions at all. */
  lemma CommasOnlyReply(replyText: string)
    requires |replyText| >= 1
    requires forall k :: 0 <= k < |replyText| ==> replyText[k] == ','
    ensures AnalyzeReply(replyText) == Success([])
  {
    TrimOfTrimmed(replyText);
    assert replyText[0] == ',';
    FieldsOfCommas(replyText);
    SplitOfEmptyFields(replyText);
  }
}
