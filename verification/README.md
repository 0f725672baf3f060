# Mango Diary main page and emotion parsing, modelled in Dafny

This project models the two pieces of logic in the diary backend's service layer:

- **Emotion classification reply parsing** (`GeminiService.analyzeEmotion` after the HTTP
  call, plus `parseEmotion`). The language model's reply is trimmed with Java's `String.trim`
  and split with `split(",\\s*")`. Each token is then looked up with `Emotion.valueOf`. One
  unknown token fails the whole call with `DIARY_ANALYSIS_FAILED`. The two prompt builders are
  modelled too.
- **Main page assembly** (`MainService`). It covers:
  - `getTopThreeEmotions`: drop zero counters, sort by count descending, keep three;
  - the "no statistics means `null`" wrapper around it;
  - the get-or-create of the day's shared `TodayComment`;
  - `getMainPage`, which composes them.

Modules: `Wrappers` (Option, Result, error codes), `Emotions` (the enumeration and `valueOf`),
`JavaText` (Java `trim` and regex `split` semantics), `GeminiService`, `EmotionRanking` and
`MainService`.

Modelling choices:

- Repositories are explicit inputs. A lookup is an `Option`, and the today-comment table is a
  `map<Date, TodayComment>` that is passed in and returned.
- The clock is a parameter: `today` and the month's statistics lookup.
- `existsByDate(today)` and `findByDate(today)` are two separate reads in the source. So
  `GetTodayComment` takes the existence answer as its own parameter, which lets the
  `TODAY_COMMENT_NOT_FOUND` branch be expressed. `ConsistentStoreNeverFails` shows that branch
  is unreachable when both reads see the same table.
- The source builds the ranking from a `HashMap`, so tied entries come out in an arbitrary
  order. The contract `IsTopThree` leaves ties open. The function settles ties in some fixed
  order, which its contract does not promise. `TopThreeUniqueUpToTies` proves that every result meeting the contract has the
  same length and the same count at every position.
- `Emotion.java` is not part of this model. The eight constants are the ones
  `MainService.java:77-84` reads: 기쁨, 신남, 행복, 평온, 우울, 불안, 슬픔, 분노. In Dafny they
  are `Joy`, `Excitement`, `Happiness`, `Calm`, `Depression`, `Anxiety`, `Sadness`, `Anger`, and
  `Name` gives each constant's Java name.
- `TodayComment.java` is not part of this model either. The model assumes `new
  TodayComment(user)` records the current date and no comment text. The later lookup by date
  relies on the date being recorded.

Behaviour the source has that a reader may not expect, each proved as a lemma:

- A reply of only commas (`",,"`) splits into no tokens, because Java drops trailing empty
  strings. The call then succeeds with an empty emotion list (`CommasOnlyReply`). An empty or
  blank reply is one empty token, so it fails (`BlankReplyFails`).
- Whitespace before a comma is kept in the token. `"기쁨 ,불안"` therefore fails
  (`SpaceBeforeComma`, `SpaceBeforeCommaExample`).
- There is one today comment per date, and it is shared by all users. It belongs to whoever
  opened the main page first that day, and later visitors get that same comment
  (`TodayCommentIdempotent`). On that first visit the page shows no comment text
  (`FirstVisitOfDay`).
- The advice prompt runs the diary content straight into the emotion label. So two different
  (content, emotion) pairs can give the same prompt (`AdvicePromptAmbiguous`).

## Model

| member | source | states |
|---|---|---|
| Emotions.ValueOf | src/main/java/com/mango/diary/diary/service/GeminiService.java:68 | `Emotion.valueOf` finds a constant exactly when the text is some constant's name, and that constant has exactly this name; no other constant has it |
| JavaText.Trim | src/main/java/com/mango/diary/diary/service/GeminiService.java:55 | the trimmed text neither starts nor ends with a character at or below U+0020, and it equals every slice of the input that neither starts nor ends with such a character and outside which only such characters lie |
| JavaText.TrimmedSliceExists | src/main/java/com/mango/diary/diary/service/GeminiService.java:55 | every text has such a slice, so `trim` removes exactly the characters at or below U+0020 at either end and nothing else |
| JavaText.TrimIgnoresPadding | src/main/java/com/mango/diary/diary/service/GeminiService.java:55 | adding trim characters before or after a text does not change its trim |
| JavaText.Fields | src/main/java/com/mango/diary/diary/service/GeminiService.java:57 | the substrings between matches of `,\s*`: at least one field, none contains a comma, none after the first starts with whitespace, the first is a prefix of the text, and a text without a comma is its own single field |
| JavaText.FieldsCoverText | src/main/java/com/mango/diary/diary/service/GeminiService.java:57 | the fields, with a comma followed by whitespace put back between each two (each gap its own), make up the text again, so the fields are exactly the text between the matches of `,\s*` |
| JavaText.FieldsOfInterleave | src/main/java/com/mango/diary/diary/service/GeminiService.java:57 | conversely, any comma-free tokens (none after the first starting with whitespace) with a comma-and-whitespace separator between each two are the fields of the resulting text; with `FieldsCoverText` this fixes the fields uniquely |
| JavaText.Split | src/main/java/com/mango/diary/diary/service/GeminiService.java:57 | `split(",\\s*")` returns the whole text when there is no comma (even an empty one); otherwise it returns the fields with the trailing empty ones dropped: a prefix of the fields, whose last token is non-empty and after which only empty fields follow |
| JavaText.SplitOfInterleave | src/main/java/com/mango/diary/diary/service/GeminiService.java:57 | round trip: tokens with a comma plus any whitespace between each two (the separators may differ) split back into the same tokens, provided none has a comma, none after the first starts with whitespace, and the last is non-empty |
| GeminiService.EmotionPrompt | src/main/java/com/mango/diary/diary/service/GeminiService.java:47 | the prompt is the template, a line break and an opening quote, the diary content, then a closing quote |
| GeminiService.EmotionPromptInjective | src/main/java/com/mango/diary/diary/service/GeminiService.java:47 | with a fixed template, the prompt determines the diary content |
| GeminiService.AdvicePrompt | src/main/java/com/mango/diary/diary/service/GeminiService.java:95-97 | the advice prompt is the template, a line break, the diary-content label, the content, the emotion label and the emotion, with no separator between the content and the emotion label |
| GeminiService.AdvicePromptAmbiguous | src/main/java/com/mango/diary/diary/service/GeminiService.java:95-97 | for every template, content, text and emotion, content + "감정 : " + text with the emotion gives the same prompt as the content with text + "감정 : " + emotion, although the two contents differ |
| GeminiService.ParseEmotion | src/main/java/com/mango/diary/diary/service/GeminiService.java:66-72 | succeeds exactly when the token is an emotion name, returning the constant with that exact name; otherwise fails with DIARY_ANALYSIS_FAILED |
| GeminiService.ParseTokens | src/main/java/com/mango/diary/diary/service/GeminiService.java:59-61 | succeeds exactly when every token is an emotion name; then it returns one emotion per token, in order, each named by its token; otherwise it fails with DIARY_ANALYSIS_FAILED and returns no list |
| GeminiService.AnalyzeReply | src/main/java/com/mango/diary/diary/service/GeminiService.java:55-61 | the same all-or-nothing statement over the tokens of the trimmed and split reply |
| GeminiService.AnalyzeFormatted | src/main/java/com/mango/diary/diary/service/GeminiService.java:55-61 | round trip: a reply listing any non-empty emotion sequence, with a comma and any whitespace between each two names (differing from gap to gap if need be), parses back to exactly that sequence, repetitions included |
| GeminiService.AnalyzeIgnoresPadding | src/main/java/com/mango/diary/diary/service/GeminiService.java:55 | whitespace before or after the reply never changes the outcome |
| GeminiService.AnalyzeTwo | src/main/java/com/mango/diary/diary/service/GeminiService.java:55-61 | two emotion names joined by a comma and optional whitespace parse to those two emotions, first one first |
| GeminiService.AnalyzeThree | src/main/java/com/mango/diary/diary/service/GeminiService.java:55-61 | three emotion names with a comma-and-whitespace separator between each two, the separators possibly different, parse to those three emotions in order |
| GeminiService.TwoEmotionsExample | src/main/java/com/mango/diary/diary/service/GeminiService.java:55-61 | `"기쁨, 불안"` parses to `[Joy, Anxiety]` |
| GeminiService.MixedSeparatorsExample | src/main/java/com/mango/diary/diary/service/GeminiService.java:57-61 | `"기쁨, 불안,슬픔"` parses to `[Joy, Anxiety, Sadness]`: separators with and without a space mix freely |
| GeminiService.DuplicatesKeptExample | src/main/java/com/mango/diary/diary/service/GeminiService.java:59-61 | `"기쁨,기쁨"` parses to `[Joy, Joy]`: no deduplication |
| GeminiService.UnknownLabelExample | src/main/java/com/mango/diary/diary/service/GeminiService.java:66-72 | `"happyyy"` fails with DIARY_ANALYSIS_FAILED |
| GeminiService.SpaceBeforeComma | src/main/java/com/mango/diary/diary/service/GeminiService.java:55-61 | for any two emotions and any separator, a space between the first name and the comma stays in the first token, so the whole reply fails with DIARY_ANALYSIS_FAILED |
| GeminiService.SpaceBeforeCommaExample | src/main/java/com/mango/diary/diary/service/GeminiService.java:57 | `"기쁨 ,불안"` fails, because the space before the comma stays in the first token |
| GeminiService.BlankReplyFails | src/main/java/com/mango/diary/diary/service/GeminiService.java:55-57 | an empty or blank reply fails with DIARY_ANALYSIS_FAILED |
| GeminiService.CommasOnlyReply | src/main/java/com/mango/diary/diary/service/GeminiService.java:57 | a reply made only of commas succeeds with an empty emotion list |
| EmotionRanking.PositiveCounts | src/main/java/com/mango/diary/diary/service/MainService.java:86-87 | the filter keeps exactly the emotions with a positive counter, each paired with its counter, and no emotion twice |
| EmotionRanking.SortByCountDesc | src/main/java/com/mango/diary/diary/service/MainService.java:88 | the sort output is non-increasing by count and is a permutation of its input |
| EmotionRanking.TopThree | src/main/java/com/mango/diary/diary/service/MainService.java:75-92 | meets IsTopThree. The result has min(3, number of positive emotions) entries. Each entry is positive and carries its emotion's exact counter, and no emotion appears twice. Counts are non-increasing. No omitted positive emotion is counted higher than the last entry |
| EmotionRanking.TopThreeUniqueUpToTies | src/main/java/com/mango/diary/diary/service/MainService.java:86-89 | any two results meeting IsTopThree have the same length and the same count at each position, so they differ only in the order of tied emotions |
| EmotionRanking.AllPositivesAppear | src/main/java/com/mango/diary/diary/service/MainService.java:86-89 | with fewer than three positive emotions, the result holds exactly those emotions |
| EmotionRanking.SinglePositive | src/main/java/com/mango/diary/diary/service/MainService.java:86-91 | with exactly one positive counter, the result is that one emotion with its count |
| EmotionRanking.NoPositiveCounts | src/main/java/com/mango/diary/diary/service/MainService.java:50-55 | all-zero statistics give an empty ranking, and the month wrapper returns that empty ranking, not absent |
| EmotionRanking.ExampleRanking | src/main/java/com/mango/diary/diary/service/MainService.java:76-91 | for joy 5, calm 5, sadness 3 and the rest 0, any conforming result is joy and calm (either order) with 5 each, then sadness with 3 |
| EmotionRanking.TopThreeForMonth | src/main/java/com/mango/diary/diary/service/MainService.java:50-55 | absent exactly when there is no statistics record for the month; otherwise a top-three ranking of that record |
| MainService.GetTodayComment | src/main/java/com/mango/diary/diary/service/MainService.java:63-73 | fails with TODAY_COMMENT_NOT_FOUND exactly when the existence check said yes but the lookup misses. When there is no comment yet, it stores a new comment owned by the user, with no text, and leaves every other date alone. When one exists, it returns it and leaves the table unchanged. On success the table maps today to the returned comment |
| MainService.ConsistentStoreNeverFails | src/main/java/com/mango/diary/diary/service/MainService.java:65-71 | when the existence check and the lookup read the same table, the call succeeds |
| MainService.TodayCommentIdempotent | src/main/java/com/mango/diary/diary/service/MainService.java:63-73 | a second call on the same date, by any user, returns the comment the first call produced and leaves the table as it was |
| MainService.GetMainPage | src/main/java/com/mango/diary/diary/service/MainService.java:37-48 | fails with USER_NOT_FOUND when the user lookup is empty, before anything else. Otherwise it fails only with TODAY_COMMENT_NOT_FOUND from the comment step. On success the table and the comment text are those `GetTodayComment` gives on the input table: when the existence check says a comment exists, the table is unchanged and that stored comment's text is shown; otherwise today maps to a new comment owned by the user, every other date is left as it was, and no text is shown. A missing latest diary gives an absent diary field, not an error; a present one is copied field by field. The emotions field is absent exactly when there are no monthly statistics, and otherwise a top-three ranking |
| MainService.FirstVisitOfDay | src/main/java/com/mango/diary/diary/service/MainService.java:37-48 | on the first visit of a day the page shows no comment text, and the table gains exactly one entry, for today, owned by the visitor |

## Left out

- The HTTP exchange with the language-model endpoint is not modelled: the URL and key query parameter, the headers and `RestTemplate` (GeminiService.java:44-45, 75-88). It is network I/O against an external API. The reply text is an input to `AnalyzeReply`.
- Navigation of the response body (`candidates().get(0).content().parts().get(0).text()`) is not modelled. Missing fields there are null dereferences in the source; the model starts from the extracted text.
- `getAiComment` returns the model's text untouched. It is an external output with no stated behaviour, so only its prompt (`AdvicePrompt`) is modelled.
- Spring repositories are replaced by `Option` lookups and an explicit map. The derived queries themselves are not modelled, for example `findFirstByUserIdOrderByDateDesc` choosing the latest diary.
- `LocalDate.now()` and `YearMonth.now()` are not read: the date and the month's statistics lookup are parameters.
- The check-then-act race on today's comment is a concurrency issue and is outside the sequential model. Concurrent first visits can both create a comment for the same date. The map-based table holds at most one comment per date by construction.
- `@Transactional`, dependency injection and `@Value` configuration are not modelled; the prompt templates are plain string parameters.
- Counters are unbounded integers. The source's `Long` values are only compared, never added, so 64-bit overflow cannot arise.
- `getTodayComment` reads the clock twice (MainService.java:65 and 69), so a date change between the existence check and the lookup is a realistic way to reach TODAY_COMMENT_NOT_FOUND. The model takes one `today`; the separate `existsToday` answer can express that outcome but does not name its cause.
- The eight `Long` counter getters are assumed never to return null. In the source a null would throw while unboxing at MainService.java:87; the model's counters are plain integers.
- The `BaseException` class is not modelled. An error is represented by its error code in a `Result`.
