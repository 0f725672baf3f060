/** `MainService`: the main page a user sees, assembled from today's shared comment, the user's
    latest diary and the month's top emotions. Repositories become explicit inputs: lookups
    are `Option` values and the today-comment table is a map from date to comment that the
    operations take and give back. */
module MainService {
  import opened Wrappers
  import opened Emotions
  import opened EmotionRanking

  /** A calendar day (`LocalDate`), as a day number; the model only compares dates. */
  type Date = int

  datatype User = User(id: int)

  /** One stored comment per date, owned by the user whose visit created it. The text is
      filled in elsewhere; a freshly created comment has none (`null`). */
  datatype TodayComment = TodayComment(owner: User, date: Date, comment: Option<string>)

  datatype Diary = Diary(id: int, content: string, date: Date, emotion: Emotion)

  datatype DiaryResponse = DiaryResponse(id: int, content: string, date: Date, emotion: Emotion)

  datatype MainPageResponse = MainPageResponse(
    todayComment: Option<string>,
    latestDiary: Option<DiaryResponse>,
    topEmotions: Option<seq<EmotionCount>>)

  /** The today-comment table, keyed by date. */
  type CommentStore = map<Date, TodayComment>

  /** `getTodayComment`. `existsToday` is the answer `existsByDate(today)` gave; the lookup
      `findByDate(today)` then reads `store`. On success the result is the comment and the
      table afterwards. */
  function GetTodayComment(store: CommentStore, today: Date, existsToday: bool, user: User)
    : (r: Result<(TodayComment, CommentStore), ErrorCode>)
    ensures r.Failure? <==> existsToday && today !in store
    ensures r.Failure? ==> r.error == TodayCommentNotFound
    ensures r.Success? ==> today in r.value.1 && r.value.1[today] == r.value.0
    ensures r.Success? && !existsToday ==>
              r.value.0.owner == user && r.value.0.date == today && r.value.0.comment.None?
    ensures r.Success? && !existsToday ==>
              forall d :: d != today ==> (d in r.value.1 <==> d in store)
                                         && (d in store ==> r.value.1[d] == store[d])
    ensures r.Success? && existsToday ==> r.value.1 == store
  {
    if !existsToday then
      var created := TodayComment(user, today, None);
      Success((created, store[today := created]))
    else if today in store then
      Success((store[today], store))
    else
      Failure(TodayCommentNotFound)
  }

  /** With the existence check and the lookup reading the same table, the call never fails. */
  lemma ConsistentStoreNeverFails(store: CommentStore, today: Date, user: User)
    ensures GetTodayComment(store, today, today in store, user).Success?
  {
  }

  /** Idempotence: after one call has made sure today's comment exists, a second call on the
      same date, by any user, returns that same comment and leaves the table as it is. So the
      comment is shared by all users; its owner is whoever asked first that day. */
  lemma TodayCommentIdempotent(store: CommentStore, today: Date, first: User, second: User)
    ensures var r1 := GetTodayComment(store, today, today in store, first);
            r1.Success? &&
            GetTodayComment(r1.value.1, today, today in r1.value.1, second) == r1
  {
  }

  /** `getLatestDiaryResponse`: the response carries the diary's fields. */
  function ToDiaryResponse(d: Diary): DiaryResponse
  {
    DiaryResponse(d.id, d.content, d.date, d.emotion)
  }

  /** `getMainPage`. `userLookup` is `findById(userId)`, `latestDiary` is
      `findFirstByUserIdOrderByDateDesc(userId)` and `monthStats` is the statistics lookup for the
      current month; `today` and `existsToday` feed `GetTodayComment`. */
  function GetMainPage(userLookup: Option<User>, store: CommentStore, today: Date,
                       existsToday: bool, latestDiary: Option<Diary>,
                       monthStats: Option<EmotionStatistics>)
    : (r: Result<(MainPageResponse, CommentStore), ErrorCode>)
    ensures userLookup.None? ==> r == Failure(UserNotFound)
    ensures r.Failure? <==> userLookup.None? || (existsToday && today !in store)
    ensures r.Failure? && userLookup.Some? ==> r.error == TodayCommentNotFound
    ensures r.Success? ==> today in r.value.1 && r.value.0.todayComment == r.value.1[today].comment
    ensures r.Success? ==>
              var g := GetTodayComment(store, today, existsToday, userLookup.value);
              g.Success? && r.value.1 == g.value.1 && r.value.0.todayComment == g.value.0.comment
    ensures r.Success? && existsToday ==>
              r.value.1 == store && r.value.0.todayComment == store[today].comment
    ensures r.Success? && !existsToday ==>
              r.value.1 == store[today := TodayComment(userLookup.value, today, None)]
              && r.value.0.todayComment.None?
    ensures r.Success? ==> (r.value.0.latestDiary.None? <==> latestDiary.None?)
    ensures r.Success? && latestDiary.Some? ==>
              r.value.0.latestDiary.value.id == latestDiary.value.id
              && r.value.0.latestDiary.value.content == latestDiary.value.content
              && r.value.0.latestDiary.value.date == latestDiary.value.date
              && r.value.0.latestDiary.value.emotion == latestDiary.value.emotion
    ensures r.Success? ==> (r.value.0.topEmotions.None? <==> monthStats.None?)
    ensures r.Success? && monthStats.Some? ==> IsTopThree(monthStats.value, r.value.0.topEmotions.value)
  {
    match userLookup
    case None => Failure(UserNotFound)
    case Some(user) =>
      match GetTodayComment(store, today, existsToday, user)
      case Failure(err) => Failure(err)
      case Success((comment, store')) =>
        var diary := match latestDiary
          case None => None
          case Some(d) => Some(ToDiaryResponse(d));
        Success((MainPageResponse(comment.comment, diary, TopThreeForMonth(monthStats)), store'))
  }

  /** On the first visit of a day the comment has just been created, so the page shows no
      comment text, and the table gains an entry for today owned by the visitor. */
  lemma FirstVisitOfDay(user: User, store: CommentStore, today: Date,
                        latestDiary: Option<Diary>, monthStats: Option<EmotionStatistics>)
    requires today !in store
    ensures var r := GetMainPage(Some(user), store, today, false, latestDiary, monthStats);
            r.Success? && r.value.0.todayComment.None?
            && r.value.1[today].owner == user
            && r.value.1.Keys == store.Keys + {today}
  {
    var r := GetMainPage(Some(user), store, today, false, latestDiary, monthStats);
    assert r.value.1 == store[today := TodayComment(user, today, None)];
  }
}
