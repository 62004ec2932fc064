/**
 The quiz routes: recording a failed quiz against the daily quota, and
 serving one quiz item from the file of a category. The data folder is a map
 from file name to the rows of that file, and the random choice of a row is
 replaced by an index the caller supplies.
 */
module Quiz {
  import opened Records
  import opened Attempts
  import opened Accounts

  /** One quiz row: column name to value, whatever columns the file has. */
  type QuizItem = map<string, string>

  /** Category names as the client sends them, to the base name of their file. */
  const CategoryMap: map<string, string> := map[
    "사랑" := "sarang",
    "분노" := "bunno",
    "감사" := "gamsa",
    "힘듦" := "himdeum",
    "두려움" := "duryeoum",
    "결정" := "gyeoljeong",
    "용서" := "yongseo",
    "믿음" := "mideum",
    "위인" := "wiin",
    "과학" := "gwahak",
    "명언" := "myeongeon"
  ]

  const CsvSuffix: string := ".csv"

  /** The base file name of a category: its table entry, or the name itself. */
  function ResolveCategory(category: string): string {
    if category in CategoryMap then CategoryMap[category] else category
  }

  /** The file that holds the quiz items of a category. */
  function QuizFileName(category: string): (f: string)
    ensures |f| >= |CsvSuffix| && f[|f| - |CsvSuffix|..] == CsvSuffix
    ensures category in CategoryMap ==> f[..|f| - |CsvSuffix|] == CategoryMap[category]
    ensures category !in CategoryMap ==> f[..|f| - |CsvSuffix|] == category
  {
    ResolveCategory(category) + CsvSuffix
  }

  /** No file base name in the table is itself a category name of the table. */
  lemma ResolvedNamesAreNotKeys()
    ensures forall c :: c in CategoryMap ==> CategoryMap[c] !in CategoryMap
  {
  }

  /** Resolving twice is resolving once. */
  lemma ResolveIdempotent(category: string)
    ensures ResolveCategory(ResolveCategory(category)) == ResolveCategory(category)
  {
    ResolvedNamesAreNotKeys();
  }

  /** A category asked for by its romanised file name finds the same file as its table name. */
  lemma RomanisedNameSameFile(category: string)
    requires category in CategoryMap
    ensures QuizFileName(CategoryMap[category]) == QuizFileName(category)
  {
    ResolvedNamesAreNotKeys();
  }

  /** Distinct categories of the table have distinct files. */
  lemma DistinctCategoriesDistinctFiles(c1: string, c2: string)
    requires c1 in CategoryMap && c2 in CategoryMap && c1 != c2
    ensures QuizFileName(c1) != QuizFileName(c2)
  {
    var f1, f2 := QuizFileName(c1), QuizFileName(c2);
    assert CategoryMap[c1] != CategoryMap[c2];
    assert f1[..|f1| - |CsvSuffix|] != f2[..|f2| - |CsvSuffix|];
  }

  /** The answers of the quiz route. */
  datatype QuizReply =
    | Item(item: QuizItem)         // one row of the category's file
    | NoQuizFile(category: string) // the category's file does not exist
    | EmptyQuizFile                // the file holds no rows
    | NoCategory                   // no category parameter: building the file name raises, uncaught

  /**
   Serves one quiz item of the requested category; `pick` stands in for
   the random choice among the file's rows.
   */
  function GetQuiz(folder: map<string, seq<QuizItem>>, category: Option<string>, pick: nat): (r: QuizReply)
    ensures category.None? <==> r == NoCategory
    ensures r.NoQuizFile? <==> category.Some? && QuizFileName(category.value) !in folder
    ensures r.NoQuizFile? ==> r.category == category.value
    ensures r.EmptyQuizFile? <==>
      category.Some? && QuizFileName(category.value) in folder && |folder[QuizFileName(category.value)]| == 0
    ensures r.Item? ==> category.Some? && r.item in folder[QuizFileName(category.value)]
  {
    match category
    case None => NoCategory
    case Some(c) =>
      var file := QuizFileName(c);
      if file !in folder then NoQuizFile(c)
      else if |folder[file]| == 0 then EmptyQuizFile
      else Item(folder[file][pick % |folder[file]|])
  }

  /** Every row of a non-empty category file can be the one served. */
  lemma EveryItemCanBeServed(folder: map<string, seq<QuizItem>>, category: string, i: nat)
    requires QuizFileName(category) in folder
    requires i < |folder[QuizFileName(category)]|
    ensures GetQuiz(folder, Some(category), i) == Item(folder[QuizFileName(category)][i])
  {
    assert i % |folder[QuizFileName(category)]| == i;
  }

  /**
   Records a failed quiz for the student of the request. An absent or
   empty id is refused and the ledger is left as it was; otherwise the
   student's count for today rises by one, every other count stays, and
   the ledger keeps one row per (student, day).
   */
  function QuizFail(ledger: seq<AttemptRow>, today: string, id: Option<string>): (r: Step<seq<AttemptRow>>)
    ensures r.reply == Fail(MissingId) <==> id.None? || id.value == ""
    ensures r.reply.Fail? ==> r.reply == Fail(MissingId) && r.store == ledger
    ensures r.reply == Success ==>
      TodayAttempts(r.store, id.value, today) == TodayAttempts(ledger, id.value, today) + 1
    ensures r.reply == Success ==> forall id', day' :: id' != id.value || day' != today ==>
      TodayAttempts(r.store, id', day') == TodayAttempts(ledger, id', day')
    ensures UniqueKeys(ledger) ==> UniqueKeys(r.store)
  {
    if id.None? || id.value == "" then Step(Fail(MissingId), ledger)
    else
      LookupAfterIncrement(ledger, id.value, today);
      LookupOthersUnchanged(ledger, id.value, today);
      assert UniqueKeys(ledger) ==> UniqueKeys(Increment(ledger, id.value, today)) by {
        if UniqueKeys(ledger) {
          IncrementPreservesUniqueKeys(ledger, id.value, today);
        }
      }
      Step(Success, Increment(ledger, id.value, today))
  }

  /**
   The quota: after two failed quizzes on a day, login is refused for the
   rest of that day whatever the password, provided users.csv exists.
   */
  lemma TwoFailuresBlockLogin(users: seq<User>, ledger: seq<AttemptRow>, today: string, id: string, password: Option<string>)
    requires id != ""
    ensures
      var once := QuizFail(ledger, today, Some(id)).store;
      var twice := QuizFail(once, today, Some(id)).store;
      Login(Some(users), twice, today, Some(id), password) == Fail(QuotaExhausted)
  {
  }

  /** A failed quiz on one day never blocks login on another day. */
  lemma FailureCountsOnlyThatDay(users: Option<seq<User>>, ledger: seq<AttemptRow>, today: string, other: string,
                                 id: string, password: Option<string>)
    requires other != today
    ensures
      var after := QuizFail(ledger, today, Some(id)).store;
      Login(users, after, other, Some(id), password) == Login(users, ledger, other, Some(id), password)
  {
  }
}
