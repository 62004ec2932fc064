/**
 Records shared by the quiz backend: the rows of the flat stores, the
 optional form fields of a request, and the status/message replies that the
 routes answer with.
 */
module Records {

  /** A form field as the request carries it: absent, or a string. */
  datatype Option<+T> = None | Some(value: T) {

    /** The value, or `default` when the field is absent. */
    function GetOr(default: T): T {
      match this
      case Some(v) => v
      case None => default
    }
  }

  /** One row of users.csv: plaintext credentials. */
  datatype User = User(studentId: string, password: string)

  /** One row of attempts.csv: failed-quiz count of a student on a date. */
  datatype AttemptRow = AttemptRow(studentId: string, date: string, attempts: nat)

  /** Why a request was refused; each carries the message the route sends back. */
  datatype Failure =
    | NoUserData       // users.csv does not exist yet
    | QuotaExhausted   // two failed quizzes today
    | NoMatchingUser   // no row has this id and password
    | DuplicateId      // signup with an id already on file
    | MissingId        // quiz-fail without a student id

  /** The status/message pair of a route's JSON reply. */
  datatype Reply = Success | Fail(reason: Failure)

  /** A reply together with the store as the request leaves it. */
  datatype Step<S> = Step(reply: Reply, store: S)

  /** The message text sent with each refusal. */
  function Message(f: Failure): string {
    match f
    case NoUserData => "회원 데이터가 없습니다."
    case QuotaExhausted => "오늘의 퀴즈 기회를 모두 사용했습니다. 내일 다시 시도해 주세요."
    case NoMatchingUser => "일치하는 회원이 없습니다."
    case DuplicateId => "이미 존재하는 학번입니다."
    case MissingId => "학번 누락"
  }

  /** Distinct refusals are told apart by their message text. */
  lemma MessagesDistinct(f: Failure, g: Failure)
    requires f != g
    ensures Message(f) != Message(g)
  {
  }

  /**
   How the CSV writer stores a field value: an absent (None) value is
   written as the empty string.
   */
  function Stored(field: Option<string>): string {
    field.GetOr("")
  }
}
