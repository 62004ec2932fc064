/**
 The account routes: login, gated by the daily quota, and signup over the
 user store (users.csv). The user store is `None` while users.csv does not
 exist; signup creates it.
 */
module Accounts {
  import opened Records
  import opened Attempts

  /** Failed quizzes after which login is refused for the rest of the day. */
  const MaxDailyAttempts: nat := 2

  /**
   Today's count for the student id of a request. An absent id never equals
   a stored id, so it counts 0.
   */
  function UsedToday(ledger: seq<AttemptRow>, id: Option<string>, today: string): nat {
    match id
    case Some(s) => TodayAttempts(ledger, s, today)
    case None => 0
  }

  /** Some user row carries both the id and the password of the request. */
  predicate CredentialsMatch(users: seq<User>, id: Option<string>, password: Option<string>) {
    exists u :: u in users && Some(u.studentId) == id && Some(u.password) == password
  }

  /** Some user row already carries the stored id `s`. */
  predicate IdTaken(users: seq<User>, s: string) {
    exists u :: u in users && u.studentId == s
  }

  /** No two user rows share a student id. */
  ghost predicate UniqueIds(users: seq<User>) {
    forall i, j :: 0 <= i < j < |users| ==> users[i].studentId != users[j].studentId
  }

  /**
   The login decision. A missing user store is reported first; then a
   student who has used up today's quota is refused whatever the password;
   otherwise login succeeds exactly when some user row matches both fields.
   */
  function Login(users: Option<seq<User>>, ledger: seq<AttemptRow>, today: string,
                 id: Option<string>, password: Option<string>): (r: Reply)
    ensures users.None? ==> r == Fail(NoUserData)
    ensures users.Some? && UsedToday(ledger, id, today) >= MaxDailyAttempts ==> r == Fail(QuotaExhausted)
    ensures r == Success <==>
      && users.Some?
      && UsedToday(ledger, id, today) < MaxDailyAttempts
      && CredentialsMatch(users.value, id, password)
    ensures (users.Some? && UsedToday(ledger, id, today) < MaxDailyAttempts &&
             !CredentialsMatch(users.value, id, password)) ==> r == Fail(NoMatchingUser)
  {
    match users
    case None => Fail(NoUserData)
    case Some(rows) =>
      if UsedToday(ledger, id, today) >= MaxDailyAttempts then Fail(QuotaExhausted)
      else if CredentialsMatch(rows, id, password) then Success
      else Fail(NoMatchingUser)
  }

  /**
   Signup as the route is written: the duplicate check compares each stored
   id with the request's id, which never equals an absent id, while the
   appended row stores an absent field as the empty string.
   */
  function SignupAsWritten(users: Option<seq<User>>, id: Option<string>, password: Option<string>): (r: Step<seq<User>>)
    ensures r.reply.Fail? ==> r.reply == Fail(DuplicateId)
    ensures id.Some? ==> (r.reply.Fail? <==> IdTaken(users.GetOr([]), id.value))
    ensures id.None? ==> r.reply == Success
    ensures r.reply.Fail? ==> r.store == users.GetOr([])
    ensures r.reply == Success ==> r.store == users.GetOr([]) + [User(Stored(id), Stored(password))]
  {
    var rows := users.GetOr([]);
    if exists u :: u in rows && Some(u.studentId) == id then Step(Fail(DuplicateId), rows)
    else Step(Success, rows + [User(Stored(id), Stored(password))])
  }

  /**
   An id-less signup succeeds even when an empty id is already on file, and
   leaves two rows with the empty id behind.
   */
  lemma SignupAsWrittenDuplicatesEmptyId(rows: seq<User>, password: Option<string>)
    requires IdTaken(rows, "")
    ensures SignupAsWritten(Some(rows), None, password).reply == Success
    ensures !UniqueIds(SignupAsWritten(Some(rows), None, password).store)
  {
    var s := SignupAsWritten(Some(rows), None, password).store;
    var u :| u in rows && u.studentId == "";
    var i :| 0 <= i < |rows| && rows[i] == u;
    assert s[i].studentId == "" && s[|rows|].studentId == "";
  }

  /**
   Signup with the duplicate check made against the id as it will be
   stored. It refuses an id already on file and leaves the store as it was;
   otherwise it appends exactly one row, so unique ids stay unique. For a
   present id it decides exactly as the route does.
   */
  function Signup(users: Option<seq<User>>, id: Option<string>, password: Option<string>): (r: Step<seq<User>>)
    ensures r.reply == Fail(DuplicateId) <==> IdTaken(users.GetOr([]), Stored(id))
    ensures r.reply.Fail? ==> r.reply == Fail(DuplicateId)
    ensures r.reply.Fail? ==> r.store == users.GetOr([])
    ensures r.reply == Success ==> r.store == users.GetOr([]) + [User(Stored(id), Stored(password))]
    ensures UniqueIds(users.GetOr([])) ==> UniqueIds(r.store)
    ensures id.Some? ==> r == SignupAsWritten(users, id, password)
  {
    var rows := users.GetOr([]);
    if IdTaken(rows, Stored(id)) then Step(Fail(DuplicateId), rows)
    else
      var out := rows + [User(Stored(id), Stored(password))];
      assert UniqueIds(rows) ==> UniqueIds(out) by {
        if UniqueIds(rows) {
          forall i, j | 0 <= i < j < |out| ensures out[i].studentId != out[j].studentId {
            if j == |rows| {
              assert out[i] in rows;
            }
          }
        }
      }
      Step(Success, out)
  }

  /** A student who has just signed up can log in with the same credentials while under quota. */
  lemma SignupThenLogin(users: Option<seq<User>>, ledger: seq<AttemptRow>, today: string, id: string, password: string)
    requires Signup(users, Some(id), Some(password)).reply == Success
    requires UsedToday(ledger, Some(id), today) < MaxDailyAttempts
    ensures Login(Some(Signup(users, Some(id), Some(password)).store), ledger, today, Some(id), Some(password)) == Success
  {
    var rows := Signup(users, Some(id), Some(password)).store;
    assert rows[|rows| - 1] == User(id, password);
  }

  /**
   With unique ids each student has one password on file: a login with the
   student's id and any other password is refused.
   */
  lemma WrongPasswordRefused(rows: seq<User>, ledger: seq<AttemptRow>, today: string, u: User, password: string)
    requires UniqueIds(rows)
    requires u in rows
    requires password != u.password
    ensures Login(Some(rows), ledger, today, Some(u.studentId), Some(password)).Fail?
  {
    forall v | v in rows && v.studentId == u.studentId ensures v.password != password {
      var i :| 0 <= i < |rows| && rows[i] == u;
      var j :| 0 <= j < |rows| && rows[j] == v;
      assert i == j;
    }
  }
}
