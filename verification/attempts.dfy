/**
 The attempt ledger (attempts.csv): one row per student per day counting
 failed quizzes. A missing file reads as the empty ledger, and the date that
 stands for "today" is a parameter.
 */
module Attempts {
  import opened Records

  /** The row belongs to `id` on `day`. */
  predicate Matches(row: AttemptRow, id: string, day: string) {
    row.studentId == id && row.date == day
  }

  /** Some row of the ledger belongs to `id` on `day`. */
  predicate HasMatch(rows: seq<AttemptRow>, id: string, day: string) {
    exists i :: 0 <= i < |rows| && Matches(rows[i], id, day)
  }

  /** `i` is the position of the first row that belongs to `id` on `day`. */
  ghost predicate IsFirstMatch(rows: seq<AttemptRow>, id: string, day: string, i: int) {
    && 0 <= i < |rows|
    && Matches(rows[i], id, day)
    && forall j :: 0 <= j < i ==> !Matches(rows[j], id, day)
  }

  /** No two rows of the ledger share a (student id, date) key. */
  ghost predicate UniqueKeys(rows: seq<AttemptRow>) {
    forall i, j :: 0 <= i < j < |rows| ==>
      !(rows[i].studentId == rows[j].studentId && rows[i].date == rows[j].date)
  }

  /**
   Today's failed-quiz count of a student: the count of the first row that
   matches both id and date, or 0 when no row does.
   */
  function TodayAttempts(rows: seq<AttemptRow>, id: string, day: string): (n: nat)
    ensures HasMatch(rows, id, day) ==>
      exists i :: IsFirstMatch(rows, id, day, i) && n == rows[i].attempts
    ensures !HasMatch(rows, id, day) ==> n == 0
  {
    if |rows| == 0 then 0
    else if Matches(rows[0], id, day) then
      assert IsFirstMatch(rows, id, day, 0);
      rows[0].attempts
    else
      var n := TodayAttempts(rows[1..], id, day);
      assert HasMatch(rows, id, day) ==> HasMatch(rows[1..], id, day) by {
        if HasMatch(rows, id, day) {
          var i :| 0 <= i < |rows| && Matches(rows[i], id, day);
          assert rows[1..][i - 1] == rows[i];
        }
      }
      assert HasMatch(rows, id, day) ==>
        exists i :: IsFirstMatch(rows, id, day, i) && n == rows[i].attempts by {
        if HasMatch(rows, id, day) {
          var i :| IsFirstMatch(rows[1..], id, day, i) && n == rows[1..][i].attempts;
          assert IsFirstMatch(rows, id, day, i + 1);
        }
      }
      n
  }

  /** Adds one to the count of the row if it belongs to `id` on `day`. */
  function BumpRow(row: AttemptRow, id: string, day: string): AttemptRow {
    if Matches(row, id, day) then row.(attempts := row.attempts + 1) else row
  }

  /** Every matching row bumped, every other row as it was. */
  function BumpAll(rows: seq<AttemptRow>, id: string, day: string): (r: seq<AttemptRow>)
    ensures |r| == |rows|
    ensures forall i :: 0 <= i < |rows| ==> r[i] == BumpRow(rows[i], id, day)
  {
    if |rows| == 0 then [] else [BumpRow(rows[0], id, day)] + BumpAll(rows[1..], id, day)
  }

  /**
   Records one more failed quiz for `id` on `day`: bumps every matching row
   when there is one, and appends a fresh row with count 1 otherwise.
   */
  function Increment(rows: seq<AttemptRow>, id: string, day: string): (r: seq<AttemptRow>)
    ensures HasMatch(rows, id, day) ==>
      && |r| == |rows|
      && forall i :: 0 <= i < |rows| ==>
           && r[i].studentId == rows[i].studentId
           && r[i].date == rows[i].date
           && r[i].attempts == rows[i].attempts + (if Matches(rows[i], id, day) then 1 else 0)
    ensures !HasMatch(rows, id, day) ==>
      && |r| == |rows| + 1
      && r[..|rows|] == rows
      && r[|rows|] == AttemptRow(id, day, 1)
  {
    if HasMatch(rows, id, day) then BumpAll(rows, id, day)
    else rows + [AttemptRow(id, day, 1)]
  }

  /** Bumping distributes over concatenation of ledgers. */
  lemma {:induction false} BumpAllAppend(a: seq<AttemptRow>, b: seq<AttemptRow>, id: string, day: string)
    ensures BumpAll(a + b, id, day) == BumpAll(a, id, day) + BumpAll(b, id, day)
  {
    var l, r := BumpAll(a + b, id, day), BumpAll(a, id, day) + BumpAll(b, id, day);
    assert |l| == |r|;
    forall k | 0 <= k < |l| ensures l[k] == r[k] {
      if k < |a| {
        assert (a + b)[k] == a[k];
      } else {
        assert (a + b)[k] == b[k - |a|];
      }
    }
  }

  /**
   The loop of the source: walks the rows once, bumping each matching row
   and remembering whether one was found, then appends a fresh row if not.
   */
  method IncrementAttempt(rows: seq<AttemptRow>, id: string, day: string) returns (out: seq<AttemptRow>)
    ensures out == Increment(rows, id, day)
  {
    out := [];
    var found := false;
    var i := 0;
    while i < |rows|
      invariant 0 <= i <= |rows|
      invariant out == BumpAll(rows[..i], id, day)
      invariant found <==> HasMatch(rows[..i], id, day)
    {
      BumpAllAppend(rows[..i], [rows[i]], id, day);
      assert rows[..i + 1] == rows[..i] + [rows[i]];
      out := out + [BumpRow(rows[i], id, day)];
      if Matches(rows[i], id, day) {
        found := true;
        assert Matches(rows[..i + 1][i], id, day);
      } else if found {
        var k :| 0 <= k < i && Matches(rows[..i][k], id, day);
        assert rows[..i + 1][k] == rows[..i][k];
      } else {
        assert forall k :: 0 <= k < i + 1 ==> rows[..i + 1][k] == rows[k];
      }
      i := i + 1;
    }
    assert rows[..i] == rows;
    if !found {
      out := rows + [AttemptRow(id, day, 1)];
    }
  }

  /**
   Increment round-trip: after recording one more failure, the lookup for
   the same student and day is one more than before. No uniqueness of keys
   is needed, because the first matching row is among those bumped.
   */
  lemma {:induction false} LookupAfterIncrement(rows: seq<AttemptRow>, id: string, day: string)
    ensures TodayAttempts(Increment(rows, id, day), id, day) == TodayAttempts(rows, id, day) + 1
  {
    if HasMatch(rows, id, day) {
      LookupAfterBump(rows, id, day);
    } else {
      LookupAppendMissing(rows, AttemptRow(id, day, 1), id, day);
    }
  }

  /** When some row matches, bumping adds exactly one to the lookup. */
  lemma {:induction false} LookupAfterBump(rows: seq<AttemptRow>, id: string, day: string)
    requires HasMatch(rows, id, day)
    ensures TodayAttempts(BumpAll(rows, id, day), id, day) == TodayAttempts(rows, id, day) + 1
  {
    var b := BumpAll(rows, id, day);
    if Matches(rows[0], id, day) {
      assert b[0] == rows[0].(attempts := rows[0].attempts + 1);
    } else {
      var i :| 0 <= i < |rows| && Matches(rows[i], id, day);
      assert rows[1..][i - 1] == rows[i];
      LookupAfterBump(rows[1..], id, day);
      assert b[1..] == BumpAll(rows[1..], id, day);
    }
  }

  /** A row appended behind a ledger without a match is what the lookup finds. */
  lemma {:induction false} LookupAppendMissing(rows: seq<AttemptRow>, row: AttemptRow, id: string, day: string)
    requires !HasMatch(rows, id, day)
    requires Matches(row, id, day)
    ensures TodayAttempts(rows + [row], id, day) == row.attempts
  {
    if |rows| == 0 {
      assert rows + [row] == [row];
    } else {
      assert (rows + [row])[1..] == rows[1..] + [row];
      forall i | 0 <= i < |rows[1..]| ensures !Matches(rows[1..][i], id, day) {
        assert rows[1..][i] == rows[i + 1];
      }
      LookupAppendMissing(rows[1..], row, id, day);
    }
  }

  /**
   Nothing else changes: recording a failure for one (student, day) leaves
   the lookup of every other (student, day) as it was.
   */
  lemma LookupOtherUnchanged(rows: seq<AttemptRow>, id: string, day: string, id': string, day': string)
    requires id' != id || day' != day
    ensures TodayAttempts(Increment(rows, id, day), id', day') == TodayAttempts(rows, id', day')
  {
    if HasMatch(rows, id, day) {
      LookupOtherAfterBump(rows, id, day, id', day');
    } else {
      LookupOtherAfterAppend(rows, AttemptRow(id, day, 1), id', day');
    }
  }

  lemma {:induction false} LookupOtherAfterBump(rows: seq<AttemptRow>, id: string, day: string, id': string, day': string)
    requires id' != id || day' != day
    ensures TodayAttempts(BumpAll(rows, id, day), id', day') == TodayAttempts(rows, id', day')
  {
    if |rows| > 0 {
      var b := BumpAll(rows, id, day);
      assert b[1..] == BumpAll(rows[1..], id, day);
      LookupOtherAfterBump(rows[1..], id, day, id', day');
    }
  }

  lemma {:induction false} LookupOtherAfterAppend(rows: seq<AttemptRow>, row: AttemptRow, id': string, day': string)
    requires !Matches(row, id', day')
    ensures TodayAttempts(rows + [row], id', day') == TodayAttempts(rows, id', day')
  {
    if |rows| == 0 {
      assert rows + [row] == [row];
    } else {
      assert (rows + [row])[1..] == rows[1..] + [row];
      LookupOtherAfterAppend(rows[1..], row, id', day');
    }
  }

  /** Every lookup other than the one for (`id`, `day`) is unchanged by recording a failure. */
  lemma LookupOthersUnchanged(rows: seq<AttemptRow>, id: string, day: string)
    ensures forall id', day' :: id' != id || day' != day ==>
      TodayAttempts(Increment(rows, id, day), id', day') == TodayAttempts(rows, id', day')
  {
    forall id', day' | id' != id || day' != day
      ensures TodayAttempts(Increment(rows, id, day), id', day') == TodayAttempts(rows, id', day')
    {
      LookupOtherUnchanged(rows, id, day, id', day');
    }
  }

  /** Recording a failure keeps at most one row per (student id, date). */
  lemma IncrementPreservesUniqueKeys(rows: seq<AttemptRow>, id: string, day: string)
    requires UniqueKeys(rows)
    ensures UniqueKeys(Increment(rows, id, day))
  {
    var r := Increment(rows, id, day);
    if !HasMatch(rows, id, day) {
      forall i, j | 0 <= i < j < |r|
        ensures !(r[i].studentId == r[j].studentId && r[i].date == r[j].date)
      {
        if j == |rows| {
          assert !Matches(rows[i], id, day);
        }
      }
    }
  }
}
