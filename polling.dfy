/**
 * The page's wait for a result: after the upload it queries the result table
 * for the upload key up to twenty times, three seconds apart, stopping at the
 * first non-empty answer or at the first query that fails.
 */
module Polling {
  import opened Wrappers
  import opened Records

  const MaxAttempts: nat := 20
  const ProgressStep: nat := 5
  const ProgressDone: nat := 100

  /** What one query returns: the rows of the result frame, or an exception. */
  datatype QueryResult = Frame(rows: seq<Row>) | Failed

  /** How a run of the page ends. */
  datatype Outcome =
    | UploadFailed      // the upload raised; the page stopped before any query
    | Found(row: Row)   // a query returned rows; the first one is shown
    | TimedOut          // every attempt came back empty
    | QueryError        // a query raised; the page stopped

  /** The attempts before `n` all returned an empty frame. */
  predicate EmptyBefore(answers: seq<QueryResult>, n: nat)
    requires n <= |answers|
  {
    forall j :: 0 <= j < n ==> answers[j] == Frame([])
  }

  /** The progress value shown after empty attempt `i`: `min((i + 1) * 5, 100)`. */
  function Progress(i: nat): (p: nat)
    ensures p <= ProgressDone
    ensures i < MaxAttempts ==> p == (i + 1) * ProgressStep
  {
    if (i + 1) * ProgressStep < ProgressDone then (i + 1) * ProgressStep else ProgressDone
  }

  /** The first `n` values of `bar` are those shown after empty attempts `0 .. n - 1`. */
  predicate RampPrefix(bar: seq<nat>, n: nat) {
    n <= |bar| && forall k :: 0 <= k < n ==> bar[k] == Progress(k)
  }

  /**
   * Uploads (successfully or not, as `uploaded` says) and then polls, where
   * `answers[i]` is what the table returns to attempt `i`. Returns the outcome,
   * the number of queries issued, the number of three-second sleeps taken and the values
   * the progress bar was set to, in order.
   */
  method Poll(uploaded: bool, answers: seq<QueryResult>)
    returns (outcome: Outcome, queries: nat, sleeps: nat, bar: seq<nat>)
    requires |answers| >= MaxAttempts
    // a failed upload stops the page before any query
    ensures outcome == UploadFailed <==> !uploaded
    ensures !uploaded ==> queries == 0 && sleeps == 0 && bar == []
    // at most twenty queries, all but the last of them empty
    ensures uploaded ==> 1 <= queries <= MaxAttempts && EmptyBefore(answers, queries - 1)
    // a result is found exactly when some answer within the twenty attempts has
    // rows and every earlier one is empty; a query error exactly when some
    // answer fails and every earlier one is empty
    ensures outcome.Found? <==>
      uploaded && exists k :: 0 <= k < MaxAttempts && EmptyBefore(answers, k) && answers[k].Frame? && answers[k].rows != []
    ensures outcome == QueryError <==>
      uploaded && exists k :: 0 <= k < MaxAttempts && EmptyBefore(answers, k) && answers[k] == Failed
    // the first non-empty answer wins, and its first row is the result
    ensures outcome.Found? ==>
      && answers[queries - 1].Frame? && answers[queries - 1].rows != []
      && outcome.row == answers[queries - 1].rows[0]
      && sleeps == queries - 1
      && |bar| == queries && RampPrefix(bar, queries - 1) && bar[queries - 1] == ProgressDone
    // twenty empty answers time out
    ensures outcome == TimedOut <==> uploaded && EmptyBefore(answers, MaxAttempts)
    ensures outcome == TimedOut ==>
      queries == MaxAttempts && sleeps == MaxAttempts && |bar| == MaxAttempts && RampPrefix(bar, MaxAttempts)
    // a failing query stops the page with neither result nor timeout
    ensures outcome == QueryError ==>
      && answers[queries - 1] == Failed
      && sleeps == queries - 1
      && |bar| == queries - 1 && RampPrefix(bar, queries - 1)
    // the bar stays within [5, 100] and never moves backwards
    ensures forall k :: 0 <= k < |bar| ==> ProgressStep <= bar[k] <= ProgressDone
    ensures forall j, k :: 0 <= j < k < |bar| ==> bar[j] <= bar[k]
  {
    queries, sleeps, bar := 0, 0, [];
    if !uploaded {
      return UploadFailed, queries, sleeps, bar;
    }
    var resultRow: Option<Row> := None;
    var i := 0;
    while i < MaxAttempts
      invariant 0 <= i <= MaxAttempts
      invariant resultRow == None
      invariant queries == i && sleeps == i && EmptyBefore(answers, i)
      invariant |bar| == i && RampPrefix(bar, i)
    {
      queries := queries + 1;
      match answers[i] {
        case Failed =>
          return QueryError, queries, sleeps, bar;
        case Frame(rows) =>
          if rows != [] {
            resultRow := Some(rows[0]);
            bar := bar + [ProgressDone];
            break;
          }
      }
      bar := bar + [Progress(i)];
      sleeps := sleeps + 1;
      i := i + 1;
    }
    outcome := if resultRow.Some? then Found(resultRow.value) else TimedOut;
  }
}
