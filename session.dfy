/**
 * One run of the upload page for one selected file: build the key from the
 * file name and the clock, upload, poll for the result row, and present it.
 * The clock reading, the upload's success and the table's answers are inputs.
 */
module Session {
  import opened Wrappers
  import opened Timestamp
  import opened UploadKey
  import opened Polling
  import opened Presentation

  method Run(name: string, now: DateTime, uploaded: bool, answers: seq<QueryResult>)
    returns (key: string, outcome: Outcome, page: Option<Page>)
    requires ValidDateTime(now)
    requires |answers| >= MaxAttempts
    ensures key == UniqueName(name, Format(now))
    ensures ParseKey(key) == Some((name, Format(now)))
    ensures outcome == UploadFailed <==> !uploaded
    ensures outcome == TimedOut <==> uploaded && EmptyBefore(answers, MaxAttempts)
    // the result is the first row of the first answer with rows, if every earlier answer is empty
    ensures outcome.Found? <==>
      uploaded && exists k :: 0 <= k < MaxAttempts && EmptyBefore(answers, k) && answers[k].Frame? && answers[k].rows != []
    ensures outcome.Found? ==>
      exists k :: 0 <= k < MaxAttempts && EmptyBefore(answers, k) && answers[k].Frame? && answers[k].rows != []
        && outcome.row == answers[k].rows[0]
    ensures outcome == QueryError <==>
      uploaded && exists k :: 0 <= k < MaxAttempts && EmptyBefore(answers, k) && answers[k] == Failed
    // the result section appears exactly on Found, and shows what the row decides
    ensures page.Some? <==> outcome.Found?
    ensures outcome.Found? ==> (page.value == Crashed <==> DecisionBadge(outcome.row).None?)
    ensures page.Some? && page.value.Shown? ==>
      && page.value.badge == DecisionBadge(outcome.row).value
      && page.value.summary == SummaryShown(outcome.row)
      && page.value.details == Listed(outcome.row, DetailFields)
      && (page.value.noDetailsNotice <==> page.value.details == [])
  {
    key := UniqueName(name, Format(now));
    ParseUniqueName(name, Format(now));
    var queries, sleeps, bar;
    outcome, queries, sleeps, bar := Poll(uploaded, answers);
    if outcome.Found? {
      assert EmptyBefore(answers, queries - 1);
    }
    page := None;
    if outcome.Found? {
      var shown := Present(outcome.row);
      page := Some(shown);
    }
  }

  /** `report.pdf` uploaded while the worker never writes a row: the page times out. */
  method WorkerNeverWrites(now: DateTime) returns (key: string, outcome: Outcome)
    requires ValidDateTime(now)
    ensures key == "report_" + Format(now) + ".pdf"
    ensures outcome == TimedOut
  {
    var page;
    key, outcome, page := Run("report.pdf", now, true, seq(MaxAttempts, _ => Frame([])));
    ReportKey(Format(now));
  }
}
