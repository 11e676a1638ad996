# Upload page of the document-intake pipeline, modelled in Dafny

The Streamlit page `streamlit-app/app.py` is the front half of an
upload-then-poll protocol. A user picks a file. The page makes the file name
unique by inserting `_` and a 20-digit clock reading before the extension, and
uploads the file under that key to a storage bucket. A separately triggered
worker processes the file and appends a row to an analytic table. The page
queries that table for the key up to twenty times, three seconds apart, and
stops at the first row it finds. It then shows a decision badge, the summary
and the non-empty detail fields.

This project models the three pieces of logic in that script that can be
stated precisely. The clock, the upload's success and the table's answers are
inputs:

- `Timestamp` renders a clock reading as `%Y%m%d%H%M%S%f`. `UploadKey` splits
  a name the way `os.path.splitext` does and builds the key. `ParseKey` is the
  inverse that recovers the name and the timestamp from a key. Its round trip
  proves that keys are injective.
- `Polling.Poll` is the upload exit and the 20-attempt loop. It tracks the
  result row, the progress-bar values, the sleeps, the `break` on a hit and the
  early stop on a query exception.
- `Presentation` covers the flagged/success badge, the summary test and the
  detail-listing loop with its `details_found` flag. `Session.Run` strings the
  whole page together.

Besides Found and TimedOut, the page stops on a failed upload
(`UploadFailed`, app.py:44-48) and on a query that raises (`QueryError`,
app.py:81-84).

## Model

| member | source | states |
|---|---|---|
| Timestamp.Padded | streamlit-app/app.py:31 | each strftime field is exactly `width` decimal digits, and reading them back gives the number |
| Timestamp.Format | streamlit-app/app.py:31 | `%Y%m%d%H%M%S%f` of a valid reading is exactly 20 decimal digits |
| Timestamp.ParseFormat | streamlit-app/app.py:31 | the rendered timestamp loses nothing: every clock field can be read back |
| Timestamp.FormatInjective | streamlit-app/app.py:31 | two different clock readings render to different timestamps |
| UploadKey.LastIndex | streamlit-app/app.py:32 | the `str.rfind` inside `splitext`: the index holds the character and no later index does, or -1 when it does not occur |
| UploadKey.SplitExt | streamlit-app/app.py:32 | `splitext`: root + ext is the name; ext is empty or a dot followed by neither a dot nor a separator; ext is empty exactly when every dot of the last path component is in its leading run of dots |
| UploadKey.UniqueName | streamlit-app/app.py:30-33 | the key is one `_` plus the stamp longer than the name; it starts with the root, ends with the extension, holds `_` and the stamp between them, and removing those gives back the name |
| UploadKey.ParseKey | streamlit-app/app.py:32-33 | a parsed key yields a 20-digit timestamp and a name 21 characters shorter than the key |
| UploadKey.SplitExtOfUniqueName | streamlit-app/app.py:32-33 | splitting a key finds the name's own extension, with the root extended by `_` and the stamp |
| UploadKey.ParseUniqueName | streamlit-app/app.py:30-33 | round trip: the name and the timestamp are recovered from every key |
| UploadKey.UniqueNameInjective | streamlit-app/app.py:31-33 | two different (name, timestamp) pairs never produce the same key |
| UploadKey.DistinctReadingsDistinctKeys | streamlit-app/app.py:31-33 | the same file uploaded at two different clock readings gets two different keys |
| UploadKey.ReportKey | streamlit-app/app.py:30-33 | `report.pdf` becomes `report_<stamp>.pdf` |
| UploadKey.HiddenFileKey | streamlit-app/app.py:32-33 | a leading-dot name such as `.pdf` has no extension, so the stamp goes last |
| Polling.Progress | streamlit-app/app.py:79 | the value after empty attempt `i` is at most 100, and is `(i + 1) * 5` within the twenty attempts |
| Polling.Poll | streamlit-app/app.py:39-86 | a failed upload ends before any query; at most 20 queries; Found exactly when an answer within 20 has rows after only empty ones, and the result is that answer's first row; TimedOut exactly when all 20 are empty (lines 125-126); QueryError exactly when the first non-empty answer is an exception; one 3-second sleep per empty attempt and none after a hit; bar values `(i+1)*5`, then 100 on a hit, all in [5, 100] and never decreasing |
| Records.Get | streamlit-app/app.py:118 | `Series.get(field, default)` (also lines 91 and 99): the cell when the row has the column, the default otherwise |
| Presentation.Upper | streamlit-app/app.py:93 | `str.upper`: same length, each ASCII lower-case letter replaced by its capital, everything else kept |
| Presentation.UpperIsWord | streamlit-app/app.py:93 | uppercasing gives an upper-case word exactly when the text spells that word in any mix of cases |
| Presentation.DecisionBadge | streamlit-app/app.py:91-96 | flagged exactly when the decision is ESCALATE or FLAG in any case; a missing decision shows UNKNOWN with the success badge; the stored text is shown as is; a non-text cell raises |
| Presentation.WorkerDecisionBadges | streamlit-app/app.py:91-96 | of the four decisions the worker writes, exactly ESCALATE and FLAG are flagged |
| Presentation.SummaryShown | streamlit-app/app.py:99-104 | the summary is shown exactly when the column holds something other than null, `""` or 0, and it is that cell |
| Presentation.Listed | streamlit-app/app.py:117-121 | every listed entry is a detail field with its own non-null, non-empty cell, and there are no more entries than fields |
| Presentation.ListedComplete | streamlit-app/app.py:117-121 | every detail field whose cell is non-null and non-empty is listed |
| Presentation.ListedInOrder | streamlit-app/app.py:117-120 | entries are listed in the fields' order |
| Presentation.ListDetails | streamlit-app/app.py:115-123 | the loop lists exactly the non-empty fields, and `details_found`, which hides the "no additional details" notice, is true exactly when some field is non-empty |
| Presentation.Present | streamlit-app/app.py:91-123 | the result section raises exactly when the badge does; otherwise it shows the badge, the summary decision and the listing, with the notice exactly when nothing is listed |
| Session.Run | streamlit-app/app.py:29-127 | the key is built from the name and the clock and parses back to both; the upload exit; Found exactly when an answer within 20 has rows after only empty ones, with that answer's first row as the result; QueryError and TimedOut as in Poll; the result section appears exactly on Found and shows that row's badge, summary and detail listing, with the notice exactly when nothing is listed |
| Session.WorkerNeverWrites | streamlit-app/app.py:67-86 | uploading `report.pdf` while no row is ever written uses key `report_<stamp>.pdf` and ends TimedOut |

## Left out

- GCP client setup (streamlit-app/app.py:15-22) is foreign library code. As written, line 17 calls `json`, but the file never imports it, so that line would raise and the page would stop there. The model starts after a successful setup.
- Titles, markdown, info/success/error messages and the progress widget itself are UI. Only the values that decide what is shown are modelled.
- The temporary-file write and delete and the bucket upload are file and network I/O. The upload is the boolean `uploaded`.
- The query, its `ORDER BY timestamp DESC LIMIT 1` and the table are an oracle. `answers[i]` is what attempt `i` gets back. That the first row is the most recent is an assumption about the table, not a proved fact.
- `datetime.now()` is the `now` input and `time.sleep` is a counter. Nothing about real time is modelled.
- The `({i*3}s elapsed)` text beside the progress value is a label and is not modelled.
- The upload-type filter (`pdf`, `png`, `jpg`) is enforced by the upload widget, not by this code.
- The worker, including how it parses the model's decision, is not part of this model.
- Timestamp.Format: requires a four-digit year. strftime's `%Y` padding for years below 1000 depends on the platform.
- Presentation.Upper: maps ASCII letters only. Python's `str.upper` also maps other characters, including `ß` to `SS` and `ſ` to `S`, which can change the length.
- Presentation.DecisionBadge: uppercasing covers ASCII letters only. Python's `str.upper` also maps other characters (the ligature `ﬂ` becomes `FL`), which the model does not.
- Polling.Poll: requires at least twenty answers, one for each possible attempt. The page never reads more than that.
