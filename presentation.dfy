/**
 * What the page shows once a result row is found: a flagged or a success
 * badge for the agent's decision, the summary when there is one, and the
 * detail fields that hold a value.
 */
module Presentation {
  import opened Wrappers
  import opened Records

  const DecisionField: string := "agent_decision"
  const DefaultDecision: string := "UNKNOWN"
  const SummaryField: string := "gemini_summary"

  /** Decisions that, uppercased, put the document up for review. */
  const FlaggingDecisions: seq<string> := ["ESCALATE", "FLAG"]

  /** The detail columns, in the order the page lists them. */
  const DetailFields: seq<string> :=
    ["file_name", "document_bucket", "extracted_text_length", "cloud_function_invocation_id"]

  function UpperChar(c: char): char {
    if 'a' <= c <= 'z' then (c as int - 32) as char else c
  }

  function LowerChar(c: char): char {
    if 'A' <= c <= 'Z' then (c as int + 32) as char else c
  }

  /** `str.upper` on ASCII letters. */
  function Upper(s: string): (r: string)
    ensures |r| == |s|
    ensures forall i :: 0 <= i < |s| ==> r[i] == UpperChar(s[i])
  {
    if s == [] then [] else [UpperChar(s[0])] + Upper(s[1..])
  }

  predicate IsUpperWord(w: string) {
    forall i :: 0 <= i < |w| ==> 'A' <= w[i] <= 'Z'
  }

  /** `s` spells `word` with each letter in either case. */
  predicate IsCaseVariant(s: string, word: string) {
    |s| == |word| && forall i :: 0 <= i < |s| ==> s[i] == word[i] || s[i] == LowerChar(word[i])
  }

  /** Uppercasing gives an upper-case word exactly when the text spells it in any mix of cases. */
  lemma UpperIsWord(s: string, word: string)
    requires IsUpperWord(word)
    ensures Upper(s) == word <==> IsCaseVariant(s, word)
  {
    if Upper(s) == word {
      forall i | 0 <= i < |s| ensures s[i] == word[i] || s[i] == LowerChar(word[i]) {
        assert UpperChar(s[i]) == word[i];
      }
    }
    if IsCaseVariant(s, word) {
      assert forall i :: 0 <= i < |s| ==> Upper(s)[i] == word[i];
    }
  }

  datatype Badge = Flagged(decision: string) | Processed(decision: string)

  /**
   * The decision badge: flagged when the uppercased decision is ESCALATE or
   * FLAG, a success badge otherwise, with the decision shown as stored. A row
   * without the column shows UNKNOWN. A cell that is not text (SQL NULL, a
   * number) has no `.upper()`: the page raises there and shows nothing more,
   * which is `None`.
   */
  function DecisionBadge(row: Row): (b: Option<Badge>)
    ensures DecisionField !in row ==> b == Some(Processed(DefaultDecision))
    ensures b.None? <==> DecisionField in row && !row[DecisionField].Text?
    ensures b.Some? && DecisionField in row ==> b.value.decision == row[DecisionField].s
    ensures b.Some? ==>
      (b.value.Flagged? <==>
        IsCaseVariant(b.value.decision, "ESCALATE") || IsCaseVariant(b.value.decision, "FLAG"))
  {
    match Get(row, DecisionField, Text(DefaultDecision))
    case Text(d) =>
      UpperIsWord(d, "ESCALATE");
      UpperIsWord(d, "FLAG");
      if Upper(d) in FlaggingDecisions then Some(Flagged(d)) else Some(Processed(d))
    case _ => None
  }

  /** The four decisions the worker writes: exactly ESCALATE and FLAG are flagged. */
  lemma WorkerDecisionBadges(row: Row, d: string)
    requires d in ["ESCALATE", "APPROVE", "FLAG", "UNKNOWN"]
    requires DecisionField in row && row[DecisionField] == Text(d)
    ensures DecisionBadge(row).Some?
    ensures DecisionBadge(row).value.Flagged? <==> d in ["ESCALATE", "FLAG"]
  {
    if d in ["ESCALATE", "FLAG"] {
      assert IsCaseVariant(d, d);
    } else {
      assert |d| == 7;
    }
  }

  /** Python truthiness of a cell: null, the empty string and zero are false. */
  predicate Truthy(v: Value) {
    match v
    case Null => false
    case Text(s) => s != ""
    case Number(n) => n != 0
  }

  /**
   * The summary block: shown (with the cell) when the column holds a truthy,
   * non-null value; otherwise the "no summary" notice.
   */
  function SummaryShown(row: Row): (r: Option<Value>)
    ensures r.Some? ==> SummaryField in row && r.value == row[SummaryField]
    ensures r.Some? ==> r.value != Null && r.value != Text("") && r.value != Number(0)
    ensures r.None? ==> SummaryField !in row || row[SummaryField] in {Null, Text(""), Number(0)}
  {
    var v := Get(row, SummaryField, Text(""));
    if Truthy(v) then Some(v) else None
  }

  /** A detail cell is listed when it is not null and not the empty string. */
  predicate Listable(v: Value) {
    v != Null && v != Text("")
  }

  /** The fields among `fields`, in order, whose cells are listable, each with its cell. */
  function Listed(row: Row, fields: seq<string>): (r: seq<(string, Value)>)
    ensures |r| <= |fields|
    ensures forall e :: e in r ==> e.0 in fields && e.0 in row && e.1 == row[e.0] && Listable(e.1)
  {
    if fields == [] then []
    else
      var f := fields[|fields| - 1];
      var v := Get(row, f, Null);
      var rest := Listed(row, fields[..|fields| - 1]);
      if Listable(v) then rest + [(f, v)] else rest
  }

  /** Every field whose cell is listable is listed. */
  lemma {:induction false} ListedComplete(row: Row, fields: seq<string>, f: string)
    requires f in fields && Listable(Get(row, f, Null))
    ensures (f, Get(row, f, Null)) in Listed(row, fields)
  {
    var last := fields[|fields| - 1];
    if f != last {
      assert f in fields[..|fields| - 1] by {
        var k :| 0 <= k < |fields| && fields[k] == f;
        assert k < |fields| - 1;
      }
      ListedComplete(row, fields[..|fields| - 1], f);
    }
  }

  /** Listing keeps the fields' order: a field is listed before any field that follows it. */
  lemma {:induction false} ListedInOrder(row: Row, fields: seq<string>, i: nat, j: nat)
    requires i < j < |Listed(row, fields)|
    ensures exists a, b :: 0 <= a < b < |fields| && fields[a] == Listed(row, fields)[i].0 && fields[b] == Listed(row, fields)[j].0
  {
    var init := fields[..|fields| - 1];
    var rest := Listed(row, init);
    var l := Listed(row, fields);
    if j < |rest| {
      assert l[i] == rest[i] && l[j] == rest[j];
      ListedInOrder(row, init, i, j);
      var a, b :| 0 <= a < b < |init| && init[a] == rest[i].0 && init[b] == rest[j].0;
      assert fields[a] == l[i].0 && fields[b] == l[j].0;
    } else {
      assert l[j].0 == fields[|fields| - 1];
      assert l[i] == rest[i];
      assert rest[i] in rest;
      var a :| 0 <= a < |init| && init[a] == rest[i].0;
      assert fields[a] == l[i].0;
    }
  }

  /**
   * The detail listing: walks the detail fields in order, lists each listable
   * cell and records whether anything was listed; the "no additional details"
   * notice is shown when nothing was.
   */
  method ListDetails(row: Row) returns (listed: seq<(string, Value)>, detailsFound: bool)
    ensures listed == Listed(row, DetailFields)
    ensures detailsFound <==> listed != []
    ensures detailsFound <==> exists f :: f in DetailFields && Listable(Get(row, f, Null))
  {
    listed, detailsFound := [], false;
    for i := 0 to |DetailFields|
      invariant listed == Listed(row, DetailFields[..i])
      invariant detailsFound <==> listed != []
    {
      var field := DetailFields[i];
      var value := Get(row, field, Null);
      if Listable(value) {
        listed := listed + [(field, value)];
        detailsFound := true;
      }
      assert DetailFields[..i + 1][..i] == DetailFields[..i];
    }
    assert DetailFields[..|DetailFields|] == DetailFields;
    if exists f :: f in DetailFields && Listable(Get(row, f, Null)) {
      var f :| f in DetailFields && Listable(Get(row, f, Null));
      ListedComplete(row, DetailFields, f);
    }
    if listed != [] {
      assert listed[0] in listed;
    }
  }

  /** The result section of the page, or the point where it raised. */
  datatype Page =
    | Crashed
    | Shown(badge: Badge, summary: Option<Value>, details: seq<(string, Value)>, noDetailsNotice: bool)

  /** Renders a found row: badge, then summary, then the detail listing. */
  method Present(row: Row) returns (page: Page)
    ensures page == Crashed <==> DecisionBadge(row).None?
    ensures page.Shown? ==>
      && page.badge == DecisionBadge(row).value
      && page.summary == SummaryShown(row)
      && page.details == Listed(row, DetailFields)
      && (page.noDetailsNotice <==> page.details == [])
  {
    var badge := DecisionBadge(row);
    if badge.None? {
      return Crashed;
    }
    var listed, detailsFound := ListDetails(row);
    page := Shown(badge.value, SummaryShown(row), listed, !detailsFound);
  }
}
