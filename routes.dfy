/**
 * The two requests that drive the core: showing the dashboard, and analysing
 * an uploaded message then storing its verdict. Receiving the upload, saving
 * it to disk and rendering the page are outside the model; the parsed
 * message and the classifier arrive as parameters.
 */
module Routes {
  import opened Wrappers
  import opened Extract
  import opened Scoring
  import opened Analyzer
  import opened VerdictLedger

  /** The row the upload stores for a verdict on a file. */
  function RowOf(filename: string, v: Verdict): (row: Row)
    ensures row.filename == filename && row.score == v.score
    ensures row.labelName == "phishing" <==> v.category == Phishing
    ensures row.labelName == "phishing" || row.labelName == "safe"
  {
    Row(filename, LabelName(v.category), v.score)
  }

  /**
   * Every row carries one of the two labels, and `phishing` exactly when its
   * score is above 0.5: what holds of every row an upload writes.
   */
  ghost predicate Consistent(h: seq<Row>)
  {
    forall i :: 0 <= i < |h| ==>
      && (h[i].labelName == "phishing" || h[i].labelName == "safe")
      && (h[i].labelName == "phishing" <==> h[i].score > 50)
  }

  /** A row with a consistent label keeps a consistent history consistent. */
  lemma ConsistentAppend(h: seq<Row>, row: Row)
    requires Consistent(h)
    requires row.labelName == "phishing" || row.labelName == "safe"
    requires row.labelName == "phishing" <==> row.score > 50
    ensures Consistent(h + [row])
  {
    var h' := h + [row];
    forall i | 0 <= i < |h'|
      ensures h'[i].labelName == "phishing" || h'[i].labelName == "safe"
      ensures h'[i].labelName == "phishing" <==> h'[i].score > 50
    {
      if i < |h| {
        assert h'[i] == h[i];
      }
    }
  }

  /** The dashboard request: read the history, show its last rows and its label counts. */
  method Index(ledger: Ledger) returns (view: View)
    requires ledger.Valid()
    ensures view == Dashboard(ledger.History())
    ensures ledger.store.None? ==> view == View([], 0, 0)
    ensures Consistent(ledger.History()) ==> view.phishCount + view.safeCount == |ledger.History()|
  {
    var history := ledger.History();
    view := Dashboard(history);
    if ledger.store.None? {
      EmptyDashboard();
    }
  }

  /**
   * The upload request: analyse the message, append its row, and show the
   * dashboard over the new history. When the analysis fails the store is
   * left as it was.
   */
  method Upload(ledger: Ledger, filename: string, m: Message, c: Classifier)
    returns (r: Result<(Verdict, View), ExtractError>)
    requires ledger.Valid() && ProbabilityModel(c)
    modifies ledger
    ensures ledger.Valid()
    ensures r.Failure? ==> Analysis(m, c).Failure? && ledger.store == old(ledger.store)
    ensures r.Success? ==>
      && Analysis(m, c) == Success(r.value.0)
      && ledger.History() == old(ledger.History()) + [RowOf(filename, r.value.0)]
      && r.value.1 == Dashboard(ledger.History())
    ensures old(Consistent(ledger.History())) ==> Consistent(ledger.History())
  {
    var result := AnalyzeEmail(m, c);
    match result
    case Failure(err) =>
      r := Failure(err);
    case Success(verdict) =>
      var row := RowOf(filename, verdict);
      ghost var before := ledger.History();
      ledger.Append(row);
      if Consistent(before) {
        ConsistentAppend(before, row);
      }
      var view := Index(ledger);
      r := Success((verdict, view));
  }
}
