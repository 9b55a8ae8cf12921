/** The verification agent: it joins every stored summary into one context
    text, then asks the model to check the latest gap analysis and the
    latest research proposal against it, saving each report only when its
    call succeeded. The model's answers to the two checks are `gapReplies`
    and `proposalReplies`; the prompts are modelled by what they carry. */
module Verification {
  import opened Text
  import opened Values
  import opened ModelRetry
  import opened Analyses

  /** A row of `get_all_summaries`: a paper with a non-empty abstract. */
  datatype SummaryRow = SummaryRow(id: int, title: Option<string>, summary: string)

  /** What a verification prompt carries: the analysis checked and the
      joined summaries. */
  datatype Request = Request(subject: string, content: string, context: string)

  /** The analyses table after a run, and the checks asked of the model,
      in order. */
  datatype Outcome = Outcome(table: Table, asked: seq<Request>)

  const Header := "### Paper ID "

  /** An f-string shows a missing title as `None`. */
  function TitleText(title: Option<string>): string {
    if title.Some? then title.value else "None"
  }

  /** `f"### Paper ID {id} ({title}):\n{summary}"`. */
  function Rendered(row: SummaryRow): string {
    Header + IntToString(row.id) + " (" + TitleText(row.title) + "):\n" + row.summary
  }

  function RenderedAll(rows: seq<SummaryRow>): (r: seq<string>)
    ensures |r| == |rows|
    ensures forall i :: 0 <= i < |rows| ==> r[i] == Rendered(rows[i])
    decreases |rows|
  {
    if rows == [] then [] else RenderedAll(rows[..|rows| - 1]) + [Rendered(rows[|rows| - 1])]
  }

  /** `summaries_text`: the rendered summaries, in query order, separated
      by blank lines. */
  function SummariesText(rows: seq<SummaryRow>): string {
    Join("\n\n", RenderedAll(rows))
  }

  /** One step of `run_verification`: read the latest analysis of type
      `subject`; if there is one that is not empty, ask for its check and
      save the report as `report` when the call succeeds. */
  function Checked(o: Outcome, subject: string, report: string, context: string,
                   projectId: string, replies: nat -> Reply): Outcome {
    var content := Latest(o.table, subject);
    if !TruthyText(content) then o
    else
      var asked := o.asked + [Request(subject, content.value, context)];
      var a := CallSpec(Verifier, projectId, replies);
      if a.success then Outcome(Saved(o.table, report, a.text), asked) else Outcome(o.table, asked)
  }

  /** `run_verification()`. */
  function VerificationSpec(connected: bool, rows: seq<SummaryRow>, table: Table, projectId: string,
                            gapReplies: nat -> Reply, proposalReplies: nat -> Reply): Outcome {
    if !connected || rows == [] then Outcome(table, [])
    else
      var context := SummariesText(rows);
      var afterGap := Checked(Outcome(table, []), Gap, GapCheck, context, projectId, gapReplies);
      Checked(afterGap, Proposal, ProposalCheck, context, projectId, proposalReplies)
  }

  method RunVerification(connected: bool, rows: seq<SummaryRow>, table: Table, projectId: string,
                         gapReplies: nat -> Reply, proposalReplies: nat -> Reply)
    returns (out: Table, asked: seq<Request>)
    ensures Outcome(out, asked) == VerificationSpec(connected, rows, table, projectId, gapReplies, proposalReplies)
  {
    out, asked := table, [];
    if !connected {
      return;
    }
    if rows == [] {
      return;
    }
    var context := SummariesText(rows);

    var gap := Latest(out, Gap);
    if TruthyText(gap) {
      asked := asked + [Request(Gap, gap.value, context)];
      var answer := CallGeminiApi(Verifier, projectId, gapReplies);
      if answer.success {
        out := Saved(out, GapCheck, answer.text);
      }
    }

    var proposal := Latest(out, Proposal);
    if TruthyText(proposal) {
      asked := asked + [Request(Proposal, proposal.value, context)];
      var answer := CallGeminiApi(Verifier, projectId, proposalReplies);
      if answer.success {
        out := Saved(out, ProposalCheck, answer.text);
      }
    }
  }

  // ---------------------------------------------------------------------
  // summaries_text.

  /** A further summary adds a blank line and its rendering at the end. */
  lemma SummariesTextAppend(rows: seq<SummaryRow>, row: SummaryRow)
    requires rows != []
    ensures SummariesText(rows + [row]) == SummariesText(rows) + "\n\n" + Rendered(row)
  {
    var parts := RenderedAll(rows);
    assert RenderedAll(rows + [row]) == parts + [Rendered(row)] by {
      assert (rows + [row])[..|rows|] == rows;
    }
    JoinAppend(parts, Rendered(row));
  }

  lemma {:induction false} JoinAppend(parts: seq<string>, last: string)
    requires parts != []
    ensures Join("\n\n", parts + [last]) == Join("\n\n", parts) + "\n\n" + last
    decreases |parts|
  {
    if |parts| > 1 {
      assert (parts + [last])[1..] == parts[1..] + [last];
      JoinAppend(parts[1..], last);
    }
  }

  /** The header line of a rendering holds one line break, right before the
      summary. */
  lemma RenderedShape(row: SummaryRow)
    requires '\n' !in TitleText(row.title)
    ensures var r := Rendered(row); var n := |r| - |row.summary|;
      n >= 1 && r[n - 1] == '\n' && '\n' !in r[..n - 1] && r[n..] == row.summary
  {
    var head := Header + IntToString(row.id) + " (" + TitleText(row.title) + "):";
    var digits := IntToString(row.id);
    assert '\n' !in digits by {
      if row.id >= 0 {
        assert forall i :: 0 <= i < |digits| ==> IsDigit(digits[i]);
      } else {
        assert digits == "-" + digits[1..];
        assert '\n' !in digits[1..];
      }
    }
    assert Rendered(row) == head + "\n" + row.summary;
  }

  /** A summary that is one non-empty paragraph renders with no blank line
      and no line break at its end. */
  lemma RenderedNoBlankLine(row: SummaryRow)
    requires '\n' !in TitleText(row.title) && '\n' !in row.summary && row.summary != []
    ensures Paragraph(Rendered(row)) && Rendered(row) != []
  {
    var r := Rendered(row);
    var n := |r| - |row.summary|;
    RenderedShape(row);
    forall i | 0 <= i && i + 2 <= |r| ensures !OccursAt(r, "\n\n", i) {
      assert r[i..i + 2][0] == r[i] && r[i..i + 2][1] == r[i + 1];
      if i + 1 < n {
        assert r[..n - 1][i] == r[i];
        assert r[i] != '\n';
      } else {
        assert r[i + 1] == row.summary[i + 1 - n];
      }
    }
    assert r[|r| - 1] == row.summary[|row.summary| - 1];
  }

  /** The context text splits on its blank lines into the renderings of the
      summaries, in query order, when every summary and title is a single
      non-empty line. */
  lemma SummariesTextSplits(rows: seq<SummaryRow>)
    requires rows != []
    requires forall i :: 0 <= i < |rows| ==>
      '\n' !in TitleText(rows[i].title) && '\n' !in rows[i].summary && rows[i].summary != []
    ensures Split(SummariesText(rows), "\n\n") == RenderedAll(rows)
  {
    var parts := RenderedAll(rows);
    forall i | 0 <= i < |parts| ensures Paragraph(parts[i]) {
      RenderedNoBlankLine(rows[i]);
    }
    SplitJoinBlankLine(parts);
  }

  // ---------------------------------------------------------------------
  // run_verification.

  /** Whether the check of `subject` is asked for and its report saved. */
  predicate CheckSaved(table: Table, subject: string, projectId: string, replies: nat -> Reply) {
    TruthyText(Latest(table, subject)) && CallSpec(Verifier, projectId, replies).success
  }

  /** Without a connection or without summaries, nothing is asked and
      nothing is saved. */
  lemma NothingWithoutSummaries(connected: bool, rows: seq<SummaryRow>, table: Table, projectId: string,
                                gapReplies: nat -> Reply, proposalReplies: nat -> Reply)
    requires !connected || rows == []
    ensures VerificationSpec(connected, rows, table, projectId, gapReplies, proposalReplies) == Outcome(table, [])
  {
  }

  /** With summaries, each stored non-empty analysis is checked once, in
      the order gap then proposal, every check carrying the joined
      summaries; each report is saved exactly when its call succeeded, and
      no other row changes. */
  lemma VerificationRun(rows: seq<SummaryRow>, table: Table, projectId: string,
                        gapReplies: nat -> Reply, proposalReplies: nat -> Reply)
    requires rows != []
    ensures var o := VerificationSpec(true, rows, table, projectId, gapReplies, proposalReplies);
      var context := SummariesText(rows);
      var gapAsked := if TruthyText(Latest(table, Gap)) then [Request(Gap, table[Gap], context)] else [];
      var proposalAsked := if TruthyText(Latest(table, Proposal)) then [Request(Proposal, table[Proposal], context)] else [];
      && o.asked == gapAsked + proposalAsked
      && (CheckSaved(table, Gap, projectId, gapReplies) ==> Latest(o.table, GapCheck) == Some(CallSpec(Verifier, projectId, gapReplies).text))
      && (!CheckSaved(table, Gap, projectId, gapReplies) ==> Latest(o.table, GapCheck) == Latest(table, GapCheck))
      && (CheckSaved(table, Proposal, projectId, proposalReplies) ==> Latest(o.table, ProposalCheck) == Some(CallSpec(Verifier, projectId, proposalReplies).text))
      && (!CheckSaved(table, Proposal, projectId, proposalReplies) ==> Latest(o.table, ProposalCheck) == Latest(table, ProposalCheck))
      && (forall k :: k != GapCheck && k != ProposalCheck ==> Latest(o.table, k) == Latest(table, k))
  {
    var context := SummariesText(rows);
    var afterGap := Checked(Outcome(table, []), Gap, GapCheck, context, projectId, gapReplies);
    assert Latest(afterGap.table, Proposal) == Latest(table, Proposal);
  }

  /** Without a project id every call fails, so no report is saved. */
  lemma NoProjectNoReports(connected: bool, rows: seq<SummaryRow>, table: Table,
                           gapReplies: nat -> Reply, proposalReplies: nat -> Reply)
    ensures VerificationSpec(connected, rows, table, "", gapReplies, proposalReplies).table == table
  {
    NoProjectNoCall(Verifier, gapReplies);
    NoProjectNoCall(Verifier, proposalReplies);
  }
}
