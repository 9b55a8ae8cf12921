/** The gap-identification agent: from the latest literature survey it asks
    the model for a research-gap analysis, saves it, and from that analysis
    asks for a future research proposal, which it saves too. Each stage
    runs only when the one before it succeeded. The model's answers to the
    two requests are `gapReplies` and `proposalReplies`; the prompts are
    modelled by the text they carry. */
module GapIdentification {
  import opened Values
  import opened ModelRetry
  import opened Analyses

  /** What a prompt carries: the survey, or the gap analysis. */
  datatype Prompt = GapPrompt(survey: string) | ProposalPrompt(gap: string)

  /** The analyses table after a run, and the requests made of the model,
      in order. */
  datatype Outcome = Outcome(table: Table, asked: seq<Prompt>)

  /** `run_gap_identification_agent()`. This copy of `call_gemini_api`
      never looks at `projectId`. */
  function GapSpec(connected: bool, table: Table, projectId: string,
                   gapReplies: nat -> Reply, proposalReplies: nat -> Reply): Outcome {
    var survey := Latest(table, Survey);
    if !connected || !TruthyText(survey) then Outcome(table, [])
    else
      var gap := CallSpec(GapFinder, projectId, gapReplies);
      if !gap.success then Outcome(table, [GapPrompt(survey.value)])
      else
        var withGap := Saved(table, Gap, gap.text);
        var asked := [GapPrompt(survey.value), ProposalPrompt(gap.text)];
        var proposal := CallSpec(GapFinder, projectId, proposalReplies);
        if !proposal.success then Outcome(withGap, asked)
        else Outcome(Saved(withGap, Proposal, proposal.text), asked)
  }

  method RunGapIdentification(connected: bool, table: Table, projectId: string,
                              gapReplies: nat -> Reply, proposalReplies: nat -> Reply)
    returns (out: Table, asked: seq<Prompt>)
    ensures Outcome(out, asked) == GapSpec(connected, table, projectId, gapReplies, proposalReplies)
  {
    out, asked := table, [];
    if !connected {
      return;
    }
    var survey := Latest(out, Survey);
    if !TruthyText(survey) {
      return;
    }

    asked := asked + [GapPrompt(survey.value)];
    var gap := CallGeminiApi(GapFinder, projectId, gapReplies);
    if !gap.success {
      return;
    }
    out := Saved(out, Gap, gap.text);

    asked := asked + [ProposalPrompt(gap.text)];
    var proposal := CallGeminiApi(GapFinder, projectId, proposalReplies);
    if !proposal.success {
      return;
    }
    out := Saved(out, Proposal, proposal.text);
  }

  // ---------------------------------------------------------------------
  // Properties.

  /** Without a connection or a non-empty survey, the model is never
      called and nothing is saved. */
  lemma NoSurveyNoCalls(connected: bool, table: Table, projectId: string,
                        gapReplies: nat -> Reply, proposalReplies: nat -> Reply)
    requires !connected || !TruthyText(Latest(table, Survey))
    ensures GapSpec(connected, table, projectId, gapReplies, proposalReplies) == Outcome(table, [])
  {
  }

  /** A failed gap request ends the run: nothing is saved and no proposal
      is asked for. */
  lemma GapFailureStops(table: Table, projectId: string, gapReplies: nat -> Reply, proposalReplies: nat -> Reply)
    requires TruthyText(Latest(table, Survey))
    requires !CallSpec(GapFinder, projectId, gapReplies).success
    ensures var o := GapSpec(true, table, projectId, gapReplies, proposalReplies);
      o.table == table && o.asked == [GapPrompt(table[Survey])]
  {
  }

  /** Every row the run changes is the gap analysis or the proposal; the
      proposal changes only together with a saved gap analysis whose text
      the proposal request carried, and only when its own call succeeded. */
  lemma ProposalOnlyAfterGap(connected: bool, table: Table, projectId: string,
                             gapReplies: nat -> Reply, proposalReplies: nat -> Reply)
    ensures var o := GapSpec(connected, table, projectId, gapReplies, proposalReplies);
      var gap := CallSpec(GapFinder, projectId, gapReplies);
      var proposal := CallSpec(GapFinder, projectId, proposalReplies);
      && (forall k :: k != Gap && k != Proposal ==> Latest(o.table, k) == Latest(table, k))
      && (o.table != table ==> connected && TruthyText(Latest(table, Survey)) && gap.success
                               && Latest(o.table, Gap) == Some(gap.text))
      && (Latest(o.table, Proposal) != Latest(table, Proposal) ==>
            && gap.success && proposal.success
            && o.asked == [GapPrompt(table[Survey]), ProposalPrompt(gap.text)]
            && Latest(o.table, Proposal) == Some(proposal.text))
  {
  }

  /** With a survey and a successful gap request, the gap analysis is saved,
      the proposal request carries it, and the proposal is saved exactly
      when its call succeeds. */
  lemma GapSuccessFeedsProposal(table: Table, projectId: string, gapReplies: nat -> Reply, proposalReplies: nat -> Reply)
    requires TruthyText(Latest(table, Survey))
    requires CallSpec(GapFinder, projectId, gapReplies).success
    ensures var o := GapSpec(true, table, projectId, gapReplies, proposalReplies);
      var gap := CallSpec(GapFinder, projectId, gapReplies);
      var proposal := CallSpec(GapFinder, projectId, proposalReplies);
      && Latest(o.table, Gap) == Some(gap.text)
      && o.asked == [GapPrompt(table[Survey]), ProposalPrompt(gap.text)]
      && (proposal.success ==> Latest(o.table, Proposal) == Some(proposal.text))
      && (!proposal.success ==> Latest(o.table, Proposal) == Latest(table, Proposal))
  {
  }

  /** This copy makes no project check: the run is the same whatever the
      project id, even an empty one. */
  lemma GapIgnoresProject(connected: bool, table: Table, p1: string, p2: string,
                          gapReplies: nat -> Reply, proposalReplies: nat -> Reply)
    ensures GapSpec(connected, table, p1, gapReplies, proposalReplies)
         == GapSpec(connected, table, p2, gapReplies, proposalReplies)
  {
  }
}
