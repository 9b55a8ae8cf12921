/** The summarisation agent: `clean_text`, which reduces a paper's text to
    single-spaced ASCII, and `run_summarization`, which asks the model for
    a summary of each paper and stores it in the paper's `abstract` only
    when the call succeeded. The papers are those the agent's query
    returns; the prompt's wording is not modelled, and the model's answers
    to the calls for paper `k` are `replies(k)`. */
module Summarization {
  import opened Text
  import opened Values
  import opened ModelRetry

  const SourceLimit: nat := 1000000

  // ---------------------------------------------------------------------
  // clean_text (lines 63-68).

  /** `re.sub(r'[^\x00-\x7F]+', ' ', s)`: every run of non-ASCII
      characters becomes one space. `inRun` says the character before `s`
      was already part of a replaced run. */
  function AsciiOnly(s: string, inRun: bool): (r: string)
    ensures |r| <= |s|
    ensures forall i :: 0 <= i < |r| ==> IsAscii(r[i])
    decreases |s|
  {
    if s == [] then []
    else if !IsAscii(s[0]) then (if inRun then [] else " ") + AsciiOnly(s[1..], true)
    else [s[0]] + AsciiOnly(s[1..], false)
  }

  /** `re.sub(r'\s+', ' ', s)`: every run of white space becomes one
      space. */
  function SingleSpaced(s: string, inRun: bool): (r: string)
    ensures |r| <= |s|
    decreases |s|
  {
    if s == [] then []
    else if IsSpace(s[0]) then (if inRun then [] else " ") + SingleSpaced(s[1..], true)
    else [s[0]] + SingleSpaced(s[1..], false)
  }

  /** `clean_text(raw_text)`; `None` and `""` give `""`. */
  function CleanText(raw: Option<string>): string {
    if !TruthyText(raw) then ""
    else Strip(SingleSpaced(AsciiOnly(raw.value, false), false))
  }

  predicate AllAscii(s: string) {
    forall i :: 0 <= i < |s| ==> IsAscii(s[i])
  }

  /** The only white space is the plain space. */
  predicate PlainSpaces(s: string) {
    forall i :: 0 <= i < |s| ==> IsSpace(s[i]) ==> s[i] == ' '
  }

  predicate NoDoubleSpace(s: string) {
    forall i :: 0 <= i < |s| - 1 ==> !(s[i] == ' ' && s[i + 1] == ' ')
  }

  predicate Trimmed(s: string) {
    s == [] || (!IsSpace(s[0]) && !IsSpace(s[|s| - 1]))
  }

  /** ASCII text whose only white space is single spaces between other
      characters: what `clean_text` produces. */
  predicate Tidy(s: string) {
    AllAscii(s) && PlainSpaces(s) && NoDoubleSpace(s) && Trimmed(s)
  }

  // ---------------------------------------------------------------------
  // run_summarization (lines 104-150).

  /** A row of the query: a paper with a full text and no structured
      summary yet. The title column may be `NULL`. */
  datatype Paper = Paper(id: int, title: Option<string>, fullText: string)

  /** The text the prompt carries: the first million characters, cleaned. */
  function SourceText(p: Paper): string {
    CleanText(Some(Prefix(p.fullText, SourceLimit)))
  }

  /** How many papers the loop gets through: the progress line slices the
      title, so the first paper without one raises `TypeError`, which ends
      the run before that paper's call. */
  function Reached(papers: seq<Paper>): (r: nat)
    ensures r <= |papers|
    ensures forall i :: 0 <= i < r ==> papers[i].title.Some?
    ensures r < |papers| ==> papers[r].title.None?
    decreases |papers|
  {
    if papers == [] || papers[0].title.None? then 0 else 1 + Reached(papers[1..])
  }

  /** The `abstract` column after the calls for `papers`, starting from
      `abstracts`. Defined on the last paper so that the loop extends it
      paper by paper. */
  function Summarized(projectId: string, papers: seq<Paper>, replies: nat -> nat -> Reply,
                      abstracts: map<int, string>): map<int, string>
    decreases |papers|
  {
    if papers == [] then abstracts
    else
      var n := |papers| - 1;
      var before := Summarized(projectId, papers[..n], replies, abstracts);
      var a := CallSpec(Summarizer, projectId, replies(n));
      if a.success then before[papers[n].id := a.text] else before
  }

  /** The texts sent to the model, one per paper reached, in order. */
  function Sent(papers: seq<Paper>): (r: seq<string>)
    ensures |r| == |papers|
    ensures forall i :: 0 <= i < |papers| ==> r[i] == SourceText(papers[i])
    decreases |papers|
  {
    if papers == [] then [] else Sent(papers[..|papers| - 1]) + [SourceText(papers[|papers| - 1])]
  }

  /** `run_summarization()`: the `abstract` column afterwards and the texts
      sent to the model. Nothing happens without a connection. */
  datatype Outcome = Outcome(abstracts: map<int, string>, sent: seq<string>)

  function SummarizationSpec(connected: bool, projectId: string, papers: seq<Paper>,
                             replies: nat -> nat -> Reply, abstracts: map<int, string>): Outcome {
    if !connected then Outcome(abstracts, [])
    else
      var done := papers[..Reached(papers)];
      Outcome(Summarized(projectId, done, replies, abstracts), Sent(done))
  }

  method RunSummarization(connected: bool, projectId: string, papers: seq<Paper>,
                          replies: nat -> nat -> Reply, abstracts: map<int, string>)
    returns (updated: map<int, string>, sent: seq<string>)
    ensures Outcome(updated, sent) == SummarizationSpec(connected, projectId, papers, replies, abstracts)
  {
    updated, sent := abstracts, [];
    if !connected {
      return;
    }
    var k := 0;
    while k < |papers|
      invariant 0 <= k <= Reached(papers)
      invariant updated == Summarized(projectId, papers[..k], replies, abstracts)
      invariant sent == Sent(papers[..k])
    {
      if papers[k].title.None? {
        break;
      }
      ghost var next := papers[..k + 1];
      assert next[..k] == papers[..k] && next[k] == papers[k];
      assert Sent(next) == Sent(papers[..k]) + [SourceText(papers[k])];
      sent := sent + [SourceText(papers[k])];
      var answer := CallGeminiApi(Summarizer, projectId, replies(k));
      if answer.success {
        updated := updated[papers[k].id := answer.text];
      }
      k := k + 1;
    }
    assert k == Reached(papers);
  }

  // ---------------------------------------------------------------------
  // Properties of clean_text.

  /** A slice of tidy-spaced ASCII text is tidy-spaced ASCII text. */
  lemma SliceTidy(s: string, k: nat, n: nat)
    requires k + n <= |s|
    requires AllAscii(s) && PlainSpaces(s) && NoDoubleSpace(s)
    ensures var t := s[k..k + n]; AllAscii(t) && PlainSpaces(t) && NoDoubleSpace(t)
  {
    var t := s[k..k + n];
    assert forall i :: 0 <= i < |t| ==> t[i] == s[k + i];
  }

  /** Joining two single-spaced ASCII texts keeps them so unless a space
      meets a space at the seam. */
  lemma ConcatSpaced(a: string, b: string)
    requires AllAscii(a) && PlainSpaces(a) && NoDoubleSpace(a)
    requires AllAscii(b) && PlainSpaces(b) && NoDoubleSpace(b)
    requires a == [] || b == [] || !(a[|a| - 1] == ' ' && b[0] == ' ')
    ensures var r := a + b; AllAscii(r) && PlainSpaces(r) && NoDoubleSpace(r)
  {
    var r := a + b;
    forall i | 0 <= i < |r| ensures IsAscii(r[i]) && (IsSpace(r[i]) ==> r[i] == ' ') {
      if i >= |a| {
        assert r[i] == b[i - |a|];
      }
    }
    forall i | 0 <= i < |r| - 1 ensures !(r[i] == ' ' && r[i + 1] == ' ') {
      if i >= |a| {
        assert r[i] == b[i - |a|] && r[i + 1] == b[i + 1 - |a|];
      }
    }
  }

  /** Collapsing white space keeps ASCII text ASCII and leaves only single
      spaces; after a run, the next character is not white space. */
  lemma {:induction false} SingleSpacedShape(s: string, inRun: bool)
    requires AllAscii(s)
    ensures var r := SingleSpaced(s, inRun);
      AllAscii(r) && PlainSpaces(r) && NoDoubleSpace(r) && (inRun ==> r == [] || !IsSpace(r[0]))
    decreases |s|
  {
    if s != [] {
      assert AllAscii(s[1..]);
      SingleSpacedShape(s[1..], IsSpace(s[0]));
      var rest := SingleSpaced(s[1..], IsSpace(s[0]));
      var head: string := if IsSpace(s[0]) then (if inRun then [] else " ") else [s[0]];
      assert SingleSpaced(s, inRun) == head + rest;
      ConcatSpaced(head, rest);
    }
  }

  /** `clean_text` gives ASCII text, no longer than its input, with single
      spaces as its only white space and none at either end. */
  lemma CleanTextTidy(raw: Option<string>)
    ensures Tidy(CleanText(raw))
    ensures raw.Some? ==> |CleanText(raw)| <= |raw.value|
  {
    if TruthyText(raw) {
      var spaced := SingleSpaced(AsciiOnly(raw.value, false), false);
      SingleSpacedShape(AsciiOnly(raw.value, false), false);
      var k := StripSlice(spaced);
      SliceTidy(spaced, k, |Strip(spaced)|);
    }
  }

  /** ASCII text passes the first substitution unchanged. */
  lemma {:induction false} AsciiOnlyKeepsAscii(s: string, inRun: bool)
    requires AllAscii(s)
    ensures AsciiOnly(s, inRun) == s
    decreases |s|
  {
    if s != [] {
      assert AllAscii(s[1..]);
      AsciiOnlyKeepsAscii(s[1..], false);
    }
  }

  /** Text that is already single-spaced passes the second substitution
      unchanged. */
  lemma {:induction false} SingleSpacedKeepsTidy(s: string, inRun: bool)
    requires PlainSpaces(s) && NoDoubleSpace(s)
    requires inRun ==> s == [] || !IsSpace(s[0])
    ensures SingleSpaced(s, inRun) == s
    decreases |s|
  {
    if s != [] {
      var t := s[1..];
      assert PlainSpaces(t) && NoDoubleSpace(t) by {
        assert forall i :: 0 <= i < |t| ==> t[i] == s[i + 1];
      }
      if |s| > 1 && IsSpace(s[0]) {
        assert s[0] == ' ' && !(s[0] == ' ' && s[1] == ' ');
        assert s[1] != ' ';
        assert !IsSpace(t[0]);
      }
      SingleSpacedKeepsTidy(t, IsSpace(s[0]));
      assert SingleSpaced(s, inRun) == (if IsSpace(s[0]) then " " else [s[0]]) + t;
    }
  }

  /** Cleaning clean text changes nothing. */
  lemma CleanTextIdempotent(raw: Option<string>)
    ensures CleanText(Some(CleanText(raw))) == CleanText(raw)
  {
    var c := CleanText(raw);
    CleanTextTidy(raw);
    if c != "" {
      AsciiOnlyKeepsAscii(c, false);
      SingleSpacedKeepsTidy(c, false);
      StripUnchanged(c);
      assert CleanText(Some(c)) == Strip(SingleSpaced(AsciiOnly(c, false), false));
    }
  }

  /** Each maximal run of non-ASCII characters becomes a single space: the
      text before the run is handled on its own, and the text after it as
      if it started afresh. */
  lemma {:induction false} NonAsciiRunOneSpace(a: string, run: string, b: string)
    requires AllAscii(a)
    requires run != [] && forall i :: 0 <= i < |run| ==> !IsAscii(run[i])
    requires b == [] || IsAscii(b[0])
    ensures AsciiOnly(a + run + b, false) == a + " " + AsciiOnly(b, false)
    decreases |a|
  {
    if a == [] {
      assert a + run + b == run + b;
      RunDropped(run, b);
      assert AsciiOnly(run + b, false) == " " + AsciiOnly((run + b)[1..], true);
      assert (run + b)[1..] == run[1..] + b;
    } else {
      assert (a + run + b)[1..] == a[1..] + run + b;
      NonAsciiRunOneSpace(a[1..], run, b);
    }
  }

  /** Inside a run, the rest of the run adds nothing. */
  lemma {:induction false} RunDropped(run: string, b: string)
    requires run != [] && forall i :: 0 <= i < |run| ==> !IsAscii(run[i])
    requires b == [] || IsAscii(b[0])
    ensures AsciiOnly(run[1..] + b, true) == AsciiOnly(b, false)
    decreases |run|
  {
    if |run| == 1 {
      assert run[1..] + b == b;
      if b != [] {
        assert AsciiOnly(b, true) == [b[0]] + AsciiOnly(b[1..], false);
      }
    } else {
      assert (run[1..] + b)[1..] == run[2..] + b;
      assert run[1..][1..] == run[2..];
      RunDropped(run[1..], b);
    }
  }

  // ---------------------------------------------------------------------
  // Properties of run_summarization.

  /** The source text is at most a million characters of clean text. */
  lemma SourceTextBounded(p: Paper)
    ensures |SourceText(p)| <= SourceLimit
    ensures Tidy(SourceText(p))
  {
    CleanTextTidy(Some(Prefix(p.fullText, SourceLimit)));
  }

  /** A paper's abstract is written only when its call succeeded: every
      entry of the result is either the entry it had, or the summary of a
      paper with that id whose call succeeded. */
  lemma {:induction false} UpdatedOnlyOnSuccess(projectId: string, papers: seq<Paper>,
                                                replies: nat -> nat -> Reply, abstracts: map<int, string>)
    ensures var m := Summarized(projectId, papers, replies, abstracts);
      forall id :: id in m ==>
        (id in abstracts && m[id] == abstracts[id])
        || exists k :: 0 <= k < |papers| && papers[k].id == id
             && CallSpec(Summarizer, projectId, replies(k)).success
             && m[id] == CallSpec(Summarizer, projectId, replies(k)).text
    ensures abstracts.Keys <= Summarized(projectId, papers, replies, abstracts).Keys
    decreases |papers|
  {
    if papers != [] {
      var n := |papers| - 1;
      UpdatedOnlyOnSuccess(projectId, papers[..n], replies, abstracts);
    }
  }

  /** The last successful call for a paper decides its abstract. */
  lemma {:induction false} LastSuccessWins(projectId: string, papers: seq<Paper>,
                                           replies: nat -> nat -> Reply, abstracts: map<int, string>, k: nat)
    requires k < |papers| && CallSpec(Summarizer, projectId, replies(k)).success
    requires forall j :: k < j < |papers| ==> papers[j].id != papers[k].id
    ensures var m := Summarized(projectId, papers, replies, abstracts);
      papers[k].id in m && m[papers[k].id] == CallSpec(Summarizer, projectId, replies(k)).text
    decreases |papers|
  {
    var n := |papers| - 1;
    if k < n {
      LastSuccessWins(projectId, papers[..n], replies, abstracts, k);
    }
  }

  /** Papers that are not summarised keep their abstract. */
  lemma {:induction false} OthersUntouched(projectId: string, papers: seq<Paper>,
                                           replies: nat -> nat -> Reply, abstracts: map<int, string>, id: int)
    requires forall k :: 0 <= k < |papers| && papers[k].id == id ==> !CallSpec(Summarizer, projectId, replies(k)).success
    ensures var m := Summarized(projectId, papers, replies, abstracts);
      (id in m <==> id in abstracts) && (id in m ==> m[id] == abstracts[id])
    decreases |papers|
  {
    if papers != [] {
      OthersUntouched(projectId, papers[..|papers| - 1], replies, abstracts, id);
    }
  }

  /** A run sends one clean text of at most a million characters for each
      paper before the first untitled one, in order, and no other; an
      abstract changes only for a paper among those whose call succeeded. */
  lemma SummarizationRun(projectId: string, papers: seq<Paper>, replies: nat -> nat -> Reply,
                         abstracts: map<int, string>)
    ensures var o := SummarizationSpec(true, projectId, papers, replies, abstracts);
      var r := Reached(papers);
      && |o.sent| == r
      && (forall i :: 0 <= i < r ==> o.sent[i] == SourceText(papers[i]) && Tidy(o.sent[i]) && |o.sent[i]| <= SourceLimit)
      && (forall id :: (forall k :: 0 <= k < r && papers[k].id == id ==> !CallSpec(Summarizer, projectId, replies(k)).success)
            ==> (id in o.abstracts <==> id in abstracts) && (id in abstracts ==> o.abstracts[id] == abstracts[id]))
  {
    var done := papers[..Reached(papers)];
    forall i | 0 <= i < |done| ensures Tidy(SourceText(papers[i])) && |SourceText(papers[i])| <= SourceLimit {
      SourceTextBounded(papers[i]);
    }
    forall id | forall k :: 0 <= k < |done| && papers[k].id == id ==> !CallSpec(Summarizer, projectId, replies(k)).success
      ensures var m := Summarized(projectId, done, replies, abstracts);
        (id in m <==> id in abstracts) && (id in abstracts ==> m[id] == abstracts[id])
    {
      OthersUntouched(projectId, done, replies, abstracts, id);
    }
  }

  /** Without a project id every call fails at once, so no abstract
      changes. */
  lemma NoProjectNoSummaries(connected: bool, papers: seq<Paper>, replies: nat -> nat -> Reply,
                             abstracts: map<int, string>)
    ensures SummarizationSpec(connected, "", papers, replies, abstracts).abstracts == abstracts
  {
    var done := papers[..Reached(papers)];
    forall k | 0 <= k < |done| ensures !CallSpec(Summarizer, "", replies(k)).success {
      NoProjectNoCall(Summarizer, replies(k));
    }
    forall id ensures (id in Summarized("", done, replies, abstracts) <==> id in abstracts)
                      && (id in abstracts ==> Summarized("", done, replies, abstracts)[id] == abstracts[id]) {
      OthersUntouched("", done, replies, abstracts, id);
    }
  }
}
