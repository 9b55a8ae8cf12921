/** `call_gemini_api`, written three times over (in the summarisation,
    verification and gap-identification agents) with the same retry loop:
    at most five calls, a wait of 15 s doubled after every rate-limited
    call, and an immediate answer for anything else. The three copies
    differ only in their messages and in whether they check the project
    id first. The model's answer to call `k` is the parameter `replies(k)`;
    the waits are returned instead of slept. */
module ModelRetry {
  import opened Text
  import opened Values

  const MaxRetries: nat := 5
  const FirstDelay: nat := 15
  const RateLimitCode: string := "429"
  const NotConfigured: string := "GCP Project ID not configured."
  const RetriesExhausted: string := "Failed to get response after multiple retries due to rate limiting."

  /** The agent a copy of `call_gemini_api` belongs to. */
  datatype Agent = Summarizer | Verifier | GapFinder

  /** What one `generate_content` call gives: a candidate with content
      (`response.text`), no content (the finish reason of the first
      candidate, or `None` when there is no candidate), or an exception
      (`str(e)`). */
  datatype Reply = Content(text: string) | Blocked(finish: Option<string>) | Error(message: string)

  /** The `(success, text)` pair, the waits slept, and the number of calls
      made. */
  datatype Answer = Answer(success: bool, text: string, waits: seq<nat>, calls: nat)

  /** The gap-identification copy calls the model without checking the
      project id. */
  predicate ChecksProject(agent: Agent) {
    !agent.GapFinder?
  }

  /** An exception whose text contains `429`. */
  predicate RateLimited(r: Reply) {
    r.Error? && MentionsCode(r.message)
  }

  /** `"429" in m`, scanned from the front. */
  predicate MentionsCode(m: string)
    decreases |m|
  {
    |m| >= |RateLimitCode| && (m[..|RateLimitCode|] == RateLimitCode || MentionsCode(m[1..]))
  }

  /** The scan finds the code exactly when it occurs in the text. */
  lemma {:induction false} MentionsCodeContains(m: string)
    ensures MentionsCode(m) <==> Contains(m, RateLimitCode)
    decreases |m|
  {
    if |m| >= |RateLimitCode| && m[..|RateLimitCode|] != RateLimitCode {
      MentionsCodeContains(m[1..]);
    }
  }

  const UnknownReason: string := "UNKNOWN"
  const BlockedOrEmpty: string := "Response was blocked or empty. Reason: "
  const BlockedOnly: string := "Response was blocked. Reason: "
  const UnexpectedError: string := "An unexpected error occurred: "
  const VertexError: string := "Vertex AI API Error: "

  function BlockedMessage(agent: Agent, finish: Option<string>): string {
    var reason := if finish.Some? then finish.value else UnknownReason;
    if agent.Summarizer? then BlockedOrEmpty + reason
    else BlockedOnly + reason
  }

  function ErrorMessage(agent: Agent, message: string): string {
    if agent.Summarizer? then UnexpectedError + message
    else VertexError + message
  }

  /** The answer to a call that is not retried; a success still carries
      the reply's text as given. */
  function Final(agent: Agent, r: Reply): Answer
    requires !RateLimited(r)
  {
    match r
    case Content(t) => Answer(true, t, [], 1)
    case Blocked(f) => Answer(false, BlockedMessage(agent, f), [], 1)
    case Error(m) => Answer(false, ErrorMessage(agent, m), [], 1)
  }

  /** An answer from a later call, after the rate-limited calls that
      slept `waits`. */
  function Resumed(waits: seq<nat>, a: Answer): Answer {
    a.(waits := waits + a.waits, calls := |waits| + a.calls)
  }

  /** The loop from call `attempt` on, with the wait `delay` next in line. */
  function Attempts(agent: Agent, replies: nat -> Reply, attempt: nat, delay: nat): Answer
    decreases MaxRetries - attempt
  {
    if attempt >= MaxRetries then Answer(false, RetriesExhausted, [], 0)
    else if RateLimited(replies(attempt)) then Resumed([delay], Attempts(agent, replies, attempt + 1, 2 * delay))
    else Final(agent, replies(attempt))
  }

  /** `response.text.strip()`: a success hands back the stripped text. */
  function Delivered(a: Answer): Answer {
    if a.success then a.(text := Strip(a.text)) else a
  }

  /** `call_gemini_api(prompt)` of the given agent. */
  function CallSpec(agent: Agent, projectId: string, replies: nat -> Reply): Answer {
    if ChecksProject(agent) && projectId == "" then Answer(false, NotConfigured, [], 0)
    else Delivered(Attempts(agent, replies, 0, FirstDelay))
  }

  /** The loop itself. */
  method CallGeminiApi(agent: Agent, projectId: string, replies: nat -> Reply) returns (a: Answer)
    ensures a == CallSpec(agent, projectId, replies)
  {
    if ChecksProject(agent) && projectId == "" {
      return Answer(false, NotConfigured, [], 0);
    }
    var delay := FirstDelay;
    var waits: seq<nat> := [];
    var attempt := 0;
    while attempt < MaxRetries
      invariant 0 <= attempt <= MaxRetries && |waits| == attempt
      invariant Resumed(waits, Attempts(agent, replies, attempt, delay)) == Attempts(agent, replies, 0, FirstDelay)
    {
      var reply := replies(attempt);
      if !RateLimited(reply) {
        assert Attempts(agent, replies, attempt, delay) == Final(agent, reply);
        return Delivered(Resumed(waits, Final(agent, reply)));
      }
      assert Attempts(agent, replies, attempt, delay) == Resumed([delay], Attempts(agent, replies, attempt + 1, 2 * delay));
      ResumedTwice(waits, [delay], Attempts(agent, replies, attempt + 1, 2 * delay));
      waits := waits + [delay];
      delay := delay * 2;
      attempt := attempt + 1;
    }
    return Resumed(waits, Answer(false, RetriesExhausted, [], 0));
  }

  lemma ResumedTwice(w1: seq<nat>, w2: seq<nat>, a: Answer)
    ensures Resumed(w1, Resumed(w2, a)) == Resumed(w1 + w2, a)
  {
    assert w1 + (w2 + a.waits) == (w1 + w2) + a.waits;
  }

  // ---------------------------------------------------------------------
  // Properties.

  /** Call `k` is made exactly when the calls before it were all rate
      limited. */
  predicate LimitedBefore(replies: nat -> Reply, k: nat) {
    forall i :: 0 <= i < k ==> RateLimited(replies(i))
  }

  /** From call `attempt` on: at most five calls in all, one wait per
      rate-limited call and one more call only for an answer; running out
      of calls is the only way to end on a wait. */
  lemma {:induction false} AttemptsCalls(agent: Agent, replies: nat -> Reply, attempt: nat, delay: nat)
    requires attempt <= MaxRetries
    ensures var a := Attempts(agent, replies, attempt, delay);
      && attempt + a.calls <= MaxRetries
      && |a.waits| <= a.calls <= |a.waits| + 1
      && (forall i :: attempt <= i < attempt + |a.waits| ==> RateLimited(replies(i)))
      && (a.calls == |a.waits| ==> !a.success && a.text == RetriesExhausted && attempt + a.calls == MaxRetries)
    decreases MaxRetries - attempt
  {
    if attempt < MaxRetries {
      var a := Attempts(agent, replies, attempt, delay);
      if RateLimited(replies(attempt)) {
        var rest := Attempts(agent, replies, attempt + 1, 2 * delay);
        AttemptsCalls(agent, replies, attempt + 1, 2 * delay);
        assert a == Resumed([delay], rest);
        forall i | attempt < i < attempt + |a.waits| ensures RateLimited(replies(i)) {
          assert attempt + 1 <= i < attempt + 1 + |rest.waits|;
        }
      } else {
        assert a == Final(agent, replies(attempt));
      }
    }
  }

  /** `n` waits doubling from `d`. */
  function Doubling(d: nat, n: nat): (r: seq<nat>)
    ensures |r| == n
    decreases n
  {
    if n == 0 then [] else [d] + Doubling(2 * d, n - 1)
  }

  lemma {:induction false} DoublingAt(d: nat, n: nat)
    ensures forall i :: 0 <= i < n ==> Doubling(d, n)[i] == d * Pow2(i)
    decreases n
  {
    if n > 0 {
      DoublingAt(2 * d, n - 1);
      forall i | 0 <= i < n ensures Doubling(d, n)[i] == d * Pow2(i) {
        if i > 0 {
          assert Doubling(d, n)[i] == Doubling(2 * d, n - 1)[i - 1];
          assert (2 * d) * Pow2(i - 1) == d * (2 * Pow2(i - 1));
        }
      }
    }
  }

  /** The waits double, starting from `delay`. */
  lemma {:induction false} AttemptsWaits(agent: Agent, replies: nat -> Reply, attempt: nat, delay: nat)
    ensures var a := Attempts(agent, replies, attempt, delay);
      a.waits == Doubling(delay, |a.waits|)
    decreases MaxRetries - attempt
  {
    if attempt < MaxRetries && RateLimited(replies(attempt)) {
      var rest := Attempts(agent, replies, attempt + 1, 2 * delay);
      AttemptsWaits(agent, replies, attempt + 1, 2 * delay);
      assert Attempts(agent, replies, attempt, delay).waits == [delay] + rest.waits;
    }
  }

  /** A success is the stripped text of the call after the waits. */
  lemma {:induction false} AttemptsSuccess(agent: Agent, replies: nat -> Reply, attempt: nat, delay: nat)
    ensures var a := Attempts(agent, replies, attempt, delay);
      a.success ==> a.calls == |a.waits| + 1
                    && replies(attempt + |a.waits|).Content?
                    && a.text == replies(attempt + |a.waits|).text
    decreases MaxRetries - attempt
  {
    if attempt < MaxRetries && RateLimited(replies(attempt)) {
      var rest := Attempts(agent, replies, attempt + 1, 2 * delay);
      AttemptsSuccess(agent, replies, attempt + 1, 2 * delay);
      assert Attempts(agent, replies, attempt, delay) == Resumed([delay], rest);
    }
  }

  /** The whole call: at most five calls to the model, waits of 15, 30,
      60, 120 and 240 seconds at most, and only after a rate-limited call;
      a success carries the stripped text of the call that answered, made
      after nothing but rate-limited calls. */
  lemma CallShape(agent: Agent, projectId: string, replies: nat -> Reply)
    ensures var a := CallSpec(agent, projectId, replies);
      && a.calls <= MaxRetries
      && |a.waits| <= a.calls
      && (forall i :: 0 <= i < |a.waits| ==> a.waits[i] == FirstDelay * Pow2(i))
      && (forall i :: 0 <= i < |a.waits| ==> RateLimited(replies(i)))
      && (a.success ==> var k := |a.waits|;
            a.calls == k + 1 && LimitedBefore(replies, k) && replies(k).Content?
            && a.text == Strip(replies(k).text))
  {
    if !ChecksProject(agent) || projectId != "" {
      var raw := Attempts(agent, replies, 0, FirstDelay);
      assert CallSpec(agent, projectId, replies) == Delivered(raw);
      AttemptsCalls(agent, replies, 0, FirstDelay);
      AttemptsWaits(agent, replies, 0, FirstDelay);
      DoublingAt(FirstDelay, |raw.waits|);
      AttemptsSuccess(agent, replies, 0, FirstDelay);
      DeliveredShape(raw);
    }
  }

  lemma DeliveredShape(a: Answer)
    ensures var d := Delivered(a);
      d.success == a.success && d.waits == a.waits && d.calls == a.calls
      && (a.success ==> d.text == Strip(a.text)) && (!a.success ==> d.text == a.text)
  {
  }

  /** Without a project id the summarisation and verification copies
      answer at once, without calling the model. */
  lemma NoProjectNoCall(agent: Agent, replies: nat -> Reply)
    requires ChecksProject(agent)
    ensures CallSpec(agent, "", replies) == Answer(false, NotConfigured, [], 0)
  {
  }

  /** A blocked answer or an error without `429` ends the call at once. */
  lemma FailFast(agent: Agent, projectId: string, replies: nat -> Reply, k: nat)
    requires !ChecksProject(agent) || projectId != ""
    requires k < MaxRetries && LimitedBefore(replies, k)
    requires replies(k).Blocked? || (replies(k).Error? && !RateLimited(replies(k)))
    ensures var a := CallSpec(agent, projectId, replies);
      && !a.success && a.calls == k + 1 && |a.waits| == k
      && a.text == (if replies(k).Blocked? then BlockedMessage(agent, replies(k).finish)
                    else ErrorMessage(agent, replies(k).message))
  {
    FailFastFrom(agent, replies, 0, FirstDelay, k);
  }

  lemma {:induction false} FailFastFrom(agent: Agent, replies: nat -> Reply, attempt: nat, delay: nat, k: nat)
    requires attempt <= k < MaxRetries
    requires forall i :: attempt <= i < k ==> RateLimited(replies(i))
    requires replies(k).Blocked? || (replies(k).Error? && !RateLimited(replies(k)))
    ensures var a := Attempts(agent, replies, attempt, delay);
      && !a.success && attempt + a.calls == k + 1 && attempt + |a.waits| == k
      && a.text == (if replies(k).Blocked? then BlockedMessage(agent, replies(k).finish)
                    else ErrorMessage(agent, replies(k).message))
    decreases k - attempt
  {
    if attempt < k {
      assert RateLimited(replies(attempt));
      FailFastFrom(agent, replies, attempt + 1, 2 * delay, k);
    }
  }

  /** Five rate-limited calls in a row exhaust the retries after waits of
      15, 30, 60, 120 and 240 seconds. */
  lemma RateLimitedFiveTimes(agent: Agent, projectId: string, replies: nat -> Reply)
    requires !ChecksProject(agent) || projectId != ""
    requires LimitedBefore(replies, MaxRetries)
    ensures CallSpec(agent, projectId, replies)
            == Answer(false, RetriesExhausted, [15, 30, 60, 120, 240], 5)
  {
    assert RateLimited(replies(0)) && RateLimited(replies(1)) && RateLimited(replies(2))
           && RateLimited(replies(3)) && RateLimited(replies(4));
    assert Attempts(agent, replies, 4, 240) == Answer(false, RetriesExhausted, [240], 1);
    assert Attempts(agent, replies, 3, 120) == Answer(false, RetriesExhausted, [120, 240], 2);
    assert Attempts(agent, replies, 2, 60) == Answer(false, RetriesExhausted, [60, 120, 240], 3);
    assert Attempts(agent, replies, 1, 30) == Answer(false, RetriesExhausted, [30, 60, 120, 240], 4);
  }

  /** The three copies make the same calls, wait the same waits and
      succeed with the same text; they differ only in their failure
      messages (and the project check). */
  lemma {:induction false} CopiesAgree(a1: Agent, a2: Agent, replies: nat -> Reply, attempt: nat, delay: nat)
    ensures var x, y := Attempts(a1, replies, attempt, delay), Attempts(a2, replies, attempt, delay);
      && x.success == y.success && x.waits == y.waits && x.calls == y.calls
      && (x.success ==> x.text == y.text)
    decreases MaxRetries - attempt
  {
    if attempt < MaxRetries && RateLimited(replies(attempt)) {
      CopiesAgree(a1, a2, replies, attempt + 1, 2 * delay);
    }
  }
}
