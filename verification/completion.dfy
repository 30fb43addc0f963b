/**
 * The completion client (app.py lines 66-89): up to three POST attempts,
 * a back-off delay of 2^i seconds after failed attempt i, and defensive
 * extraction of the first candidate's first text part.
 *
 * The network is replaced by a scripted sequence of transport outcomes, one
 * per attempt, and `time.sleep` by a recorded list of delays.
 */
module Completion {
  import opened Wrappers

  /** `for i in range(3)` in `call_gemini_api`. */
  const MaxRetries := 3

  /**
   * The part of the generateContent JSON reply that the client reads. A
   * missing key is `None`; the client substitutes its default for it.
   */
  datatype Part = Part(text: Option<string>)
  datatype Content = Content(parts: Option<seq<Part>>)
  datatype Candidate = Candidate(content: Option<Content>)
  datatype Reply = Reply(candidates: Option<seq<Candidate>>)

  /**
   * One POST attempt. `RequestFailed` stands for every
   * `requests.exceptions.RequestException`: connection error, timeout,
   * an HTTP error status from `raise_for_status`, and, from requests 2.27
   * on, a body that is not JSON. Before 2.27 `response.json()` raises a
   * plain `ValueError` there, outside the handler, which aborts the pass.
   */
  datatype Transport = RequestFailed | Received(reply: Reply)

  /**
   * Extraction does not raise: `[0]` is applied only to the defaults `[{}]`
   * or to lists that are present, so a present list must not be empty.
   */
  predicate Extractable(reply: Reply) {
    match reply.candidates
    case None => true
    case Some(cs) =>
      && |cs| > 0
      && match cs[0].content
         case None => true
         case Some(content) => content.parts.None? || |content.parts.value| > 0
  }

  /** The reply carries a text at candidates[0].content.parts[0].text. */
  predicate HasText(reply: Reply) {
    && reply.candidates.Some? && |reply.candidates.value| > 0
    && reply.candidates.value[0].content.Some?
    && reply.candidates.value[0].content.value.parts.Some?
    && |reply.candidates.value[0].content.value.parts.value| > 0
    && reply.candidates.value[0].content.value.parts.value[0].text.Some?
  }

  /**
   * Lines 83-85: each missing key falls back to `[{}]`, `{}` or `''`, so the
   * text is found exactly where the endpoint puts it, and the result is ""
   * as soon as any of candidates, content, parts or text is missing.
   */
  function ExtractText(reply: Reply): (t: string)
    requires Extractable(reply)
    ensures HasText(reply) ==> t == reply.candidates.value[0].content.value.parts.value[0].text.value
    ensures !HasText(reply) ==> t == ""
  {
    var candidate := match reply.candidates
      case None => Candidate(None)
      case Some(cs) => cs[0];
    var content := candidate.content.GetOr(Content(None));
    var part := match content.parts
      case None => Part(None)
      case Some(ps) => ps[0];
    part.text.GetOr("")
  }

  /** The reply a well-behaved endpoint sends for `text`. */
  function ReplyWith(text: string): (reply: Reply) {
    Reply(Some([Candidate(Some(Content(Some([Part(Some(text))]))))]))
  }

  lemma ExtractTextRoundTrip(text: string)
    ensures Extractable(ReplyWith(text)) && HasText(ReplyWith(text))
    ensures ExtractText(ReplyWith(text)) == text
  {
  }

  /** 2^i, the sleep after failed attempt i: 1, 2 and 4 seconds for the three attempts. */
  function Backoff(i: nat): (d: nat)
    ensures i < MaxRetries ==> d == [1, 2, 4][i]
  {
    if i == 0 then 1 else 2 * Backoff(i - 1)
  }

  /** Every attempt before `n` failed at the transport level. */
  predicate FailedBefore(outcomes: seq<Transport>, n: nat)
    requires n <= |outcomes|
  {
    forall j :: 0 <= j < n ==> outcomes[j].RequestFailed?
  }

  /**
   * `call_gemini_api`. Returns the text (or `None`), the delays slept, and the
   * number of POST attempts made.
   */
  method CallCompletion(outcomes: seq<Transport>) returns (text: Option<string>, delays: seq<nat>, attempts: nat)
    requires |outcomes| >= MaxRetries
    requires forall i :: 0 <= i < MaxRetries && outcomes[i].Received? && FailedBefore(outcomes, i) ==> Extractable(outcomes[i].reply)
    ensures 1 <= attempts <= MaxRetries
    ensures FailedBefore(outcomes, attempts - 1)
    ensures text.Some? <==> outcomes[attempts - 1].Received?
    ensures text.Some? ==> text.value == ExtractText(outcomes[attempts - 1].reply)
    ensures text.None? <==> FailedBefore(outcomes, MaxRetries)
    ensures |delays| == (if text.Some? then attempts - 1 else attempts)
    ensures forall i :: 0 <= i < |delays| ==> delays[i] == Backoff(i)
    ensures text.None? ==> delays == [1, 2, 4]
  {
    delays := [];
    attempts := 0;
    var i := 0;
    while i < MaxRetries
      invariant 0 <= i <= MaxRetries
      invariant attempts == i
      invariant FailedBefore(outcomes, i)
      invariant |delays| == i
      invariant forall k :: 0 <= k < i ==> delays[k] == Backoff(k)
    {
      attempts := attempts + 1;
      match outcomes[i] {
        case Received(reply) =>
          text := Some(ExtractText(reply));
          return;
        case RequestFailed =>
          delays := delays + [Backoff(i)];
      }
      i := i + 1;
    }
    text := None;
    assert Backoff(1) == 2 && Backoff(2) == 4;
  }
}
