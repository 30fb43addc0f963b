/**
 * The generate-validate-repair loop run for one parser record (app.py lines
 * 108-194, without the file write, the log lines and the ZIP/upload steps).
 *
 * The completion client is replaced by `responses`, its answer to the k-th
 * call of this record, and the read of the JavaScript source by `source`
 * (`None` when the file is missing). The two calls the loop makes on a
 * response are bundled in `Checks`: the program uses the fence cleanup of
 * `Fences` and `ast.parse`, which is left abstract (`ProgramChecks`).
 */
module Repair {
  import opened Wrappers
  import opened Records
  import opened Fences
  import Text

  /** `for attempt in range(3)`. */
  const MaxAttempts := 3

  /** The result of `ast.parse`: success, or the text of the `SyntaxError`. */
  datatype Validation = Valid | Invalid(diagnostic: string)

  /** The cleanup applied to a response (line 170) and the syntax check applied to its result (line 174). */
  datatype Checks = Checks(clean: string -> string, validate: string -> Validation)

  /** The checks app.py performs: `CleanFences`, then `ast.parse` as `validate`. */
  function ProgramChecks(validate: string -> Validation): (checks: Checks)
    ensures forall s :: checks.clean(s) == CleanFences(s)
    ensures checks.validate == validate
  {
    Checks(CleanFences, validate)
  }

  datatype Outcome = Skipped | Saved(code: string) | Failed

  /** What one record's conversion produced, and every prompt it sent. */
  datatype Run = Run(outcome: Outcome, prompts: seq<Prompt>, lastError: Option<string>) {
    /** The loop calls the completion client once per prompt it builds. */
    function Calls(): (calls: nat) {
      |prompts|
    }
  }

  /** The loop's variables `python_code`, `validation_error`, and the prompts sent so far. */
  datatype LoopState = LoopState(code: Option<string>, error: Option<string>, prompts: seq<Prompt>)

  /** `if not python_code` is false: the client returned a non-empty text (line 165). */
  predicate Answered(response: Option<string>) {
    response.Some? && response.value != ""
  }

  /** The response after fence cleanup (line 170). */
  function Cleaned(response: Option<string>, checks: Checks): (code: string)
    requires Answered(response)
  {
    checks.clean(response.value)
  }

  /** The loop goes on after this response: it was answered and its cleaned code does not parse. */
  predicate Retries(response: Option<string>, checks: Checks) {
    Answered(response) && checks.validate(Cleaned(response, checks)).Invalid?
  }

  function DiagnosticOf(response: Option<string>, checks: Checks): (diagnostic: string)
    requires Retries(response, checks)
  {
    checks.validate(Cleaned(response, checks)).diagnostic
  }

  /** The answered response is kept: its cleaned code parses and is not empty (lines 174-182). */
  predicate Saves(response: Option<string>, checks: Checks) {
    Answered(response) && checks.validate(Cleaned(response, checks)).Valid? && Cleaned(response, checks) != ""
  }

  /** The prompt of attempt `k`: the initial one, or the correction of attempt k-1. */
  function PromptAt(rec: ParserRecord, jsCode: string, responses: seq<Option<string>>,
                    checks: Checks, k: nat): (p: Prompt)
    requires k < |responses|
    requires k > 0 ==> Retries(responses[k - 1], checks)
  {
    if k == 0 then InitialPrompt(rec, jsCode)
    else Corrective(DiagnosticOf(responses[k - 1], checks), Cleaned(responses[k - 1], checks))
  }

  /** The loop variables on entry to attempt `attempt`. */
  predicate Entering(responses: seq<Option<string>>, checks: Checks, attempt: nat, st: LoopState)
    requires attempt <= |responses|
  {
    && |st.prompts| == attempt
    && (attempt == 0 ==> st.code.None? && st.error.None?)
    && (attempt > 0 ==>
          && Retries(responses[attempt - 1], checks)
          && st.code == Some(Cleaned(responses[attempt - 1], checks))
          && st.error == Some(DiagnosticOf(responses[attempt - 1], checks)))
  }

  /**
   * The loop variables when the loop is left after the call for the last
   * prompt: `python_code` is the raw response if it was empty, else its
   * cleaned code; `validation_error` is cleared by a parse, set by a failed
   * one, and left from the previous attempt when no text came back.
   */
  predicate Exited(responses: seq<Option<string>>, checks: Checks, end: LoopState) {
    var n := |end.prompts|;
    && 1 <= n <= |responses|
    && var last := responses[n - 1];
    && (Answered(last) && checks.validate(Cleaned(last, checks)).Valid? ==>
          end.code == Some(Cleaned(last, checks)) && end.error.None?)
    && (Retries(last, checks) ==>
          end.code == Some(Cleaned(last, checks)) && end.error == Some(DiagnosticOf(last, checks)))
    && (!Answered(last) ==>
          && end.code == last
          && (n == 1 ==> end.error.None?)
          && (n > 1 ==> Retries(responses[n - 2], checks) && end.error == Some(DiagnosticOf(responses[n - 2], checks))))
  }

  /** The prompt built at the top of attempt `attempt` (lines 121-160). */
  function PromptFor(rec: ParserRecord, jsCode: string, attempt: nat, st: LoopState): (p: Prompt) {
    if attempt == 0 then InitialPrompt(rec, jsCode) else Corrective(Shown(st.error), Shown(st.code))
  }

  /** One pass of the loop body (lines 162-180): send the prompt, then clean and validate the response. */
  function Step(prompt: Prompt, response: Option<string>, checks: Checks, st: LoopState): (next: LoopState)
    ensures next.prompts == st.prompts + [prompt]
    ensures !Answered(response) ==> next.code == response && next.error == st.error
    ensures Answered(response) ==> next.code == Some(Cleaned(response, checks))
    ensures Answered(response) ==> (next.error.None? <==> !Retries(response, checks))
    ensures Retries(response, checks) ==> next.error == Some(DiagnosticOf(response, checks))
  {
    var prompts := st.prompts + [prompt];
    if !Answered(response) then LoopState(response, st.error, prompts)
    else
      var cleaned := Cleaned(response, checks);
      match checks.validate(cleaned)
      case Valid => LoopState(Some(cleaned), None, prompts)
      case Invalid(d) => LoopState(Some(cleaned), Some(d), prompts)
  }

  /** Lines 121-180 from attempt `attempt` on, in the state `st` the earlier attempts left. */
  function RepairFrom(rec: ParserRecord, jsCode: string, responses: seq<Option<string>>,
                      checks: Checks, attempt: nat, st: LoopState): (end: LoopState)
    requires attempt <= MaxAttempts <= |responses|
    requires |st.prompts| == attempt
    ensures attempt <= |end.prompts| <= MaxAttempts && 1 <= |end.prompts|
    decreases MaxAttempts - attempt
  {
    if attempt == MaxAttempts then st
    else
      var next := Step(PromptFor(rec, jsCode, attempt, st), responses[attempt], checks, st);
      if Retries(responses[attempt], checks) then RepairFrom(rec, jsCode, responses, checks, attempt + 1, next)
      else next
  }

  /** The attempts from `attempt` on only append prompts to those already sent. */
  lemma {:induction false} RepairPrefix(rec: ParserRecord, jsCode: string, responses: seq<Option<string>>,
                                        checks: Checks, attempt: nat, st: LoopState)
    requires attempt <= MaxAttempts <= |responses|
    requires |st.prompts| == attempt
    ensures RepairFrom(rec, jsCode, responses, checks, attempt, st).prompts[..attempt] == st.prompts
    decreases MaxAttempts - attempt
  {
    if attempt < MaxAttempts {
      var next := Step(PromptFor(rec, jsCode, attempt, st), responses[attempt], checks, st);
      if Retries(responses[attempt], checks) {
        RepairPrefix(rec, jsCode, responses, checks, attempt + 1, next);
        var end := RepairFrom(rec, jsCode, responses, checks, attempt + 1, next);
        assert end.prompts[..attempt] == end.prompts[..attempt + 1][..attempt];
      }
    }
  }

  /**
   * The loop goes on past an attempt exactly when its response was answered
   * with code that does not parse.
   */
  lemma {:induction false} RepairSteps(rec: ParserRecord, jsCode: string, responses: seq<Option<string>>,
                                       checks: Checks, attempt: nat, st: LoopState)
    requires attempt <= MaxAttempts <= |responses|
    requires |st.prompts| == attempt
    ensures var end := RepairFrom(rec, jsCode, responses, checks, attempt, st);
      && (forall k :: attempt <= k < |end.prompts| - 1 ==> Retries(responses[k], checks))
      && (attempt < |end.prompts| < MaxAttempts ==> !Retries(responses[|end.prompts| - 1], checks))
    decreases MaxAttempts - attempt
  {
    if attempt < MaxAttempts {
      var next := Step(PromptFor(rec, jsCode, attempt, st), responses[attempt], checks, st);
      if Retries(responses[attempt], checks) {
        RepairSteps(rec, jsCode, responses, checks, attempt + 1, next);
      }
    }
  }

  /** Whatever the attempt the loop is left from, its variables are those `Exited` describes. */
  lemma {:induction false} RepairExit(rec: ParserRecord, jsCode: string, responses: seq<Option<string>>,
                                      checks: Checks, attempt: nat, st: LoopState)
    requires attempt <= MaxAttempts <= |responses|
    requires Entering(responses, checks, attempt, st)
    ensures Exited(responses, checks, RepairFrom(rec, jsCode, responses, checks, attempt, st))
    decreases MaxAttempts - attempt
  {
    if attempt < MaxAttempts {
      var next := Step(PromptFor(rec, jsCode, attempt, st), responses[attempt], checks, st);
      if Retries(responses[attempt], checks) {
        RepairExit(rec, jsCode, responses, checks, attempt + 1, next);
      }
    }
  }

  /** Every prompt from attempt `attempt` on is the one `PromptAt` prescribes. */
  lemma {:induction false} RepairPrompts(rec: ParserRecord, jsCode: string, responses: seq<Option<string>>,
                                         checks: Checks, attempt: nat, st: LoopState)
    requires attempt <= MaxAttempts <= |responses|
    requires Entering(responses, checks, attempt, st)
    ensures var end := RepairFrom(rec, jsCode, responses, checks, attempt, st);
      forall k :: attempt <= k < |end.prompts| ==>
        (k > 0 ==> Retries(responses[k - 1], checks)) && end.prompts[k] == PromptAt(rec, jsCode, responses, checks, k)
    decreases MaxAttempts - attempt
  {
    if attempt < MaxAttempts {
      var next := Step(PromptFor(rec, jsCode, attempt, st), responses[attempt], checks, st);
      assert next.prompts[attempt] == PromptAt(rec, jsCode, responses, checks, attempt);
      if Retries(responses[attempt], checks) {
        RepairPrompts(rec, jsCode, responses, checks, attempt + 1, next);
        RepairPrefix(rec, jsCode, responses, checks, attempt + 1, next);
        var end := RepairFrom(rec, jsCode, responses, checks, attempt + 1, next);
        assert end.prompts[attempt] == next.prompts[attempt] by {
          assert end.prompts[..attempt + 1] == next.prompts;
        }
      }
    }
  }

  /** The loop variables before the first attempt (lines 119-120). */
  const Start := LoopState(None, None, [])

  /** Lines 182-194: the record is saved only with no error and a non-empty code. */
  function Decide(end: LoopState): (outcome: Outcome)
    ensures !outcome.Skipped?
    ensures outcome.Saved? <==> end.error.None? && Answered(end.code)
    ensures outcome.Saved? ==> outcome.code == end.code.value && outcome.code != ""
  {
    if end.error.None? && Answered(end.code) then Saved(end.code.value) else Failed
  }

  /**
   * One record, lines 111-194. A missing source skips the record with no
   * call; otherwise the loop makes between one and three calls.
   */
  function Convert(rec: ParserRecord, source: Option<string>, responses: seq<Option<string>>,
                   checks: Checks): (run: Run)
    requires |responses| >= MaxAttempts
    ensures run.outcome.Skipped? <==> source.None?
    ensures source.None? ==> run.Calls() == 0 && run.lastError.None?
    ensures source.Some? ==> 1 <= run.Calls() <= MaxAttempts
  {
    match source
    case None => Run(Skipped, [], None)
    case Some(jsCode) =>
      var end := RepairFrom(rec, jsCode, responses, checks, 0, Start);
      Run(Decide(end), end.prompts, end.error)
  }

  /**
   * How many calls the loop makes, read off the responses alone: it stops
   * after the first response that is empty or whose cleaned code parses,
   * and after the third call in any case.
   */
  function CallsNeeded(responses: seq<Option<string>>, checks: Checks): (calls: nat)
    requires |responses| >= MaxAttempts
  {
    if !Retries(responses[0], checks) then 1
    else if !Retries(responses[1], checks) then 2
    else 3
  }

  /**
   * The loop goes on after a call exactly when the response was answered
   * with code that does not parse, so the number of calls is `CallsNeeded`.
   * In particular an empty or missing response ends the loop at once.
   */
  lemma ConvertCalls(rec: ParserRecord, source: Option<string>, responses: seq<Option<string>>,
                     checks: Checks)
    requires |responses| >= MaxAttempts && source.Some?
    ensures var run := Convert(rec, source, responses, checks);
      && run.Calls() == CallsNeeded(responses, checks)
      && (forall k :: 0 <= k < run.Calls() - 1 ==> Retries(responses[k], checks))
      && (run.Calls() < MaxAttempts ==> !Retries(responses[run.Calls() - 1], checks))
  {
    RepairSteps(rec, source.value, responses, checks, 0, Start);
  }

  /**
   * The first prompt is built from the record and its source; every later
   * prompt carries the diagnostic and the cleaned code of the attempt
   * before it.
   */
  lemma ConvertPrompts(rec: ParserRecord, source: Option<string>, responses: seq<Option<string>>,
                       checks: Checks)
    requires |responses| >= MaxAttempts && source.Some?
    ensures var run := Convert(rec, source, responses, checks);
      && run.prompts[0] == InitialPrompt(rec, source.value)
      && forall k :: 1 <= k < run.Calls() ==>
           Retries(responses[k - 1], checks)
           && run.prompts[k] == Corrective(DiagnosticOf(responses[k - 1], checks), Cleaned(responses[k - 1], checks))
  {
    RepairPrompts(rec, source.value, responses, checks, 0, Start);
  }

  /**
   * The record is saved exactly when the last response parses and cleans
   * to non-empty code, and what is saved is that code: it parses and is
   * not empty.
   */
  lemma ConvertOutcome(rec: ParserRecord, source: Option<string>, responses: seq<Option<string>>,
                       checks: Checks)
    requires |responses| >= MaxAttempts && source.Some?
    ensures var run := Convert(rec, source, responses, checks);
      && (run.outcome.Saved? <==> Saves(responses[run.Calls() - 1], checks))
      && (run.outcome.Saved? ==>
            && run.outcome.code == Cleaned(responses[run.Calls() - 1], checks)
            && run.outcome.code != ""
            && checks.validate(run.outcome.code).Valid?)
  {
    RepairExit(rec, source.value, responses, checks, 0, Start);
  }

  /** With the program's cleanup, saved code holds no markdown fence and no surrounding whitespace. */
  lemma SavedCodeIsClean(rec: ParserRecord, source: Option<string>, responses: seq<Option<string>>,
                         validate: string -> Validation)
    requires |responses| >= MaxAttempts && source.Some?
    ensures var run := Convert(rec, source, responses, ProgramChecks(validate));
      run.outcome.Saved? ==> !HasFence(run.outcome.code) && Text.Trimmed(run.outcome.code)
  {
    var checks := ProgramChecks(validate);
    var run := Convert(rec, source, responses, checks);
    if run.outcome.Saved? {
      ConvertOutcome(rec, source, responses, checks);
      assert run.outcome.code == CleanFences(responses[run.Calls() - 1].value);
    }
  }

  /**
   * The error left after the loop: the diagnostic of the last response if
   * it did not parse, none if it did, and the previous attempt's diagnostic
   * if the last call brought no text.
   */
  lemma ConvertLastError(rec: ParserRecord, source: Option<string>, responses: seq<Option<string>>,
                         checks: Checks)
    requires |responses| >= MaxAttempts && source.Some?
    ensures var run := Convert(rec, source, responses, checks);
      var last := responses[run.Calls() - 1];
      && (Retries(last, checks) ==> run.lastError == Some(DiagnosticOf(last, checks)))
      && (Answered(last) && !Retries(last, checks) ==> run.lastError.None?)
      && (!Answered(last) && run.Calls() == 1 ==> run.lastError.None?)
      && (!Answered(last) && run.Calls() > 1 ==>
            Retries(responses[run.Calls() - 2], checks)
            && run.lastError == Some(DiagnosticOf(responses[run.Calls() - 2], checks)))
  {
    RepairExit(rec, source.value, responses, checks, 0, Start);
  }

  /**
   * A missing or empty response ends the loop on the spot, whatever
   * attempts remain: one such first response means one call and no file.
   */
  lemma EmptyFirstResponse(rec: ParserRecord, jsCode: string, responses: seq<Option<string>>,
                           checks: Checks)
    requires |responses| >= MaxAttempts && !Answered(responses[0])
    ensures var run := Convert(rec, Some(jsCode), responses, checks);
      run == Run(Failed, [InitialPrompt(rec, jsCode)], None)
  {
    ConvertCalls(rec, Some(jsCode), responses, checks);
    ConvertPrompts(rec, Some(jsCode), responses, checks);
    ConvertLastError(rec, Some(jsCode), responses, checks);
  }

  /**
   * Three responses whose code never parses: three calls, no file, and the
   * third diagnostic left over.
   */
  lemma NeverParses(rec: ParserRecord, jsCode: string, responses: seq<Option<string>>,
                    checks: Checks)
    requires |responses| >= MaxAttempts
    requires forall k :: 0 <= k < MaxAttempts ==> Retries(responses[k], checks)
    ensures var run := Convert(rec, Some(jsCode), responses, checks);
      && run.Calls() == MaxAttempts
      && run.outcome == Failed
      && run.lastError == Some(DiagnosticOf(responses[2], checks))
  {
    ConvertCalls(rec, Some(jsCode), responses, checks);
    ConvertOutcome(rec, Some(jsCode), responses, checks);
    ConvertLastError(rec, Some(jsCode), responses, checks);
  }

  /**
   * Lines 111-194 as the program runs them: the loop variables are updated
   * in place and the loop is left by `break`. It computes the same run as
   * `Convert`.
   */
  method ConvertRecord(rec: ParserRecord, source: Option<string>, responses: seq<Option<string>>,
                       checks: Checks) returns (run: Run)
    requires |responses| >= MaxAttempts
    ensures run == Convert(rec, source, responses, checks)
  {
    if source.None? {
      return Run(Skipped, [], None);
    }
    var jsCode := source.value;
    var code: Option<string> := None;
    var error: Option<string> := None;
    var prompts: seq<Prompt> := [];
    var attempt := 0;
    while attempt < MaxAttempts
      invariant attempt <= MaxAttempts && |prompts| == attempt
      invariant RepairFrom(rec, jsCode, responses, checks, attempt, LoopState(code, error, prompts))
             == RepairFrom(rec, jsCode, responses, checks, 0, Start)
    {
      var prompt := if attempt == 0 then InitialPrompt(rec, jsCode) else Corrective(Shown(error), Shown(code));
      prompts := prompts + [prompt];
      code := responses[attempt];
      if !Answered(code) {
        break;
      }
      var cleaned := checks.clean(code.value);
      code := Some(cleaned);
      match checks.validate(cleaned) {
        case Valid =>
          error := None;
          break;
        case Invalid(d) =>
          error := Some(d);
      }
      attempt := attempt + 1;
    }
    run := Run(Decide(LoopState(code, error, prompts)), prompts, error);
  }
}
