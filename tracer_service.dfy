/**
 * `TracerService.traceCode`: make sure the interpreter is loaded, run the
 * generated script (which builds an embedded `CodeTracer`, runs the target
 * function under it and serialises `{result, steps}`), parse the output and
 * keep only its `steps`. Any failure inside the interpreter or the parser
 * becomes one `Error` whose message starts with "Failed to trace the code: ".
 */
module TracerService {
  import opened Wrappers
  import opened Text
  import opened Steps
  import opened Escaping
  import opened EmbeddedTracer

  /** A value a JavaScript `throw` delivers: an `Error` with its message, or any other value. */
  datatype Thrown = ErrorValue(message: string) | OtherValue

  /** How `initPyodide()` ends: the interpreter is ready, or loading it threw. */
  datatype HostOutcome = Ready | LoadFailed(thrown: Thrown)

  /**
   * What the interpreter does with the generated script. `ScriptFailed`
   * covers a syntax error in the user's code, a missing function, an argument
   * that does not evaluate, and output the parser rejects (such as the
   * `Infinity` or `NaN` that `json.dumps` writes for a float that is not
   * finite, in a local or in the result); `detail` is the error's text.
   * `Executed` gives the hook events of the traced call, how the call ended,
   * and the text of the `TypeError` or `ValueError` `json.dumps` raises
   * should the returned value not serialise.
   */
  datatype ScriptRun<V> =
    | ScriptFailed(detail: string)
    | Executed(events: seq<Event<V>>, call: CallOutcome<V>, dumpsError: string)

  /** The prefix of every error raised from inside the interpreter or the parser. */
  const FailurePrefix := "Failed to trace the code: "

  /**
   * The outcome of `traceCode(code, ...)`, given what the host and the
   * interpreter do. An error the hook raises propagates out of the traced
   * call; the final `json.dumps` probes the returned value as the hook does.
   */
  function TraceOutcome<V>(code: string, host: HostOutcome, run: ScriptRun<V>, policy: CopyPolicy<V>): Result<seq<Step<V>>, Thrown> {
    match host
    case LoadFailed(t) => Failure(t)
    case Ready =>
      match run
      case ScriptFailed(detail) => Failure(ErrorValue(FailurePrefix + detail))
      case Executed(events, call, dumpsError) =>
        var traced := Collect(CodeLinesAsWritten(code), events, policy);
        if traced.raised.Some? then Failure(ErrorValue(FailurePrefix + traced.raised.value))
        else match call
          case Raised(e) => Failure(ErrorValue(FailurePrefix + e))
          case Returned(v) =>
            match policy.probe(v)
            case Copyable => Success(traced.steps)
            case Unserialisable => Failure(ErrorValue(FailurePrefix + dumpsError))
            case ProbeRaised(e) => Failure(ErrorValue(FailurePrefix + e))
  }

  /**
   * `traceCode`: the embedded tracer is created over `code_lines`, the lines
   * of the escaped code, and runs the call; its steps are the result unless
   * something fails.
   */
  method TraceCode<V>(code: string, host: HostOutcome, run: ScriptRun<V>, policy: CopyPolicy<V>)
    returns (r: Result<seq<Step<V>>, Thrown>)
    ensures r == TraceOutcome(code, host, run, policy)
  {
    if host.LoadFailed? {
      return Failure(host.thrown);
    }
    match run
    case ScriptFailed(detail) =>
      r := Failure(ErrorValue(FailurePrefix + detail));
    case Executed(events, call, dumpsError) =>
      var tracer := new CodeTracer(CodeLinesAsWritten(code), policy);
      var traced := tracer.RunTrace(events, call);
      match traced
      case Failure(e) =>
        r := Failure(ErrorValue(FailurePrefix + e));
      case Success(traceResult) =>
        match policy.probe(traceResult.result)
        case Copyable => r := Success(traceResult.steps);
        case Unserialisable => r := Failure(ErrorValue(FailurePrefix + dumpsError));
        case ProbeRaised(e) => r := Failure(ErrorValue(FailurePrefix + e));
  }

  /**
   * Every failure is either the host's own thrown value, passed through
   * unwrapped because loading happens outside the `try`, or one `Error`
   * whose message starts with the failure prefix. No failure carries steps.
   */
  lemma FailureIsWrapped<V>(code: string, host: HostOutcome, run: ScriptRun<V>, policy: CopyPolicy<V>)
    requires TraceOutcome(code, host, run, policy).Failure?
    ensures host.LoadFailed? ==> TraceOutcome(code, host, run, policy).error == host.thrown
    ensures host.Ready? ==>
      var e := TraceOutcome(code, host, run, policy).error;
      e.ErrorValue? && FailurePrefix <= e.message
  {
  }

  /**
   * A successful trace happens only when the host is ready, the script ran,
   * the hook never raised and the call returned a serialisable value; its
   * steps are the embedded tracer's record of the call over `code_lines`,
   * which are the source lines escaped one by one: one step per line event,
   * numbered 0..N-1, whatever value the call returned.
   */
  lemma SuccessIsTheRecordedSteps<V>(code: string, host: HostOutcome, run: ScriptRun<V>, policy: CopyPolicy<V>)
    requires TraceOutcome(code, host, run, policy).Success?
    ensures host.Ready? && run.Executed? && run.call.Returned? && policy.probe(run.call.value).Copyable?
    ensures Collect(CodeLinesAsWritten(code), run.events, policy).raised.None?
    ensures TraceOutcome(code, host, run, policy).value == Collect(CodeLinesAsWritten(code), run.events, policy).steps
    ensures TraceOutcome(code, host, run, policy).value == Collect(EscapeEach(CodeLines(code)), run.events, policy).steps
    ensures Numbered(TraceOutcome(code, host, run, policy).value)
    ensures |TraceOutcome(code, host, run, policy).value| == |LineFrames(run.events)|
  {
    AsWrittenLines(code);
    CollectNumbered(CodeLinesAsWritten(code), run.events, policy);
    CollectIsRecordOfLineEvents(CodeLinesAsWritten(code), run.events, policy);
  }

  /**
   * A line event whose locals the hook cannot copy (a probe error other than
   * `TypeError` or `ValueError`, or a `repr` that raises) fails the whole
   * trace with that error, prefixed, whatever the call would have returned.
   */
  lemma HookErrorFailsTrace<V>(code: string, run: ScriptRun<V>, policy: CopyPolicy<V>)
    requires run.Executed?
    requires Collect(CodeLinesAsWritten(code), run.events, policy).raised.Some?
    ensures TraceOutcome(code, Ready, run, policy) ==
      Failure(ErrorValue(FailurePrefix + Collect(CodeLinesAsWritten(code), run.events, policy).raised.value))
    ensures var error := Collect(CodeLinesAsWritten(code), run.events, policy).raised.value;
      exists i :: 0 <= i < |LineFrames(run.events)| && LocalsCopy(LineFrames(run.events)[i], policy) == Failure(error)
  {
    CollectIsRecordOfLineEvents(CodeLinesAsWritten(code), run.events, policy);
  }

  /**
   * The `code` a successful trace records for a line inside the source is
   * that source line with its backslashes doubled, then stripped: a user's
   * `\t` is shown as `\\t`.
   */
  lemma RecordedCodeIsEscaped<V>(code: string, host: HostOutcome, run: ScriptRun<V>, policy: CopyPolicy<V>, i: nat)
    requires TraceOutcome(code, host, run, policy).Success?
    requires i < |LineFrames(run.events)|
    requires 1 <= LineFrames(run.events)[i].lineno <= |CodeLines(code)|
    ensures var steps := TraceOutcome(code, host, run, policy).value;
      i < |steps| && steps[i].code == Strip(Escape(CodeLines(code)[LineFrames(run.events)[i].lineno - 1]))
  {
    var lines := CodeLinesAsWritten(code);
    var k := LineFrames(run.events)[i].lineno - 1;
    SuccessIsTheRecordedSteps(code, host, run, policy);
    assert lines == EscapeEach(CodeLines(code)) by {
      AsWrittenLines(code);
    }
    CollectRecordsLine(lines, run.events, policy, i, k);
    EscapeEachAt(CodeLines(code), k);
  }

  /** For code without a backslash the escaping changes nothing: the trace records the user's own lines. */
  lemma BackslashFreeTrace<V>(code: string, host: HostOutcome, run: ScriptRun<V>, policy: CopyPolicy<V>)
    requires '\\' !in code
    requires TraceOutcome(code, host, run, policy).Success?
    ensures TraceOutcome(code, host, run, policy).value == Collect(CodeLines(code), run.events, policy).steps
  {
    AsWrittenWithoutBackslash(code);
  }
}
