/**
 * The `CodeTracer` class that `TracerService.traceCode` writes into the
 * generated script: a line-event hook that appends one step per executed
 * line to an append-only list and counts them. The line text comes from the
 * embedded `code_lines`, indexed by `f_lineno - 1` with a bounds check; an
 * exception that escapes the copy of the locals ends the tracing.
 */
module EmbeddedTracer {
  import opened Wrappers
  import opened Text
  import opened Steps

  /** The placeholder recorded for a reported line outside the embedded source. */
  function OutOfBounds(lineno: int): (r: string)
    ensures r != [] && r[0] == 'L' && r[|r| - 1] == ')'
  {
    "Line number out of bounds (line: " + IntToString(lineno) + ")"
  }

  /** The line text chosen for a reported line, before stripping. */
  function SourceLine(lines: seq<string>, lineno: int): string {
    if 0 <= lineno - 1 < |lines| then lines[lineno - 1] else OutOfBounds(lineno)
  }

  /**
   * The `locals_copy` the hook builds for a frame: `json.dumps` is the probe
   * and `repr` the fallback, and only `TypeError` and `ValueError` are caught.
   */
  function LocalsCopy<V>(frame: Frame<V>, policy: CopyPolicy<V>): Result<map<string, Recorded<V>>, string> {
    Snapshot(frame.locals, policy, CatchTypeOrValue)
  }

  /** The step the hook appends for a line event when `n` steps were recorded before and the locals were copied to `copy`. */
  function Record<V>(lines: seq<string>, n: int, frame: Frame<V>, copy: map<string, Recorded<V>>): Step<V> {
    Step(n, frame.lineno, Strip(SourceLine(lines, frame.lineno)), copy)
  }

  /**
   * What a step records for reported line `L`: `line` is `L`; `code` is line
   * `L` of the source, stripped, when `1 <= L <= |lines|`, and otherwise the
   * placeholder naming `L`, unchanged by the strip.
   */
  lemma RecordedLine<V>(lines: seq<string>, n: int, frame: Frame<V>, copy: map<string, Recorded<V>>)
    ensures Record(lines, n, frame, copy).step == n
    ensures Record(lines, n, frame, copy).line == frame.lineno
    ensures 1 <= frame.lineno <= |lines| ==> Record(lines, n, frame, copy).code == Strip(lines[frame.lineno - 1])
    ensures !(1 <= frame.lineno <= |lines|) ==> Record(lines, n, frame, copy).code == OutOfBounds(frame.lineno)
  {
    var text := SourceLine(lines, frame.lineno);
    assert Record(lines, n, frame, copy).code == Strip(text);
    if 1 <= frame.lineno <= |lines| {
      assert text == lines[frame.lineno - 1];
    } else {
      assert text == OutOfBounds(frame.lineno);
      PlaceholderKept(frame.lineno);
    }
  }

  /** The placeholder neither begins nor ends with whitespace, so the strip keeps it whole. */
  lemma PlaceholderKept(lineno: int)
    ensures Strip(OutOfBounds(lineno)) == OutOfBounds(lineno)
  {
    var placeholder := OutOfBounds(lineno);
    assert !IsSpace(placeholder[0]) && !IsSpace(placeholder[|placeholder| - 1]);
    StripKeeps(placeholder);
  }

  /**
   * The hook's record of `events`: each line event appends a step, unless
   * copying its locals raises; once the hook has raised, the interpreter
   * removes it and nothing more is recorded.
   */
  function Collect<V>(lines: seq<string>, events: seq<Event<V>>, policy: CopyPolicy<V>): Progress<V> {
    if events == [] then Progress([], None)
    else
      var p := Collect(lines, events[..|events| - 1], policy);
      var last := events[|events| - 1];
      if p.raised.Some? || last.kind != Line then p
      else match LocalsCopy(last.frame, policy)
        case Failure(e) => Progress(p.steps, Some(e))
        case Success(copy) => Progress(p.steps + [Record(lines, |p.steps|, last.frame, copy)], None)
  }

  /** Line event i was recorded: its locals were copied and step i is its record, numbered i. */
  ghost predicate RecordedAt<V>(lines: seq<string>, steps: seq<Step<V>>, frames: seq<Frame<V>>, policy: CopyPolicy<V>, i: int)
    requires 0 <= i < |steps| && i < |frames|
  {
    LocalsCopy(frames[i], policy).Success? && steps[i] == Record(lines, i, frames[i], LocalsCopy(frames[i], policy).value)
  }

  /**
   * For any events: the steps are the records of the line events, in order,
   * up to the first line event whose locals cannot be copied. The hook raises
   * exactly when there is such an event, and then with the error of copying
   * its locals; otherwise every line event has its step.
   */
  lemma {:induction false} CollectIsRecordOfLineEvents<V>(lines: seq<string>, events: seq<Event<V>>, policy: CopyPolicy<V>)
    ensures |Collect(lines, events, policy).steps| <= |LineFrames(events)|
    ensures forall i :: 0 <= i < |Collect(lines, events, policy).steps| ==>
      RecordedAt(lines, Collect(lines, events, policy).steps, LineFrames(events), policy, i)
    ensures Collect(lines, events, policy).raised.None? <==> |Collect(lines, events, policy).steps| == |LineFrames(events)|
    ensures Collect(lines, events, policy).raised.Some? ==>
      var k := |Collect(lines, events, policy).steps|;
      LocalsCopy(LineFrames(events)[k], policy) == Failure(Collect(lines, events, policy).raised.value)
  {
    if events != [] {
      var front := events[..|events| - 1];
      var last := events[|events| - 1];
      var lf := LineFrames(front);
      var all := LineFrames(events);
      CollectIsRecordOfLineEvents(lines, front, policy);
      var p := Collect(lines, front, policy);
      assert all == lf + (if last.kind == Line then [last.frame] else []);
      assert forall i :: 0 <= i < |lf| ==> all[i] == lf[i];
      forall i | 0 <= i < |p.steps|
        ensures RecordedAt(lines, p.steps, all, policy, i)
      {
        assert RecordedAt(lines, p.steps, lf, policy, i);
      }
      if p.raised.None? && last.kind == Line {
        assert all[|lf|] == last.frame;
        match LocalsCopy(last.frame, policy)
        case Failure(e) =>
          assert Collect(lines, events, policy) == Progress(p.steps, Some(e));
        case Success(copy) =>
          var added := Record(lines, |p.steps|, last.frame, copy);
          var steps := p.steps + [added];
          assert Collect(lines, events, policy) == Progress(steps, None);
          forall i | 0 <= i < |steps|
            ensures RecordedAt(lines, steps, all, policy, i)
          {
            if i < |p.steps| {
              assert steps[i] == p.steps[i];
              assert RecordedAt(lines, p.steps, all, policy, i);
            }
          }
      } else {
        assert Collect(lines, events, policy) == p;
      }
    }
  }

  /**
   * A line event whose locals cannot be copied, reached before anything has
   * raised, makes the hook raise that error and records nothing; later events
   * change nothing more.
   */
  lemma RaisesOnLocals<V>(lines: seq<string>, events: seq<Event<V>>, frame: Frame<V>, more: seq<Event<V>>, policy: CopyPolicy<V>)
    requires Collect(lines, events, policy).raised.None?
    requires LocalsCopy(frame, policy).Failure?
    ensures Collect(lines, events + [Event(Line, frame)] + more, policy) ==
      Progress(Collect(lines, events, policy).steps, Some(LocalsCopy(frame, policy).error))
  {
    var upTo := events + [Event(Line, frame)];
    var all := upTo + more;
    assert upTo[..|upTo| - 1] == events;
    assert all[..|upTo|] == upTo;
    RaisedStays(lines, all, |upTo|, policy);
  }

  /** The code step i records for a line event at line k + 1 of the source: that line, stripped. */
  lemma CollectRecordsLine<V>(lines: seq<string>, events: seq<Event<V>>, policy: CopyPolicy<V>, i: nat, k: nat)
    requires i < |Collect(lines, events, policy).steps| && i < |LineFrames(events)| && k < |lines|
    requires LineFrames(events)[i].lineno == k + 1
    ensures Collect(lines, events, policy).steps[i].code == Strip(lines[k])
  {
    var frame := LineFrames(events)[i];
    var steps := Collect(lines, events, policy).steps;
    assert RecordedAt(lines, steps, LineFrames(events), policy, i) by {
      CollectIsRecordOfLineEvents(lines, events, policy);
    }
    var copy := LocalsCopy(frame, policy).value;
    assert Record(lines, i, frame, copy).code == Strip(lines[k]) by {
      RecordedLine(lines, i, frame, copy);
    }
  }

  /** Whatever the events, the recorded steps are numbered 0..N-1 by position. */
  lemma CollectNumbered<V>(lines: seq<string>, events: seq<Event<V>>, policy: CopyPolicy<V>)
    ensures Numbered(Collect(lines, events, policy).steps)
  {
    var steps := Collect(lines, events, policy).steps;
    CollectIsRecordOfLineEvents(lines, events, policy);
    forall i | 0 <= i < |steps|
      ensures steps[i].step == i
    {
      assert RecordedAt(lines, steps, LineFrames(events), policy, i);
    }
  }

  /**
   * Every variable recorded as a copy was accepted by the serialisation
   * probe; everything else is text. So the steps themselves never make the
   * final serialisation fail.
   */
  lemma CollectSerialisable<V>(lines: seq<string>, events: seq<Event<V>>, policy: CopyPolicy<V>)
    ensures forall i, name :: 0 <= i < |Collect(lines, events, policy).steps| && name in Collect(lines, events, policy).steps[i].variables ==>
      var r := Collect(lines, events, policy).steps[i].variables[name];
      r.Copy? ==> policy.probe(r.value).Copyable?
  {
    var steps := Collect(lines, events, policy).steps;
    var frames := LineFrames(events);
    CollectIsRecordOfLineEvents(lines, events, policy);
    forall i | 0 <= i < |steps|
      ensures forall name :: name in steps[i].variables ==> steps[i].variables[name].Copy? ==> policy.probe(steps[i].variables[name].value).Copyable?
    {
      assert RecordedAt(lines, steps, frames, policy, i);
      SnapshotCopiesProbed(frames[i].locals, policy, CatchTypeOrValue);
    }
  }

  /** Recording is append-only: later events never change a step already recorded. */
  lemma {:induction false} CollectAppendOnly<V>(lines: seq<string>, events: seq<Event<V>>, more: seq<Event<V>>, policy: CopyPolicy<V>)
    ensures |Collect(lines, events, policy).steps| <= |Collect(lines, events + more, policy).steps|
    ensures Collect(lines, events + more, policy).steps[..|Collect(lines, events, policy).steps|] == Collect(lines, events, policy).steps
  {
    if more == [] {
      assert events + more == events;
    } else {
      var all := events + more;
      assert all[..|all| - 1] == events + more[..|more| - 1];
      CollectAppendOnly(lines, events, more[..|more| - 1], policy);
      CollectExtends(lines, all, policy);
    }
  }

  /** One more event keeps the steps recorded so far as a prefix. */
  lemma CollectExtends<V>(lines: seq<string>, events: seq<Event<V>>, policy: CopyPolicy<V>)
    requires events != []
    ensures var before := Collect(lines, events[..|events| - 1], policy).steps;
      |before| <= |Collect(lines, events, policy).steps| && Collect(lines, events, policy).steps[..|before|] == before
  {
  }

  /** Once the hook has raised, later events change nothing. */
  lemma {:induction false} RaisedStays<V>(lines: seq<string>, events: seq<Event<V>>, i: nat, policy: CopyPolicy<V>)
    requires i <= |events| && Collect(lines, events[..i], policy).raised.Some?
    ensures Collect(lines, events, policy) == Collect(lines, events[..i], policy)
    decreases |events| - i
  {
    if i < |events| {
      assert events[..i + 1][..i] == events[..i];
      RaisedStays(lines, events, i + 1, policy);
    } else {
      assert events[..i] == events;
    }
  }

  /** The hook object: the list of steps and the step counter. */
  class CodeTracer<V> {
    var steps: seq<Step<V>>
    var stepCount: int
    const codeLines: seq<string>
    const policy: CopyPolicy<V>

    /** The counter equals the number of steps and step i is numbered i. */
    ghost predicate Valid()
      reads this
    {
      stepCount == |steps| && Numbered(steps)
    }

    /** `CodeTracer(code_lines)`: no steps yet and the counter at 0. */
    constructor (codeLines: seq<string>, policy: CopyPolicy<V>)
      ensures Valid()
      ensures steps == [] && stepCount == 0
      ensures this.codeLines == codeLines && this.policy == policy
    {
      this.codeLines := codeLines;
      this.policy := policy;
      steps := [];
      stepCount := 0;
    }

    /**
     * `trace_function(frame, event, arg)`: a line event whose locals can be
     * copied appends exactly one step numbered by the old counter and bumps
     * the counter; one whose copy raises raises that error (`raised`) before
     * anything is recorded; any other event changes nothing.
     */
    method TraceFunction(event: Event<V>) returns (raised: Option<string>)
      requires Valid()
      modifies this
      ensures Valid()
      ensures raised == if event.kind == Line && LocalsCopy(event.frame, policy).Failure? then Some(LocalsCopy(event.frame, policy).error) else None
      ensures event.kind == Line && raised.None? ==>
        && steps == old(steps) + [Record(codeLines, old(stepCount), event.frame, LocalsCopy(event.frame, policy).value)]
        && stepCount == old(stepCount) + 1
      ensures event.kind != Line || raised.Some? ==> steps == old(steps) && stepCount == old(stepCount)
    {
      raised := None;
      if event.kind == Line {
        var lineNumber := event.frame.lineno - 1;
        var codeLine;
        if 0 <= lineNumber < |codeLines| {
          codeLine := codeLines[lineNumber];
        } else {
          codeLine := OutOfBounds(event.frame.lineno);
        }
        var localsCopy := CopyLocals(event.frame.locals, policy, CatchTypeOrValue);
        if localsCopy.Failure? {
          return Some(localsCopy.error);
        }
        var step := Step(stepCount, event.frame.lineno, Strip(codeLine), localsCopy.value);
        assert step == Record(codeLines, stepCount, event.frame, localsCopy.value);
        NumberedAppend(steps, step);
        steps := steps + [step];
        stepCount := stepCount + 1;
      }
    }

    /**
     * `run_trace(func, *args)`: resets the steps and the counter, then the
     * interpreter runs the call and delivers `events` to the hook until the
     * hook raises. An error from the hook propagates out of the call;
     * otherwise the result pairs the call's value with the steps, and an
     * exception from the call propagates.
     */
    method RunTrace(events: seq<Event<V>>, call: CallOutcome<V>) returns (r: Result<TraceResult<V>, string>)
      modifies this
      ensures Valid()
      ensures steps == Collect(codeLines, events, policy).steps
      ensures r == if Collect(codeLines, events, policy).raised.Some? then Failure(Collect(codeLines, events, policy).raised.value)
        else match call
          case Returned(v) => Success(TraceResult(v, steps))
          case Raised(e) => Failure(e)
    {
      steps := [];
      stepCount := 0;
      var i := 0;
      var raised := None;
      while i < |events| && raised.None?
        invariant 0 <= i <= |events|
        invariant Valid()
        invariant steps == Collect(codeLines, events[..i], policy).steps
        invariant raised == Collect(codeLines, events[..i], policy).raised
      {
        assert events[..i + 1][..i] == events[..i];
        raised := TraceFunction(events[i]);
        i := i + 1;
      }
      if raised.Some? {
        RaisedStays(codeLines, events, i, policy);
        r := Failure(raised.value);
        return;
      }
      assert events[..|events|] == events;
      match call
      case Returned(v) => r := Success(TraceResult(v, steps));
      case Raised(e) => r := Failure(e);
    }
  }
}
