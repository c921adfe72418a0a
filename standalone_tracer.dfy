/**
 * The standalone `CodeTracer` of `tracer.py`: the same append-only step list
 * and counter, but the line text comes from the traced function's own source
 * (`inspect.getsource(f_code).splitlines()`, which raises when that source
 * is not on file) at offset
 * `f_lineno - co_firstlineno`, with Python's list indexing and no bounds
 * guard, and a value that `deepcopy` rejects is stored as `str(value)`. An
 * error from the lookup or from `str` ends the tracing.
 */
module StandaloneTracer {
  import opened Wrappers
  import opened Text
  import opened Steps

  /** The text of the `IndexError` a list lookup out of range raises. */
  const IndexErrorMessage := "IndexError: list index out of range"

  /** The text of the `OSError` `inspect.getsource` raises when the function's source is not on file. */
  const SourceErrorMessage := "OSError: could not get source code"

  /** Python's `xs[i]`: a negative index counts from the end; out of range is an IndexError (None). */
  function PyIndex<T>(xs: seq<T>, i: int): Option<T> {
    if 0 <= i < |xs| then Some(xs[i])
    else if -|xs| <= i < 0 then Some(xs[|xs| + i])
    else None
  }

  /** The offset of the reported line within the function's source lines. */
  function Offset<V>(frame: Frame<V>): int {
    frame.lineno - frame.firstLineNo
  }

  /**
   * `inspect.getsource(frame.f_code).splitlines()[f_lineno - co_firstlineno]`:
   * the source line, or the error the lookup raises (the source is missing,
   * or the offset is out of Python's index range).
   */
  function Lookup<V>(frame: Frame<V>): (r: Result<string, string>)
    ensures r.Failure? <==> frame.source.None? || !(-|frame.source.value| <= Offset(frame) < |frame.source.value|)
    ensures r.Failure? ==> r.error == if frame.source.None? then SourceErrorMessage else IndexErrorMessage
    ensures r.Success? && 0 <= Offset(frame) ==> r.value == frame.source.value[Offset(frame)]
    ensures r.Success? && Offset(frame) < 0 ==> r.value == frame.source.value[|frame.source.value| + Offset(frame)]
  {
    match frame.source
    case None => Failure(SourceErrorMessage)
    case Some(lines) =>
      match PyIndex(lines, Offset(frame))
      case None => Failure(IndexErrorMessage)
      case Some(line) => Success(line)
  }

  /**
   * The `locals_copy` the hook builds for a frame: `deepcopy` is the probe
   * and `str` the fallback, and the bare `except:` catches every probe error.
   */
  function LocalsCopy<V>(frame: Frame<V>, policy: CopyPolicy<V>): Result<map<string, Recorded<V>>, string> {
    Snapshot(frame.locals, policy, CatchAll)
  }

  /** The step a line event adds once its source line is found and its locals are copied. */
  function LineStep<V>(n: int, frame: Frame<V>, codeLine: string, copy: map<string, Recorded<V>>): Step<V> {
    Step(n, frame.lineno, Strip(codeLine), copy)
  }

  /**
   * What the hook does with a line event when `n` steps are recorded: look
   * the line up, then copy the locals, and append the step; the first of the
   * two that raises decides the error.
   */
  function OnLine<V>(n: int, frame: Frame<V>, policy: CopyPolicy<V>): Result<Step<V>, string> {
    match Lookup(frame)
    case Failure(e) => Failure(e)
    case Success(codeLine) =>
      match LocalsCopy(frame, policy)
      case Failure(e) => Failure(e)
      case Success(copy) => Success(LineStep(n, frame, codeLine, copy))
  }

  /**
   * The hook's record of `events`: each line event appends a step, unless
   * its line lookup or the copy of its locals raises; once the hook has
   * raised, the interpreter removes it and nothing more is recorded.
   */
  function Collect<V>(events: seq<Event<V>>, policy: CopyPolicy<V>): Progress<V> {
    if events == [] then Progress([], None)
    else
      var p := Collect(events[..|events| - 1], policy);
      var last := events[|events| - 1];
      if p.raised.Some? || last.kind != Line then p
      else match OnLine(|p.steps|, last.frame, policy)
        case Failure(e) => Progress(p.steps, Some(e))
        case Success(step) => Progress(p.steps + [step], None)
  }

  /**
   * Line event i was recorded: its source line was found, its locals were
   * copied, and step i holds its number, the stripped line and the copy.
   */
  ghost predicate RecordedAt<V>(steps: seq<Step<V>>, frames: seq<Frame<V>>, policy: CopyPolicy<V>, i: int)
    requires 0 <= i < |steps| && i < |frames|
  {
    && Lookup(frames[i]).Success?
    && LocalsCopy(frames[i], policy).Success?
    && steps[i] == LineStep(i, frames[i], Lookup(frames[i]).value, LocalsCopy(frames[i], policy).value)
  }

  /** The error the hook raises for a line event: the lookup's, else the copy's. */
  ghost predicate RaisedFor<V>(frame: Frame<V>, policy: CopyPolicy<V>, error: string) {
    if Lookup(frame).Failure? then error == Lookup(frame).error
    else LocalsCopy(frame, policy) == Failure(error)
  }

  /**
   * For any events: the steps are the records of the line events, in order,
   * up to the first line event whose lookup or locals copy raises. The hook
   * raises exactly when there is such an event, and then with its error;
   * otherwise every line event has its step.
   */
  lemma {:induction false} CollectIsRecordOfLineEvents<V>(events: seq<Event<V>>, policy: CopyPolicy<V>)
    ensures |Collect(events, policy).steps| <= |LineFrames(events)|
    ensures forall i :: 0 <= i < |Collect(events, policy).steps| ==>
      RecordedAt(Collect(events, policy).steps, LineFrames(events), policy, i)
    ensures Collect(events, policy).raised.None? <==> |Collect(events, policy).steps| == |LineFrames(events)|
    ensures Collect(events, policy).raised.Some? ==>
      RaisedFor(LineFrames(events)[|Collect(events, policy).steps|], policy, Collect(events, policy).raised.value)
  {
    if events != [] {
      var front := events[..|events| - 1];
      var last := events[|events| - 1];
      var lf := LineFrames(front);
      var all := LineFrames(events);
      CollectIsRecordOfLineEvents(front, policy);
      var p := Collect(front, policy);
      assert all == lf + (if last.kind == Line then [last.frame] else []);
      assert forall i :: 0 <= i < |lf| ==> all[i] == lf[i];
      forall i | 0 <= i < |p.steps|
        ensures RecordedAt(p.steps, all, policy, i)
      {
        assert RecordedAt(p.steps, lf, policy, i);
      }
      if p.raised.None? && last.kind == Line {
        assert all[|lf|] == last.frame;
        match OnLine(|p.steps|, last.frame, policy)
        case Failure(e) =>
          assert Collect(events, policy) == Progress(p.steps, Some(e));
        case Success(added) =>
          var steps := p.steps + [added];
          assert Collect(events, policy) == Progress(steps, None);
          forall i | 0 <= i < |steps|
            ensures RecordedAt(steps, all, policy, i)
          {
            if i < |p.steps| {
              assert steps[i] == p.steps[i];
              assert RecordedAt(p.steps, all, policy, i);
            }
          }
      } else {
        assert Collect(events, policy) == p;
      }
    }
  }

  /** Whatever the events, the recorded steps are numbered 0..N-1 by position. */
  lemma CollectNumbered<V>(events: seq<Event<V>>, policy: CopyPolicy<V>)
    ensures Numbered(Collect(events, policy).steps)
  {
    var steps := Collect(events, policy).steps;
    CollectIsRecordOfLineEvents(events, policy);
    forall i | 0 <= i < |steps|
      ensures steps[i].step == i
    {
      assert RecordedAt(steps, LineFrames(events), policy, i);
    }
  }

  /**
   * Without a bounds guard a line event whose offset lies past the end of the
   * function's source raises an `IndexError`, and the steps stay as they were.
   */
  lemma RaisesPastEnd<V>(events: seq<Event<V>>, frame: Frame<V>, policy: CopyPolicy<V>)
    requires Collect(events, policy).raised.None?
    requires frame.source.Some? && Offset(frame) >= |frame.source.value|
    ensures Collect(events + [Event(Line, frame)], policy) == Progress(Collect(events, policy).steps, Some(IndexErrorMessage))
  {
    var all := events + [Event(Line, frame)];
    assert all[..|all| - 1] == events;
  }

  /**
   * A line event in a function whose source `inspect.getsource` cannot find
   * (one compiled from a string by `exec`) raises the `OSError`, and the
   * steps stay as they were.
   */
  lemma RaisesWithoutSource<V>(events: seq<Event<V>>, frame: Frame<V>, policy: CopyPolicy<V>)
    requires Collect(events, policy).raised.None?
    requires frame.source.None?
    ensures Collect(events + [Event(Line, frame)], policy) == Progress(Collect(events, policy).steps, Some(SourceErrorMessage))
  {
    var all := events + [Event(Line, frame)];
    assert all[..|all| - 1] == events;
  }

  /**
   * A line event whose source line is found but whose locals cannot be
   * copied (the `str` fallback raises) raises that error, and the steps stay
   * as they were.
   */
  lemma RaisesOnLocals<V>(events: seq<Event<V>>, frame: Frame<V>, policy: CopyPolicy<V>)
    requires Collect(events, policy).raised.None?
    requires Lookup(frame).Success? && LocalsCopy(frame, policy).Failure?
    ensures Collect(events + [Event(Line, frame)], policy) == Progress(Collect(events, policy).steps, Some(LocalsCopy(frame, policy).error))
  {
    var all := events + [Event(Line, frame)];
    assert all[..|all| - 1] == events;
  }

  /** The hook object: the list of steps and the step counter. */
  class CodeTracer<V> {
    var steps: seq<Step<V>>
    var stepCount: int
    const policy: CopyPolicy<V>

    /** The counter equals the number of steps and step i is numbered i. */
    ghost predicate Valid()
      reads this
    {
      stepCount == |steps| && Numbered(steps)
    }

    /** `CodeTracer()`: no steps yet and the counter at 0. */
    constructor (policy: CopyPolicy<V>)
      ensures Valid()
      ensures steps == [] && stepCount == 0 && this.policy == policy
    {
      this.policy := policy;
      steps := [];
      stepCount := 0;
    }

    /**
     * `trace_function(frame, event, arg)`: a line event whose source lookup
     * and locals copy succeed appends exactly one step numbered by the old
     * counter and bumps the counter; a lookup or a copy that fails raises its
     * error (`raised`) before anything is recorded; any other event changes
     * nothing.
     */
    method TraceFunction(event: Event<V>) returns (raised: Option<string>)
      requires Valid()
      modifies this
      ensures Valid()
      ensures raised == if event.kind != Line then None
        else if Lookup(event.frame).Failure? then Some(Lookup(event.frame).error)
        else if LocalsCopy(event.frame, policy).Failure? then Some(LocalsCopy(event.frame, policy).error)
        else None
      ensures event.kind == Line && raised.None? ==>
        && steps == old(steps) + [LineStep(old(stepCount), event.frame, Lookup(event.frame).value, LocalsCopy(event.frame, policy).value)]
        && stepCount == old(stepCount) + 1
      ensures event.kind != Line || raised.Some? ==> steps == old(steps) && stepCount == old(stepCount)
    {
      raised := None;
      if event.kind == Line {
        var found := Lookup(event.frame);
        if found.Failure? {
          return Some(found.error);
        }
        var codeLine := found.value;
        var localsCopy := CopyLocals(event.frame.locals, policy, CatchAll);
        if localsCopy.Failure? {
          return Some(localsCopy.error);
        }
        var step := Step(stepCount, event.frame.lineno, Strip(codeLine), localsCopy.value);
        assert step == LineStep(stepCount, event.frame, codeLine, localsCopy.value);
        NumberedAppend(steps, step);
        steps := steps + [step];
        stepCount := stepCount + 1;
      }
    }

    /**
     * `run_trace(func, *args, **kwargs)`: resets the steps and the counter,
     * then the interpreter runs the call and delivers `events` to the hook
     * until the hook raises. An error from the hook propagates out of the
     * call; otherwise the call's own outcome decides.
     */
    method RunTrace(events: seq<Event<V>>, call: CallOutcome<V>) returns (r: Result<TraceResult<V>, string>)
      modifies this
      ensures Valid()
      ensures steps == Collect(events, policy).steps
      ensures r == if Collect(events, policy).raised.Some? then Failure(Collect(events, policy).raised.value)
        else match call
          case Returned(v) => Success(TraceResult(v, steps))
          case Raised(e) => Failure(e)
    {
      steps := [];
      stepCount := 0;
      var i := 0;
      var raised := None;
      while i < |events| && raised.None?
        invariant 0 <= i <= |events|
        invariant Valid()
        invariant steps == Collect(events[..i], policy).steps
        invariant raised == Collect(events[..i], policy).raised
      {
        assert events[..i + 1][..i] == events[..i];
        raised := TraceFunction(events[i]);
        i := i + 1;
      }
      if raised.Some? {
        RaisedStays(events, i, policy);
        r := Failure(raised.value);
        return;
      }
      assert events[..|events|] == events;
      match call
      case Returned(v) => r := Success(TraceResult(v, steps));
      case Raised(e) => r := Failure(e);
    }
  }

  /** Once the hook has raised, later events change nothing. */
  lemma {:induction false} RaisedStays<V>(events: seq<Event<V>>, i: nat, policy: CopyPolicy<V>)
    requires i <= |events| && Collect(events[..i], policy).raised.Some?
    ensures Collect(events, policy) == Collect(events[..i], policy)
    decreases |events| - i
  {
    if i < |events| {
      assert events[..i + 1][..i] == events[..i];
      RaisedStays(events, i + 1, policy);
    } else {
      assert events[..i] == events;
    }
  }
}
