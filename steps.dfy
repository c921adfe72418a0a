/**
 * What both tracers share: the trace-step record, the interpreter's frame
 * events as the tracers see them, and the per-variable snapshot of a frame's
 * locals. Values of the traced program are a type parameter `V`; how the
 * runtime's copy probe and textual fallback treat a value arrives as a
 * `CopyPolicy`, and either of them may raise.
 */
module Steps {
  import opened Wrappers

  /** The event names a Python trace hook receives. */
  datatype EventKind = Call | Line | Return | Exception | Opcode

  /**
   * The parts of a frame the tracers read: `f_lineno`, `f_code.co_firstlineno`,
   * the lines of `inspect.getsource(f_code)` (`None` when `getsource` raises
   * `OSError`, as it does for a function compiled from a string), and
   * `f_locals` as its (name, value) pairs in the dictionary's iteration order.
   */
  datatype Frame<V> = Frame(lineno: int, firstLineNo: int, source: Option<seq<string>>, locals: seq<(string, V)>)

  /** One call of the trace hook: `(frame, event)`; the hook's `arg` is never read. */
  datatype Event<V> = Event(kind: EventKind, frame: Frame<V>)

  /** A recorded variable: a copy equal to the value, or a textual fallback. */
  datatype Recorded<V> = Copy(value: V) | Text(text: string)

  /**
   * How the copy probe of one value ends: it accepts the value, it raises a
   * `TypeError` or `ValueError`, or it raises another exception, whose text
   * is given.
   */
  datatype Probe = Copyable | Unserialisable | ProbeRaised(error: string)

  /**
   * How the runtime treats one value. The embedded tracer probes with
   * `json.dumps` and falls back on `repr`; the standalone tracer probes with
   * `deepcopy` and falls back on `str`. `text` is the fallback's string, or
   * the text of the exception the fallback raises.
   */
  datatype CopyPolicy<!V> = CopyPolicy(probe: V -> Probe, text: V -> Result<string, string>)

  /**
   * The probe exceptions a tracer's `except` clause catches: every one (a
   * bare `except:`), or only `TypeError` and `ValueError`.
   */
  datatype Handler = CatchAll | CatchTypeOrValue

  /** One trace step: `{step, line, code, variables}`. */
  datatype Step<V> = Step(step: int, line: int, code: string, variables: map<string, Recorded<V>>)

  /** How the traced call ended. */
  datatype CallOutcome<V> = Returned(value: V) | Raised(error: string)

  /** The dictionary `run_trace` returns: `{'result': ..., 'steps': ...}`. */
  datatype TraceResult<V> = TraceResult(result: V, steps: seq<Step<V>>)

  /** Where a hook stands after a run of events: the steps so far, and the error it raised, if any. */
  datatype Progress<V> = Progress(steps: seq<Step<V>>, raised: Option<string>)

  /** The frames of the line events, in order: the events a tracer records. */
  function LineFrames<V>(events: seq<Event<V>>): (frames: seq<Frame<V>>)
    ensures |frames| <= |events|
  {
    if events == [] then []
    else
      var last := events[|events| - 1];
      LineFrames(events[..|events| - 1]) + (if last.kind == Line then [last.frame] else [])
  }

  /** Steps numbered 0, 1, 2, ... by position, with no gaps. */
  ghost predicate Numbered<V>(steps: seq<Step<V>>) {
    forall i :: 0 <= i < |steps| ==> steps[i].step == i
  }

  /** Appending a step numbered by the current length keeps the numbering. */
  lemma NumberedAppend<V>(steps: seq<Step<V>>, step: Step<V>)
    requires Numbered(steps) && step.step == |steps|
    ensures Numbered(steps + [step])
  {
  }

  /** The probe's outcome sends the value to the textual fallback. */
  predicate Caught(probe: Probe, handler: Handler) {
    probe.Unserialisable? || (probe.ProbeRaised? && handler == CatchAll)
  }

  /**
   * The `try`/`except` around one value: a copy when the probe accepts it;
   * the probe's exception when the handler does not catch it; otherwise the
   * fallback's text, or the exception the fallback raises inside the handler.
   */
  function Keep<V>(v: V, policy: CopyPolicy<V>, handler: Handler): Result<Recorded<V>, string> {
    var probe := policy.probe(v);
    if probe.Copyable? then Success(Copy(v))
    else if !Caught(probe, handler) then Failure(probe.error)
    else match policy.text(v)
      case Success(t) => Success(Text(t))
      case Failure(e) => Failure(e)
  }

  /**
   * What happens to one value: it is stored as a copy equal to it exactly
   * when the probe accepts it, as the fallback's text exactly when the probe's
   * exception is caught and the fallback returns; otherwise the exception of
   * the probe or of the fallback escapes.
   */
  lemma KeepFaithful<V>(v: V, policy: CopyPolicy<V>, handler: Handler)
    ensures Keep(v, policy, handler).Success? && Keep(v, policy, handler).value.Copy? <==> policy.probe(v).Copyable?
    ensures Keep(v, policy, handler).Success? && Keep(v, policy, handler).value.Copy? ==> Keep(v, policy, handler).value.value == v
    ensures Keep(v, policy, handler).Success? && Keep(v, policy, handler).value.Text? <==>
      Caught(policy.probe(v), handler) && policy.text(v).Success?
    ensures Keep(v, policy, handler).Success? && Keep(v, policy, handler).value.Text? ==>
      Keep(v, policy, handler).value.text == policy.text(v).value
    ensures Keep(v, policy, handler).Failure? && Caught(policy.probe(v), handler) ==> Keep(v, policy, handler).error == policy.text(v).error
    ensures Keep(v, policy, handler).Failure? && !Caught(policy.probe(v), handler) ==> Keep(v, policy, handler).error == policy.probe(v).error
  {
  }

  /** The `locals_copy` dictionary, filled in the locals' order, or the first exception that escapes. */
  function Snapshot<V>(locals: seq<(string, V)>, policy: CopyPolicy<V>, handler: Handler): Result<map<string, Recorded<V>>, string> {
    if locals == [] then Success(map[])
    else
      var last := locals[|locals| - 1];
      match Snapshot(locals[..|locals| - 1], policy, handler)
      case Failure(e) => Failure(e)
      case Success(copy) =>
        match Keep(last.1, policy, handler)
        case Failure(e) => Failure(e)
        case Success(r) => Success(copy[last.0 := r])
  }

  /** Local j keeps its value: no later local has its name. */
  ghost predicate Latest<V>(locals: seq<(string, V)>, j: int)
    requires 0 <= j < |locals|
  {
    forall k :: j < k < |locals| ==> locals[k].0 != locals[j].0
  }

  /** Local j is the first one whose value the `try`/`except` lets an exception out of. */
  ghost predicate FailsFirstAt<V>(locals: seq<(string, V)>, policy: CopyPolicy<V>, handler: Handler, j: int) {
    && 0 <= j < |locals|
    && Keep(locals[j].1, policy, handler).Failure?
    && forall k :: 0 <= k < j ==> Keep(locals[k].1, policy, handler).Success?
  }

  /**
   * The snapshot's promise: it succeeds exactly when every local is kept; it
   * then has exactly the local names as keys, each holding what `Keep` makes
   * of the name's value. Otherwise the exception is that of the first local,
   * in iteration order, that is not kept.
   */
  lemma {:induction false} SnapshotFaithful<V>(locals: seq<(string, V)>, policy: CopyPolicy<V>, handler: Handler)
    ensures Snapshot(locals, policy, handler).Success? <==>
      forall j :: 0 <= j < |locals| ==> Keep(locals[j].1, policy, handler).Success?
    ensures Snapshot(locals, policy, handler).Success? ==>
      Snapshot(locals, policy, handler).value.Keys == set j | 0 <= j < |locals| :: locals[j].0
    ensures Snapshot(locals, policy, handler).Success? ==> forall j :: 0 <= j < |locals| && Latest(locals, j) ==>
      Keep(locals[j].1, policy, handler) == Success(Snapshot(locals, policy, handler).value[locals[j].0])
    ensures Snapshot(locals, policy, handler).Failure? ==> exists j ::
      FailsFirstAt(locals, policy, handler, j) && Snapshot(locals, policy, handler).error == Keep(locals[j].1, policy, handler).error
  {
    if locals != [] {
      var n := |locals| - 1;
      var front := locals[..n];
      var last := locals[n];
      SnapshotFaithful(front, policy, handler);
      assert forall j :: 0 <= j < n ==> front[j] == locals[j];
      match Snapshot(front, policy, handler)
      case Failure(e) =>
        var j :| FailsFirstAt(front, policy, handler, j) && e == Keep(front[j].1, policy, handler).error;
        assert FailsFirstAt(locals, policy, handler, j);
      case Success(copy) =>
        if Keep(last.1, policy, handler).Failure? {
          assert FailsFirstAt(locals, policy, handler, n);
        } else {
          var r := Keep(last.1, policy, handler).value;
          SnapshotExtends(locals, policy, handler, copy, r);
          assert Snapshot(locals, policy, handler) == Success(copy[last.0 := r]);
        }
    }
  }

  /** The step of `SnapshotFaithful` where every earlier local and the last one are kept. */
  lemma SnapshotExtends<V>(locals: seq<(string, V)>, policy: CopyPolicy<V>, handler: Handler, copy: map<string, Recorded<V>>, r: Recorded<V>)
    requires locals != []
    requires copy.Keys == set j | 0 <= j < |locals| - 1 :: locals[j].0
    requires forall j :: 0 <= j < |locals| - 1 && Latest(locals[..|locals| - 1], j) ==>
      Keep(locals[j].1, policy, handler) == Success(copy[locals[j].0])
    requires Keep(locals[|locals| - 1].1, policy, handler) == Success(r)
    ensures copy[locals[|locals| - 1].0 := r].Keys == set j | 0 <= j < |locals| :: locals[j].0
    ensures forall j :: 0 <= j < |locals| && Latest(locals, j) ==>
      Keep(locals[j].1, policy, handler) == Success(copy[locals[|locals| - 1].0 := r][locals[j].0])
  {
    var n := |locals| - 1;
    var all := copy[locals[n].0 := r];
    assert all.Keys == set j | 0 <= j < |locals| :: locals[j].0 by {
      SnapshotKeys(locals, copy.Keys);
    }
    forall j | 0 <= j < |locals| && Latest(locals, j)
      ensures Keep(locals[j].1, policy, handler) == Success(all[locals[j].0])
    {
      if j < n {
        LatestInFront(locals, j);
      }
    }
  }

  /** Adding the last local's name to the names before it gives all the names. */
  lemma SnapshotKeys<V>(locals: seq<(string, V)>, keys: set<string>)
    requires locals != []
    requires keys == set j | 0 <= j < |locals| - 1 :: locals[j].0
    ensures keys + {locals[|locals| - 1].0} == set j | 0 <= j < |locals| :: locals[j].0
  {
    var all := set j | 0 <= j < |locals| :: locals[j].0;
    forall x | x in all
      ensures x in keys + {locals[|locals| - 1].0}
    {
      var j :| 0 <= j < |locals| && locals[j].0 == x;
      if j < |locals| - 1 {
        assert x in keys;
      }
    }
  }

  /** A local before the last one that keeps its value among all the locals keeps it among the earlier ones, under another name than the last. */
  lemma LatestInFront<V>(locals: seq<(string, V)>, j: int)
    requires 0 <= j < |locals| - 1 && Latest(locals, j)
    ensures Latest(locals[..|locals| - 1], j)
    ensures locals[j].0 != locals[|locals| - 1].0
  {
    var front := locals[..|locals| - 1];
    forall k | j < k < |front|
      ensures front[k].0 != front[j].0
    {
      assert front[k] == locals[k] && front[j] == locals[j];
    }
  }

  /** Every value a snapshot stores as a copy was accepted by the probe. */
  lemma {:induction false} SnapshotCopiesProbed<V>(locals: seq<(string, V)>, policy: CopyPolicy<V>, handler: Handler)
    requires Snapshot(locals, policy, handler).Success?
    ensures forall name :: name in Snapshot(locals, policy, handler).value ==>
      var r := Snapshot(locals, policy, handler).value[name];
      r.Copy? ==> policy.probe(r.value).Copyable?
  {
    if locals != [] {
      SnapshotCopiesProbed(locals[..|locals| - 1], policy, handler);
    }
  }

  /** Once a prefix of the locals has let an exception out, the whole snapshot fails with it. */
  lemma {:induction false} SnapshotFailureStays<V>(locals: seq<(string, V)>, i: nat, policy: CopyPolicy<V>, handler: Handler)
    requires i <= |locals| && Snapshot(locals[..i], policy, handler).Failure?
    ensures Snapshot(locals, policy, handler) == Snapshot(locals[..i], policy, handler)
    decreases |locals| - i
  {
    if i < |locals| {
      assert locals[..i + 1][..i] == locals[..i];
      SnapshotFailureStays(locals, i + 1, policy, handler);
    } else {
      assert locals[..i] == locals;
    }
  }

  /**
   * The loop that fills `locals_copy`: the locals are visited in order; a
   * value the probe accepts is stored as itself, one whose probe exception
   * the handler catches as the fallback's text; an exception that escapes
   * the handler ends the loop.
   */
  method CopyLocals<V>(locals: seq<(string, V)>, policy: CopyPolicy<V>, handler: Handler)
    returns (r: Result<map<string, Recorded<V>>, string>)
    ensures r == Snapshot(locals, policy, handler)
  {
    var copy := map[];
    for i := 0 to |locals|
      invariant Snapshot(locals[..i], policy, handler) == Success(copy)
    {
      assert locals[..i + 1][..i] == locals[..i];
      var (name, value) := locals[i];
      var probe := policy.probe(value);
      if probe.Copyable? {
        copy := copy[name := Copy(value)];
      } else if !Caught(probe, handler) {
        SnapshotFailureStays(locals, i + 1, policy, handler);
        return Failure(probe.error);
      } else {
        var text := policy.text(value);
        if text.Failure? {
          SnapshotFailureStays(locals, i + 1, policy, handler);
          return Failure(text.error);
        }
        copy := copy[name := Text(text.value)];
      }
    }
    assert locals[..|locals|] == locals;
    return Success(copy);
  }
}
