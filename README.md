# code-tracer-app core, modelled in Dafny

The app lets a user paste a Python function, name it and give one argument,
and shows an execution trace: for every executed line its number, its source
text and a snapshot of the local variables. This project models the
deterministic core of that pipeline:

- the input gate of `handleRun` in `src/App.tsx`: a fixed, ordered chain of
  string checks (the `validateCode` denylist, the untouched default snippet,
  `def` present, a function name, an argument, `def <name>` present) where
  the first failing check decides the one message shown, and the state update
  around it (clear error and steps, set busy, publish steps or an error,
  always clear busy), plus the editor and config handlers;
- the preparation of the source in `TracerService.traceCode`: backslash
  escaping, splitting on `\n`, the JSON array literal of lines that the
  interpreter reads back, and the `\n`-join before compiling;
- the two `CodeTracer` step collectors, the one written into the generated
  script (`src/services/tracer.ts`) and the standalone one
  (`src/services/tracer.py`): an append-only list of steps plus a counter,
  fed by the interpreter's line events, each step holding a per-variable
  copy with a textual fallback, where an exception that escapes the copy,
  the fallback or the source lookup ends the tracing;
- the wrapping of `traceCode`'s result: only `steps` is kept, and every
  failure inside the interpreter becomes one error prefixed
  "Failed to trace the code: ".

Modules, one per concern: `Wrappers` (Option, Result), `Text` (JavaScript
`includes`/`split`/`join`, Python `strip`/`isspace`/`str(int)`), `Validator`,
`Escaping`, `Steps` (shared records and the locals snapshot), `EmbeddedTracer`,
`StandaloneTracer`, `TracerService`, `App`.

Values of the traced program are a type parameter. How the copy probe
(`json.dumps`, `deepcopy`) ends for a value, and what its textual fallback
(`repr`, `str`) returns or raises, belong to the Python runtime; they enter
as a `CopyPolicy` value. Which probe exceptions a tracer catches is its own
code: every one in `tracer.py`, only `TypeError` and `ValueError` in the
embedded tracer. The interpreter's behaviour enters as data: the hook events of the
traced call (`Event(kind, Frame(lineno, firstLineNo, source, locals))`), how
the call ended, and whether loading the runtime or running the script failed.

`traceCode` doubles every backslash before it writes the lines into the
script (see Findings), and the model records the steps over those escaped
lines, as the code does. The standalone tracer indexes the function's source
without the bounds guard the embedded one has, and its source lookup itself
raises for a function whose source is not on file.

## Model

| member | source | states |
|---|---|---|
| `Text.Includes` | src/services/tracer.ts:107 | the JavaScript substring test is true exactly when the pattern occurs at some index (case-sensitive, true for the empty pattern) |
| `Text.IncludesPrefix` | src/App.tsx:58 | a text that includes `p + q` includes `p` |
| `Text.StripSpec` | src/services/tracer.ts:62 | Python's `strip` returns a middle slice with only whitespace around it, and the slice neither starts nor ends with whitespace |
| `Text.TrimStartSpec` | src/services/tracer.ts:62 | `lstrip` keeps a suffix, drops only whitespace, and leaves none at the front |
| `Text.TrimEndSpec` | src/services/tracer.ts:62 | `rstrip` keeps a prefix, drops only whitespace, and leaves none at the end |
| `Text.StripKeeps` | src/services/tracer.py:28 | stripping leaves a text alone whose ends are not whitespace |
| `Text.JoinSplit` | src/services/tracer.ts:81-85 | joining the pieces of a split with the separator gives back the text |
| `Text.SplitPartsFree` | src/services/tracer.ts:81 | no line of a split holds the separator |
| `Text.SplitJoin` | src/services/tracer.ts:81-85 | splitting the join of separator-free pieces gives back the pieces |
| `Text.IntToString` | src/services/tracer.ts:47 | `str(i)`: canonical decimal digits (no leading zero unless "0") that denote \|i\|, after a `-` exactly when i is negative |
| `Validator.ValidateCode` | src/services/tracer.ts:104-112 | the scan with early return answers true exactly when no forbidden pattern occurs |
| `Validator.RejectedIffContainsPattern` | src/services/tracer.ts:105-111 | the code is rejected iff it contains "import os", "import sys", "exec" or "eval" |
| `Validator.RejectionSurvivesContext` | src/services/tracer.ts:104-112 | text added before or after rejected code never makes it pass |
| `Validator.AllowedWithoutLetters` | src/services/tracer.ts:104-111 | code lacking a letter of every forbidden pattern (no `i`, and no `e` or neither `x` nor `v`) passes |
| `Validator.CaseSensitive` | src/services/tracer.ts:107 | the match is case-sensitive: "EXEC(x)" passes |
| `Escaping.EscapeLength` | src/services/tracer.ts:26 | escaping lengthens the code by exactly its number of backslashes |
| `Escaping.EscapeChangesOnlyBackslashes` | src/services/tracer.ts:26 | with backslashes removed, the escaped code equals the code: no other character changes or moves |
| `Escaping.UnescapeEscape` | src/services/tracer.ts:26 | collapsing doubled backslashes undoes the escaping |
| `Escaping.SplitEscape` | src/services/tracer.ts:81 | escaping adds no line break: line k of the escaped code is line k of the code, escaped |
| `Escaping.JsonReadBack` | src/services/tracer.ts:81 | Python reads the `JSON.stringify` literal of any line back as that same line |
| `Escaping.ReadBackLinesExact` | src/services/tracer.ts:81 | the interpreter's `code_lines` are exactly the lines JavaScript wrote |
| `Escaping.AsWrittenLines` | src/services/tracer.ts:81-85 | as written, `code_lines` join back to the escaped code exactly, and each is the escaped source line |
| `Escaping.AsWrittenCompilesOtherText` | src/services/tracer.ts:26 | as written, the compiled text differs from the user's code whenever the code holds a backslash |
| `Escaping.CompilesUserCode` | src/services/tracer.ts:81-86 | without the escaping step, the joined `code_lines` are the user's code and split back into the same lines |
| `Steps.KeepFaithful` | src/services/tracer.ts:51-57 | one value is stored as a copy equal to it exactly when the probe accepts it, as the fallback's text exactly when the probe's exception is caught and the fallback returns; otherwise the probe's uncaught exception or the fallback's exception escapes |
| `Steps.SnapshotFaithful` | src/services/tracer.py:18-23 | the snapshot succeeds exactly when every local is kept; it then has exactly the local names as keys, each holding what `Keep` makes of its value; otherwise it fails with the exception of the first local, in iteration order, that is not kept |
| `Steps.SnapshotCopiesProbed` | src/services/tracer.ts:51-54 | every value a snapshot stores as a copy was accepted by the probe |
| `Steps.CopyLocals` | src/services/tracer.ts:49-57 | the loop over the frame's locals, in order, with its `try`/`except` and an escaping exception ending it, computes exactly the snapshot |
| `EmbeddedTracer.OutOfBounds` | src/services/tracer.ts:47 | the placeholder starts with `L` and ends with `)`, so stripping keeps it |
| `EmbeddedTracer.RecordedLine` | src/services/tracer.ts:41-64 | a step for reported line L records L; its code is line L stripped when 1 <= L <= the number of lines, else the placeholder naming L |
| `EmbeddedTracer.CollectIsRecordOfLineEvents` | src/services/tracer.ts:39-67 | after any events, step i is the record of the i-th line event (its line, its code, its copied locals), up to the first line event whose locals cannot be copied; the hook raises exactly when there is one, with that copy's error; otherwise there is one step per line event; other events leave no trace |
| `EmbeddedTracer.RaisesOnLocals` | src/services/tracer.ts:49-57 | a line event whose locals copy raises (an uncaught probe error or a raising `repr`) makes the hook raise it, records nothing, and nothing later is recorded |
| `EmbeddedTracer.CollectNumbered` | src/services/tracer.ts:59-65 | the steps are numbered 0..N-1 by position |
| `EmbeddedTracer.CollectSerialisable` | src/services/tracer.ts:49-57 | every variable recorded as a copy was accepted by the serialisation probe; everything else is text |
| `EmbeddedTracer.CollectAppendOnly` | src/services/tracer.ts:59-65 | later events never change a step already recorded |
| `EmbeddedTracer.CodeTracer.constructor` | src/services/tracer.ts:34-37 | a new tracer has no steps, a zero counter and the given lines |
| `EmbeddedTracer.CodeTracer.TraceFunction` | src/services/tracer.ts:39-67 | a line event whose locals can be copied appends exactly one step numbered by the old counter and bumps the counter; one whose copy raises raises that error and changes nothing; other events change nothing; counter equals the number of steps and step i is numbered i |
| `EmbeddedTracer.CodeTracer.RunTrace` | src/services/tracer.ts:70-79 | steps and counter are reset, so the steps afterwards are exactly the record of this call's events; a hook error or the call's exception is the outcome, else the call's value with the steps |
| `StandaloneTracer.CollectIsRecordOfLineEvents` | src/services/tracer.py:13-33 | after any events, step i holds the i-th line event's number, its stripped source line at offset `f_lineno - co_firstlineno` and its copied locals, up to the first line event whose lookup or copy raises; the hook raises exactly when there is one, with the lookup's error, else the copy's; otherwise there is one step per line event |
| `StandaloneTracer.CollectNumbered` | src/services/tracer.py:25-31 | whatever the events, the recorded steps are numbered 0..N-1 by position |
| `StandaloneTracer.Lookup` | src/services/tracer.py:15-16 | the lookup fails exactly when the source is not on file or the offset is outside Python's index range, with the OSError or the IndexError respectively; a non-negative in-range offset gives that source line, a negative one the line that far from the end |
| `StandaloneTracer.RaisesPastEnd` | src/services/tracer.py:15-16 | with no bounds guard, a line offset past the end of the source raises the IndexError and records nothing |
| `StandaloneTracer.RaisesWithoutSource` | src/services/tracer.py:15 | a line event in a function whose source `inspect.getsource` cannot find raises the OSError and records nothing |
| `StandaloneTracer.RaisesOnLocals` | src/services/tracer.py:18-23 | a line event whose source line is found but whose `str` fallback raises inside the bare `except` raises that error and records nothing |
| `StandaloneTracer.CodeTracer.constructor` | src/services/tracer.py:9-11 | a new tracer has no steps and a zero counter |
| `StandaloneTracer.CodeTracer.TraceFunction` | src/services/tracer.py:13-33 | a line event whose lookup and locals copy succeed appends one step numbered by the old counter and bumps it; a failing lookup raises its error (missing source or offset out of range), else a failing copy raises its error, and nothing changes; other events change nothing |
| `StandaloneTracer.CodeTracer.RunTrace` | src/services/tracer.py:35-44 | steps and counter are reset before the call; the steps are the record of this call only; a hook error or the call's exception is the outcome, else the value with the steps |
| `TracerService.TraceCode` | src/services/tracer.ts:19-102 | the trace builds an embedded tracer over the escaped code's lines, runs the call, and returns only the steps, or fails |
| `TracerService.FailureIsWrapped` | src/services/tracer.ts:95-101 | a loading failure passes through unwrapped; every other failure is one Error whose message starts with "Failed to trace the code: " |
| `TracerService.SuccessIsTheRecordedSteps` | src/services/tracer.ts:95-98 | success needs a ready host, a completed script, a hook that never raised and a return value `json.dumps` accepts; the steps are then the tracer's record over the source lines escaped one by one, numbered 0..N-1, one per line event |
| `TracerService.HookErrorFailsTrace` | src/services/tracer.ts:49-57 | when the hook raises (some line event's locals copy fails), the trace fails with that error behind the failure prefix, whatever the call returns |
| `TracerService.RecordedCodeIsEscaped` | src/services/tracer.ts:26-62 | the `code` a step records for a line inside the source is that line with its backslashes doubled, stripped |
| `TracerService.BackslashFreeTrace` | src/services/tracer.ts:26 | for code without a backslash the escaping changes nothing: the steps are recorded over the user's own lines |
| `App.RunGate` | src/App.tsx:38-62 | the run proceeds exactly when all six checks pass |
| `App.GateFollowsChecks` | src/App.tsx:38-62 | the guard chain equals "first failure wins" over the six checks in source order |
| `App.FirstFailureAt` | src/App.tsx:38-62 | the first failing check's message is reported, whatever the later checks say |
| `App.FirstFailureAllPass` | src/App.tsx:64-72 | when no check fails, the run goes ahead |
| `App.ForbiddenFirst` | src/App.tsx:38-40 | code failing the denylist is refused as forbidden whatever the other fields hold |
| `App.DefaultCodeRejected` | src/App.tsx:42-44 | the default snippet passes the denylist and is then refused with "Please enter your Python code" whatever the config |
| `App.PrefixNameAccepted` | src/App.tsx:58 | code that passes every check for a name passes them for each non-empty prefix of it |
| `App.PrefixNameExample` | src/App.tsx:58-62 | code defining only `func2` is traced when `func` is asked for |
| `App.ConfigChange` | src/App.tsx:82-87 | the named field takes the value and the other field keeps its own |
| `App.EditorChange` | src/App.tsx:28-30 | an undefined or empty value leaves the code alone, any other replaces it; non-empty code stays non-empty |
| `App.AppState.constructor` | src/App.tsx:19-26 | the component starts with the default snippet, no steps, no error, not busy, empty config |
| `App.AppState.HandleEditorChange` | src/App.tsx:28-30 | only the code changes, as `EditorChange` says |
| `App.AppState.HandleConfigChange` | src/App.tsx:82-87 | only the config changes, as `ConfigChange` says |
| `App.AppState.HandleRun` | src/App.tsx:32-80 | busy is cleared (also when a run was in flight at the call); tracing is invoked only when the gate proceeds; a refused run shows the first failing check's message with no steps; a traced run publishes the steps unchanged, or shows the thrown Error's message (or "An unexpected error occurred" for a non-Error) with no steps |

## Findings

| source | as written | input that shows it | evidently intended | confidence | as-written member | corrected member |
|---|---|---|---|---|---|---|
| src/services/tracer.ts:26 | backslashes are doubled before `JSON.stringify`, which escapes them again, so the interpreter's `code_lines`, the compiled text and every recorded `code` hold each backslash twice | the code `def f(n):` / `    return "a\tb"` compiles as `return "a\\tb"`: the call returns a backslash and a `t` where the user wrote a tab, and a line ending in a continuation backslash becomes a syntax error | the interpreter compiles and shows the user's code unchanged | high; not executed | `Escaping.AsWrittenCompilesOtherText` | `Escaping.CompilesUserCode` |

`TracerService.TraceCode` follows the source and builds the tracer over
`Escaping.CodeLinesAsWritten`; `Escaping.CodeLines` is the corrected split of
the code on `\n`, and `Escaping.AsWrittenWithoutBackslash` shows the two agree
on code without a backslash.

## Left out

- Loading the Python runtime and its process-wide single instance (`initPyodide`, `runPythonAsync`): a foreign runtime with asynchronous one-time initialisation; its outcome is the `HostOutcome` input.
- The text of the generated script and the verbatim injection of the function name and argument literal: their meaning lies in Python's semantics; what running the script does is the `ScriptRun` input (events of the call, how it ended, or a failure text).
- `json.dumps`, `deepcopy`, `repr`, `str`: library calls, represented by a `CopyPolicy` (how the probe ends, what the fallback returns or raises). A copy is modelled as a value equal to the original; object identity and aliasing are not modelled, nor are cyclic values.
- `EmbeddedTracer.LocalsCopy`: the embedded tracer's `deepcopy` of a value `json.dumps` accepted is taken to succeed; the probe is `json.dumps` alone. The final `json.dumps` of the returned value is judged by the same probe.
- The JSON serialisation of `{result, steps}` and `JSON.parse` of it: the steps are taken to arrive unchanged; only the failure of serialising a non-serialisable return value is modelled, with the error text as an input. In particular a float that is not finite (`float('inf')`, `nan`) as a local or as the result passes `json.dumps`, which writes `Infinity`/`NaN`, and `JSON.parse` then rejects the output, so the source fails with "Failed to trace the code: SyntaxError…"; the model does not derive this failure: such a run must be given as `ScriptFailed`, and given as `Executed` it is reported as a success.
- `sys.settrace` and frame introspection: the hook's calls are the `Event` inputs; installing and removing the hook is interpreter state. The hook's return value (itself, so tracing goes on) is not modelled as a value.
- Exact texts of Python and JavaScript error messages (other than the constants in the source): they are `detail` strings in the inputs; `IndexErrorMessage` and `SourceErrorMessage` are CPython's usual texts.
- The insertion order of variables in `locals_copy`: a Python dict keeps it, the model's map does not (the locals are read in their order, so which exception escapes first is modelled).
- `Escaping.PyDecode`: escapes that `JSON.stringify` never writes (octal, `\x`, `\U`, `\N`, line continuation) and `\u` escapes naming a lone surrogate are outside the model; a Dafny `char` cannot be a lone surrogate.
- `StandaloneTracer.CodeTracer.RunTrace`: a traced function that catches the error raised by the hook is not modelled; the error is taken to propagate out of the call.
- `EmbeddedTracer.CodeTracer.RunTrace`: likewise, the hook's error is taken to propagate out of the traced call.
- `App.AppState.HandleRun`: the await of `traceCode` is modelled as atomic. In the source only the Run button is disabled while it runs, so the editor and the two inputs can change `code` and `config` meanwhile; those interleaved changes are not modelled, and the steps published are those of the code and config at the click, which may no longer be what the editor shows. The intermediate render while the trace is awaited (busy set, error and steps cleared) is not part of the contract; React's batching of state updates is not modelled.
- The `__main__` driver of `src/services/tracer.py` (stdin/stdout I/O) and all rendering: the JSX of `src/App.tsx`, the editor widget and `src/components/ui/code-display.tsx`.
