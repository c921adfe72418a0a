/**
 * The `App` component: its state (`code`, `executionSteps`, `error`,
 * `isLoading`, `config`), the editor and config handlers, and `handleRun`
 * with its fixed chain of input checks in front of the tracer.
 */
module App {
  import opened Wrappers
  import opened Text
  import opened Validator
  import opened Steps
  import opened TracerService

  /** The run configuration: the function to call and the literal text of its argument. */
  datatype Config = Config(functionName: string, parameterValue: string)

  /** The fields of the configuration a form input may set. */
  datatype Field = FunctionName | ParameterValue

  /** The editor's initial snippet. */
  const DefaultCode := "def func(n):"

  const ForbiddenMessage := "Code contains forbidden operations"
  const PleaseEnterMessage := "Please enter your Python code"
  const NoDefinitionMessage := "Function definition not found in the code"
  const NameRequiredMessage := "Function name is required"
  const ParameterRequiredMessage := "Parameter value is required"
  const UnexpectedMessage := "An unexpected error occurred"

  /** The message for a function name that no `def` in the code carries. */
  function NotFoundMessage(name: string): string {
    "Function \"" + name + "\" not found in the code"
  }

  /** The verdict of the input checks: go on to trace, or stop with a message. */
  datatype Gate = Proceed | Reject(message: string)

  /**
   * The checks at the head of `handleRun`, in source order: the denylist, the
   * untouched default snippet, a `def` somewhere, a function name, an
   * argument, and `def <name>` somewhere. The first failing check decides.
   */
  function RunGate(code: string, config: Config): (g: Gate)
    ensures g == Proceed <==>
      && IsAllowed(code)
      && code != DefaultCode
      && Includes(code, "def")
      && config.functionName != ""
      && config.parameterValue != ""
      && Includes(code, "def " + config.functionName)
  {
    if !IsAllowed(code) then Reject(ForbiddenMessage)
    else if code == DefaultCode then Reject(PleaseEnterMessage)
    else if !Includes(code, "def") then Reject(NoDefinitionMessage)
    else if config.functionName == "" then Reject(NameRequiredMessage)
    else if config.parameterValue == "" then Reject(ParameterRequiredMessage)
    else if !Includes(code, "def " + config.functionName) then Reject(NotFoundMessage(config.functionName))
    else Proceed
  }

  /** One input check: whether it passes and the message it reports when it fails. */
  datatype Check = Check(passes: bool, message: string)

  /** The six checks, in the order `handleRun` makes them. */
  function Checks(code: string, config: Config): (checks: seq<Check>)
    ensures |checks| == 6
  {
    [ Check(IsAllowed(code), ForbiddenMessage),
      Check(code != DefaultCode, PleaseEnterMessage),
      Check(Includes(code, "def"), NoDefinitionMessage),
      Check(config.functionName != "", NameRequiredMessage),
      Check(config.parameterValue != "", ParameterRequiredMessage),
      Check(Includes(code, "def " + config.functionName), NotFoundMessage(config.functionName)) ]
  }

  /** A generic "first failure wins" evaluation of a list of checks. */
  function FirstFailure(checks: seq<Check>): Gate {
    if checks == [] then Proceed
    else if !checks[0].passes then Reject(checks[0].message)
    else FirstFailure(checks[1..])
  }

  /** The first failing check decides the message, whatever the later checks say. */
  lemma {:induction false} FirstFailureAt(checks: seq<Check>, k: nat)
    requires k < |checks| && !checks[k].passes
    requires forall j :: 0 <= j < k ==> checks[j].passes
    ensures FirstFailure(checks) == Reject(checks[k].message)
  {
    if k > 0 {
      FirstFailureAt(checks[1..], k - 1);
    }
  }

  /** When no check fails, the run goes ahead. */
  lemma {:induction false} FirstFailureAllPass(checks: seq<Check>)
    requires forall j :: 0 <= j < |checks| ==> checks[j].passes
    ensures FirstFailure(checks) == Proceed
  {
    if checks != [] {
      FirstFailureAllPass(checks[1..]);
    }
  }

  /** The guard chain is exactly "first failure wins" over the six checks in source order. */
  lemma GateFollowsChecks(code: string, config: Config)
    ensures RunGate(code, config) == FirstFailure(Checks(code, config))
  {
    var checks := Checks(code, config);
    if m :| 0 <= m < 6 && !checks[m].passes {
      var k := FirstFailingBelow(checks, m);
      FirstFailureAt(checks, k);
      if k == 0 {
        assert !IsAllowed(code);
      } else if k == 1 {
        assert IsAllowed(code) && code == DefaultCode;
      } else if k == 2 {
        assert checks[0].passes && checks[1].passes && !checks[2].passes;
      } else if k == 3 {
        assert checks[0].passes && checks[1].passes && checks[2].passes && !checks[3].passes;
      } else if k == 4 {
        assert checks[0].passes && checks[1].passes && checks[2].passes && checks[3].passes;
      } else {
        assert checks[0].passes && checks[1].passes && checks[2].passes && checks[3].passes && checks[4].passes;
      }
    } else {
      assert checks[0].passes && checks[1].passes && checks[2].passes;
      assert checks[3].passes && checks[4].passes && checks[5].passes;
      FirstFailureAllPass(checks);
    }
  }

  /** The least index of a failing check, given that the one at `m` fails. */
  lemma {:induction false} FirstFailingBelow(checks: seq<Check>, m: nat) returns (k: nat)
    requires m < |checks| && !checks[m].passes
    ensures k <= m && !checks[k].passes && forall j :: 0 <= j < k ==> checks[j].passes
  {
    if forall j :: 0 <= j < m ==> checks[j].passes {
      k := m;
    } else {
      var j :| 0 <= j < m && !checks[j].passes;
      k := FirstFailingBelow(checks, j);
    }
  }

  /** Code that fails the denylist is refused as forbidden, whatever the other fields hold. */
  lemma ForbiddenFirst(code: string, config: Config)
    requires !IsAllowed(code)
    ensures RunGate(code, config) == Reject(ForbiddenMessage)
  {
  }

  /** The default snippet passes the denylist, so it is refused as untouched, whatever the config. */
  lemma DefaultCodeRejected(config: Config)
    ensures IsAllowed(DefaultCode)
    ensures RunGate(DefaultCode, config) == Reject(PleaseEnterMessage)
  {
    assert 'i' !in DefaultCode && 'x' !in DefaultCode && 'v' !in DefaultCode;
    AllowedWithoutLetters(DefaultCode);
  }

  /**
   * The name check is a plain substring test: whenever the code passes every
   * check for a name, it passes them for each non-empty prefix of that name.
   */
  lemma PrefixNameAccepted(code: string, name: string, suffix: string, argument: string)
    requires RunGate(code, Config(name + suffix, argument)) == Proceed
    requires name != ""
    ensures RunGate(code, Config(name, argument)) == Proceed
  {
    assert "def " + (name + suffix) == ("def " + name) + suffix;
    IncludesPrefix(code, "def " + name, suffix);
  }

  /** The concrete case: a code that defines only `func2` is traced when `func` is asked for. */
  lemma PrefixNameExample()
    ensures RunGate("def func2(n):", Config("func", "5")) == Proceed
  {
    var code := "def func2(n):";
    assert IsAllowed(code) by {
      assert 'i' !in code && 'x' !in code && 'v' !in code;
      AllowedWithoutLetters(code);
    }
    var p := "def " + "func";
    assert Includes(code, p) by {
      assert code[..8] == p by {
        forall j | 0 <= j < 8 ensures code[j] == p[j] { }
      }
      assert OccursAt(code, p, 0);
    }
    assert "def" + " func" == p;
    IncludesPrefix(code, "def", " func");
  }

  /** The message shown for a thrown value: an `Error`'s own message, or the catch-all text. */
  function ErrorMessage(t: Thrown): string {
    match t
    case ErrorValue(m) => m
    case OtherValue => UnexpectedMessage
  }

  /** The value of one configuration field. */
  function FieldValue(config: Config, field: Field): string {
    match field
    case FunctionName => config.functionName
    case ParameterValue => config.parameterValue
  }

  /** `handleConfigChange(field, value)`: `field` becomes `value`; the other field keeps its value. */
  function ConfigChange(config: Config, field: Field, value: string): (r: Config)
    ensures FieldValue(r, field) == value
    ensures forall f :: f != field ==> FieldValue(r, f) == FieldValue(config, f)
  {
    match field
    case FunctionName => config.(functionName := value)
    case ParameterValue => config.(parameterValue := value)
  }

  /**
   * `handleEditorChange(value)`: a value that is undefined or empty (both
   * falsy) leaves the code alone; any other value replaces it. So non-empty
   * code stays non-empty.
   */
  function EditorChange(code: string, value: Option<string>): (r: string)
    ensures value.Some? && value.value != "" ==> r == value.value
    ensures value.None? || value.value == "" ==> r == code
    ensures code != "" ==> r != ""
  {
    if value.Some? && value.value != "" then value.value else code
  }

  /** The component's state. */
  class AppState<V> {
    var code: string
    var executionSteps: seq<Step<V>>
    var error: Option<string>
    var isLoading: bool
    var config: Config

    /**
     * Between handler calls: the code is never empty and an error is never
     * shown beside steps. A run may be in flight: while it is awaited only
     * the Run button is disabled, and the editor and the inputs stay live.
     */
    ghost predicate Valid()
      reads this
    {
      code != "" && (error.Some? ==> executionSteps == [])
    }

    /** The initial state of the component. */
    constructor ()
      ensures Valid()
      ensures code == DefaultCode && executionSteps == [] && error == None && !isLoading
      ensures config == Config("", "")
    {
      code := DefaultCode;
      executionSteps := [];
      error := None;
      isLoading := false;
      config := Config("", "");
    }

    method HandleEditorChange(value: Option<string>)
      requires Valid()
      modifies this
      ensures Valid()
      ensures code == EditorChange(old(code), value)
      ensures executionSteps == old(executionSteps) && error == old(error)
      ensures isLoading == old(isLoading) && config == old(config)
    {
      if value.Some? && value.value != "" {
        code := value.value;
      }
    }

    method HandleConfigChange(field: Field, value: string)
      requires Valid()
      modifies this
      ensures Valid()
      ensures config == ConfigChange(old(config), field, value)
      ensures code == old(code) && executionSteps == old(executionSteps)
      ensures error == old(error) && isLoading == old(isLoading)
    {
      config := ConfigChange(config, field, value);
    }

    /**
     * `handleRun()`: clear the error and the steps and set the busy flag;
     * make the checks in order and trace only when all pass; publish the
     * steps, or show the message of whatever was thrown; always clear the
     * busy flag. `host` and `run` are what the interpreter does, `policy` how
     * it snapshots values. `traced` tells whether tracing was invoked.
     */
    method HandleRun(host: HostOutcome, run: ScriptRun<V>, policy: CopyPolicy<V>) returns (ghost traced: bool)
      requires Valid()
      modifies this
      ensures Valid() && !isLoading
      ensures code == old(code) && config == old(config)
      ensures traced <==> RunGate(code, config) == Proceed
      ensures RunGate(code, config).Reject? ==>
        error == Some(RunGate(code, config).message) && executionSteps == []
      ensures RunGate(code, config) == Proceed ==>
        match TraceOutcome(code, host, run, policy)
        case Success(steps) => error == None && executionSteps == steps
        case Failure(t) => error == Some(ErrorMessage(t)) && executionSteps == []
    {
      error := None;
      isLoading := true;
      executionSteps := [];
      traced := false;

      var thrown: Option<Thrown> := None;
      var allowed := ValidateCode(code);
      if !allowed {
        thrown := Some(ErrorValue(ForbiddenMessage));
      } else if code == DefaultCode {
        thrown := Some(ErrorValue(PleaseEnterMessage));
      } else if !Includes(code, "def") {
        thrown := Some(ErrorValue(NoDefinitionMessage));
      } else if config.functionName == "" {
        thrown := Some(ErrorValue(NameRequiredMessage));
      } else if config.parameterValue == "" {
        thrown := Some(ErrorValue(ParameterRequiredMessage));
      } else if !Includes(code, "def " + config.functionName) {
        thrown := Some(ErrorValue(NotFoundMessage(config.functionName)));
      } else {
        traced := true;
        var result := TraceCode(code, host, run, policy);
        match result
        case Success(steps) => executionSteps := steps;
        case Failure(t) => thrown := Some(t);
      }

      if thrown.Some? {
        error := Some(ErrorMessage(thrown.value));
      }
      isLoading := false;
    }
  }
}
