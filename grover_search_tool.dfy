/**
  grover-search-tool.py: the same search as a module-level script. Its
  options differ from grover.py's: there is no token, and `-d` takes no
  argument. The script then runs the steps of `search` on the settled
  values.
*/
module GroverSearchTool {
  import opened Results
  import opened Bits
  import opened Registers
  import opened Gates
  import opened Jobs
  import opened Counts
  import Grover

  datatype ToolConfig = ToolConfig(
    n: int,
    oracle: int,
    providerName: string,
    backendName: string,
    shots: int,
    draw: bool)

  datatype ToolOpt =
    | Help                   // -h, --help
    | Number(n: int)         // -n, --number
    | Oracle(oracle: int)    // -o, --oracle
    | Provider(name: string) // -p, --provider
    | Backend(name: string)  // -b, --backend
    | Shots(shots: int)      // -s, --shots
    | Draw                   // -d, --draw

  datatype ToolError = BadOptions(paramsError: Grover.ParamsError) | SearchFailed(searchError: Grover.SearchError)

  function ToolDefaults(): ToolConfig {
    ToolConfig(4, 3, "Aer", "qasm_simulator", 10, true)
  }

  function Apply(c: ToolConfig, o: ToolOpt): ToolConfig {
    match o
    case Help => c
    case Number(n) => c.(n := n)
    case Oracle(v) => c.(oracle := v)
    case Provider(name) => c.(providerName := name)
    case Backend(name) => c.(backendName := name)
    case Shots(s) => c.(shots := s)
    case Draw => c.(draw := true)
  }

  function ApplyAll(c: ToolConfig, opts: seq<ToolOpt>): ToolConfig {
    if opts == [] then c else Apply(ApplyAll(c, opts[..|opts| - 1]), opts[|opts| - 1])
  }

  predicate HasHelp(opts: seq<ToolOpt>) {
    exists i :: 0 <= i < |opts| && opts[i] == Help
  }

  /**
    The settled globals: the defaults when no option is given; otherwise help
    exits, and the options folded over the defaults with drawing off must
    leave the oracle below N.
  */
  function Settings(opts: seq<ToolOpt>): Result<ToolConfig, Grover.ParamsError> {
    if opts == [] then Ok(ToolDefaults())
    else if HasHelp(opts) then Err(Grover.HelpRequested)
    else
      var c := ApplyAll(ToolDefaults().(draw := false), opts);
      Grover.Validate(c, c.n, c.oracle)
  }

  /** The option loop and the check after it, reassigning the script's globals. */
  method ParseOptions(opts: seq<ToolOpt>) returns (r: Result<ToolConfig, Grover.ParamsError>)
    ensures r == Settings(opts)
    ensures r.Ok? ==> r.value.oracle < r.value.n
    ensures opts != [] && r.Ok? ==> (r.value.draw <==> exists i :: 0 <= i < |opts| && opts[i] == Draw)
  {
    var c := ToolDefaults();
    if |opts| > 0 {
      c := c.(draw := false);
      var start := c;
      for i := 0 to |opts|
        invariant c == ApplyAll(start, opts[..i])
        invariant forall j :: 0 <= j < i ==> opts[j] != Help
      {
        assert opts[..i + 1][..i] == opts[..i];
        if opts[i] == Help {
          r := Err(Grover.HelpRequested);
          return;
        }
        c := Apply(c, opts[i]);
      }
      assert opts[..|opts|] == opts;
      DrawOnlyWhenAsked(start, opts);
      r := Grover.Validate(c, c.n, c.oracle);
      return;
    }
    r := Ok(c);
  }

  /** Drawing, off once any option is given, comes back on exactly when `-d` is among the options. */
  lemma {:induction false} DrawOnlyWhenAsked(c: ToolConfig, opts: seq<ToolOpt>)
    requires !c.draw
    ensures ApplyAll(c, opts).draw <==> exists i :: 0 <= i < |opts| && opts[i] == Draw
  {
    if opts != [] {
      var init := opts[..|opts| - 1];
      DrawOnlyWhenAsked(c, init);
      if exists i :: 0 <= i < |init| && init[i] == Draw {
        var i :| 0 <= i < |init| && init[i] == Draw;
        assert opts[i] == Draw;
      }
    }
  }

  function Lift(a: Result<nat, Grover.SearchError>): Result<nat, ToolError> {
    match a
    case Ok(v) => Ok(v)
    case Err(e) => Err(SearchFailed(e))
  }

  /**
    The whole script: settle the options, then size, build, run and decode
    as `search` does. Accepted options with `N <= 0` (`-n 0 -o -1`, say)
    fail in `log2`; with `N >= 1` the accepted oracle fits the control
    register.
  */
  method Run(opts: seq<ToolOpt>, iterations: nat, finals: set<JobStatus>, run: Grover.Execution)
    returns (r: Result<nat, ToolError>, qubits: nat, gates: seq<Gate>, state: string, best: nat)
    requires Settings(opts).Ok? && Settings(opts).value.n >= 1 ==> Settings(opts).value.oracle >= 0
    requires Settings(opts).Ok? && Settings(opts).value.n >= 1 ==> EventuallyFinal(run.statuses, finals)
    ensures Settings(opts).Err? ==> r == Err(BadOptions(Settings(opts).error))
    ensures Settings(opts).Ok? && Settings(opts).value.n <= 0 ==> r == Err(SearchFailed(Grover.MathDomainError))
    ensures Settings(opts).Ok? && Settings(opts).value.n >= 1 ==>
      var c := Settings(opts).value;
      && 0 <= c.oracle < Pow2(ControlsCount(c.n))
      && qubits == QubitCount(c.n)
      && gates == CircuitSpec(c.oracle, ControlsCount(c.n), iterations)
      && exists i, a :: IsFirstFinal(run.statuses, finals, i) && Grover.Outcome(run, i, a, state, best) && r == Lift(a)
  {
    state, best, qubits, gates := "", 0, 0, [];
    var settings := ParseOptions(opts);
    if settings.Err? {
      r := Err(BadOptions(settings.error));
      return;
    }
    var c := settings.value;
    var a;
    a, qubits, gates, state, best := Grover.Search(c.n, c.oracle, iterations, finals, run);
    r := Lift(a);
  }
}
