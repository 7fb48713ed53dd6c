/**
  grover.py: `params()`, which folds the command-line options into a
  configuration, and `search`, which sizes the registers, builds the
  circuit, runs it as a job and reads the answer out of the histogram.
*/
module Grover {
  import opened Results
  import opened Bits
  import opened Registers
  import opened Gates
  import opened Circuits
  import opened Jobs
  import opened Counts

  datatype Config = Config(
    n: int,
    oracle: int,
    providerName: string,
    backendName: string,
    token: Option<string>,
    shots: int,
    draw: bool,
    file: Option<string>)

  /** An option as getopt hands it over, its integer argument already converted. */
  datatype Opt =
    | Help                   // -h, --help
    | Number(n: int)         // -n, --number
    | Oracle(oracle: int)    // -o, --oracle
    | Provider(name: string) // -p, --provider
    | Backend(name: string)  // -b, --backend
    | Token(token: string)   // -t, --token
    | Shots(shots: int)      // -s, --shots
    | Draw(file: string)     // -d, --draw

  /** The ways `params()` ends in `exit()`. */
  datatype ParamsError = HelpRequested | OracleNotBelowN

  function Defaults(): Config {
    Config(4, 3, "Aer", "qasm_simulator", None, 10, true, None)
  }

  /** The effect of one option other than help on the configuration. */
  function Apply(c: Config, o: Opt): Config {
    match o
    case Help => c
    case Number(n) => c.(n := n)
    case Oracle(v) => c.(oracle := v)
    case Provider(name) => c.(providerName := name)
    case Backend(name) => c.(backendName := name)
    case Token(t) => c.(token := Some(t))
    case Shots(s) => c.(shots := s)
    case Draw(f) => c.(draw := true, file := Some(f))
  }

  /** The options applied first to last. */
  function ApplyAll(c: Config, opts: seq<Opt>): Config {
    if opts == [] then c else Apply(ApplyAll(c, opts[..|opts| - 1]), opts[|opts| - 1])
  }

  predicate HasHelp(opts: seq<Opt>) {
    exists i :: 0 <= i < |opts| && opts[i] == Help
  }

  /**
    The check after the options, shared by both scripts: the settled
    configuration `c`, whose size is `n`, passes unchanged when `oracle` is
    below `n` and is rejected otherwise.
  */
  function Validate<C>(c: C, n: int, oracle: int): (r: Result<C, ParamsError>)
    ensures r.Ok? <==> oracle < n
    ensures r.Ok? ==> r.value == c
    ensures r.Err? ==> r.error == OracleNotBelowN
  {
    if oracle >= n then Err(OracleNotBelowN) else Ok(c)
  }

  /** `params()`: the defaults when no option is given, otherwise the options folded over the defaults with drawing off. */
  method Params(opts: seq<Opt>) returns (r: Result<Config, ParamsError>)
    ensures opts == [] ==> r == Ok(Defaults())
    ensures HasHelp(opts) ==> r == Err(HelpRequested)
    ensures opts != [] && !HasHelp(opts) ==>
      var c := ApplyAll(Defaults().(draw := false), opts);
      r == Validate(c, c.n, c.oracle)
    ensures r.Ok? ==> r.value.oracle < r.value.n
  {
    var c := Defaults();
    if |opts| > 0 {
      c := c.(draw := false);
      var start := c;
      for i := 0 to |opts|
        invariant c == ApplyAll(start, opts[..i])
        invariant forall j :: 0 <= j < i ==> opts[j] != Help
      {
        assert opts[..i + 1][..i] == opts[..i];
        if opts[i] == Help {
          r := Err(HelpRequested);
          return;
        }
        c := Apply(c, opts[i]);
      }
      assert opts[..|opts|] == opts;
      r := Validate(c, c.n, c.oracle);
      return;
    }
    r := Ok(c);
  }

  /** Whatever the other options, drawing ends up on exactly when some `-d` was given. */
  lemma {:induction false} DrawOnlyWhenAsked(c: Config, opts: seq<Opt>)
    requires !c.draw
    ensures ApplyAll(c, opts).draw <==> exists i :: 0 <= i < |opts| && opts[i].Draw?
  {
    if opts != [] {
      var init := opts[..|opts| - 1];
      DrawOnlyWhenAsked(c, init);
      if exists i :: 0 <= i < |init| && init[i].Draw? {
        var i :| 0 <= i < |init| && init[i].Draw?;
        assert opts[i].Draw?;
      }
    }
  }

  /** The last `-n` wins; without one the starting N stands. */
  lemma {:induction false} LastSizeWins(c: Config, opts: seq<Opt>)
    ensures (forall i :: 0 <= i < |opts| ==> !opts[i].Number?) ==> ApplyAll(c, opts).n == c.n
    ensures forall i :: 0 <= i < |opts| && opts[i].Number? && (forall j :: i < j < |opts| ==> !opts[j].Number?) ==>
      ApplyAll(c, opts).n == opts[i].n
  {
    if opts != [] {
      var init := opts[..|opts| - 1];
      LastSizeWins(c, init);
      var last := opts[|opts| - 1];
      var before := ApplyAll(c, init);
      assert ApplyAll(c, opts) == Apply(before, last);
      if last.Number? {
        assert ApplyAll(c, opts).n == last.n;
      } else {
        assert ApplyAll(c, opts).n == before.n;
        forall i | 0 <= i < |init| && opts[i].Number? && (forall j :: i < j < |opts| ==> !opts[j].Number?)
          ensures ApplyAll(c, opts).n == opts[i].n
        {
          assert init[i] == opts[i];
          assert forall j :: i < j < |init| ==> init[j] == opts[j];
        }
        assert forall i :: 0 <= i < |init| ==> init[i] == opts[i];
      }
    }
  }

  /** The last `-o` wins; without one the starting oracle stands. */
  lemma {:induction false} LastOracleWins(c: Config, opts: seq<Opt>)
    ensures (forall i :: 0 <= i < |opts| ==> !opts[i].Oracle?) ==> ApplyAll(c, opts).oracle == c.oracle
    ensures forall i :: 0 <= i < |opts| && opts[i].Oracle? && (forall j :: i < j < |opts| ==> !opts[j].Oracle?) ==>
      ApplyAll(c, opts).oracle == opts[i].oracle
  {
    if opts != [] {
      var init := opts[..|opts| - 1];
      LastOracleWins(c, init);
      var last := opts[|opts| - 1];
      var before := ApplyAll(c, init);
      assert ApplyAll(c, opts) == Apply(before, last);
      if last.Oracle? {
        assert ApplyAll(c, opts).oracle == last.oracle;
      } else {
        assert ApplyAll(c, opts).oracle == before.oracle;
        forall i | 0 <= i < |init| && opts[i].Oracle? && (forall j :: i < j < |opts| ==> !opts[j].Oracle?)
          ensures ApplyAll(c, opts).oracle == opts[i].oracle
        {
          assert init[i] == opts[i];
          assert forall j :: i < j < |init| ==> init[j] == opts[j];
        }
        assert forall i :: 0 <= i < |init| ==> init[i] == opts[i];
      }
    }
  }

  /** Why `search` stops without an answer. */
  datatype SearchError =
    | MathDomainError          // math.log2(N) with N <= 0
    | JobFailed(message: string)  // first final status is ERROR
    | NoAnswer                 // int(state, 2) with no usable state

  /** What the backend does with the submitted circuit: the statuses it reports, its error message and its counts. */
  datatype Execution = Execution(statuses: seq<JobStatus>, errorMessage: string, counts: Histogram)

  /**
    How the search ends once poll `i` reported the first final status: the
    backend's message on ERROR; otherwise the decoded arg-max of the counts,
    or no answer when there is nothing to decode.
  */
  ghost predicate Outcome(run: Execution, i: int, r: Result<nat, SearchError>, state: string, best: nat)
    requires 0 <= i < |run.statuses|
  {
    if run.statuses[i] == Error then r == Err(JobFailed(run.errorMessage))
    else
      && state == Winner(run.counts) && best == MaxCount(run.counts)
      && r == (if ParseBinary(state).Some? then Ok(ParseBinary(state).value) else Err(NoAnswer))
  }

  /**
    `search`: sizes the registers, builds the circuit, submits it, waits for
    a final status and decodes the most frequent key. Besides the answer it
    returns what the search reports along the way: the qubit count, the
    circuit, and the winning key with its count.
  */
  method Search(n: int, oracle: int, iterations: nat, finals: set<JobStatus>, run: Execution)
    returns (r: Result<nat, SearchError>, qubits: nat, gates: seq<Gate>, state: string, best: nat)
    requires n >= 1 ==> 0 <= oracle < Pow2(ControlsCount(n))
    requires n >= 1 ==> EventuallyFinal(run.statuses, finals)
    ensures n <= 0 ==> r == Err(MathDomainError)
    ensures n >= 1 ==> qubits == QubitCount(n)
    ensures n >= 1 ==> gates == CircuitSpec(oracle, ControlsCount(n), iterations)
    ensures n >= 1 ==> exists i :: IsFirstFinal(run.statuses, finals, i) && Outcome(run, i, r, state, best)
  {
    state, best := "", 0;
    qubits, gates := 0, [];
    if n <= 0 {
      r := Err(MathDomainError);
      return;
    }
    var controlsCount := ControlsCount(n);
    qubits := QubitCount(n);
    var circuit := BuildCircuit(controlsCount, oracle, iterations);
    gates := circuit.ops;
    var job := new Job(run.statuses, run.errorMessage, run.counts);
    var result, log := WaitForResult(job, finals);
    assert IsFirstFinal(run.statuses, finals, job.polls - 1);
    if result.Err? {
      r := Err(JobFailed(result.error));
      return;
    }
    state, best := ArgMax(result.value);
    var num := ParseBinary(state);
    r := if num.Some? then Ok(num.value) else Err(NoAnswer);
  }

  /**
    For every N >= 2: when the job does not fail and the most frequent key is
    the one the marked pattern of the controls reads as, the search answers
    the oracle.
  */
  lemma SearchFindsMarkedItem(n: int, oracle: nat, run: Execution, i: int, r: Result<nat, SearchError>, state: string, best: nat)
    requires n >= 2 && oracle < n
    requires 0 <= i < |run.statuses| && run.statuses[i] != Error
    requires Winner(run.counts) == Key(OraclePattern(oracle, ControlsCount(n)))
    requires Outcome(run, i, r, state, best)
    ensures r == Ok(oracle)
  {
    var k := ControlsCount(n);
    MarkedKeyIsOracleString(oracle, k);
    FormatRoundTrip(oracle, k);
  }

  /** The concrete sizes for four items and oracle 3: two controls, and "11" as the oracle string. */
  lemma FourItemsSizes()
    ensures ControlsCount(4) == 2 && Pow2(2) == 4
    ensures Format(3, 2) == "11"
  {
    assert Binary(3) == Binary(1) + ['1'];
  }

  /**
    A job that is queued, runs and is done, with every shot measuring "11",
    answers 3.
  */
  lemma DoneRunAnswersThree(run: Execution, finals: set<JobStatus>, i: int, r: Result<nat, SearchError>, state: string, best: nat)
    requires finals == {Done, Cancelled, Error}
    requires run == Execution([Queued, Running, Done], "", [("11", 100)])
    requires IsFirstFinal(run.statuses, finals, i) && Outcome(run, i, r, state, best)
    ensures i == 2 && r == Ok(3)
  {
    assert run.statuses[0] !in finals && run.statuses[1] !in finals;
    assert i == 2;
    assert run.statuses[i] == Done;
    FourItemsSizes();
    ConcentratedAnswer(3, 2, 100);
    var counts := [(Format(3, 2), 100)];
    assert run.counts == counts;
    assert state == Winner(counts) && ParseBinary(state) == Some(3);
  }

  /**
    The end-to-end expectation: four items, oracle 3 (one iterate), a job
    that is queued, runs and is done, and every shot measuring "11".
  */
  method SearchFourItemsForThree() returns (r: Result<nat, SearchError>)
    ensures r == Ok(3)
  {
    FourItemsSizes();
    var n, oracle, iterations := 4, 3, 1;
    var finals := {Done, Cancelled, Error};
    var run := Execution([Queued, Running, Done], "", [("11", 100)]);
    assert run.statuses[2] in finals;
    var qubits, gates, state, best;
    r, qubits, gates, state, best := Search(n, oracle, iterations, finals, run);
    ghost var i :| IsFirstFinal(run.statuses, finals, i) && Outcome(run, i, r, state, best);
    DoneRunAnswersThree(run, finals, i, r, state, best);
  }
}
