# Grover's search tool: a verified model of its classical logic

The repository runs Grover's quantum search through Qiskit. There are two
near-identical programs: `grover.py`, whose `params()` and `search()` are
functions, and `grover-search-tool.py`, which does the same work as a
module-level script. Everything around the quantum circuit is classical and
deterministic:
- choosing the register sizes;
- emitting the gate sequence, meaning state preparation, the Grover iterate
  (oracle flip mask, multi-controlled Toffoli, diffuser) and measurement;
- waiting for the job;
- picking the most frequent measurement and reading it as a binary number.

This project models that logic in Dafny and proves what it promises.

Modules:

- `Results`: `Option` and `Result`. They stand in for Python's exceptions and `exit()`.
- `Bits`: `format(n, "0{k}b")` and `int(s, 2)`. Covers their lengths, their digit order (most
  significant bit first) and their round trip.
- `Registers`: `ceil(log2(N))` as the least `k` with `2^k >= N`, and the qubit count `k + 2`.
- `Gates`: the circuit as a sequence of gates over `Control(i)`, `Ancilla` and `Target`. `Mct` is one
  opaque gate. This module specifies the flip mask, the iterate, the diffuser, the preparation and the
  measurement. It also gives the classical action of X gates on a basis value of the controls, and
  proves the mask lemmas: which controls the mask selects, that it is an involution, and that it marks
  only the oracle's pattern.
- `Circuits`: a `QuantumCircuit` class whose methods append gates, as Qiskit's circuit does. `grover`
  is modelled with its two `zip(binary, reversed(controls))` loops, and the builder with its
  iteration loop. Each is proved to emit exactly the specified sequence.
- `Jobs`: a `Job` class whose `status()`, `error_message()` and `result()` calls are observed. Also the
  wait loop: it stops at the first final status, logs `(i) status` from 0, and on ERROR returns the
  backend's message. Otherwise it fetches the counts exactly once.
- `Counts`: the arg-max loop with a strict `>`, so the first maximum wins. It is proved against an
  independent specification (`MaxCount`, `FirstWithCount`, `Winner`). Also the decoding of the winning key.
- `Grover`: `params()` as a fold over already-parsed options, and `search()` end to end.
- `GroverSearchTool`: the script's own option fold (no token; `-d` takes no argument) and the whole
  script.

The two programs share their sizing, circuit, polling and arg-max logic. Each piece is modelled once,
and the table below cites `grover.py`. The same lines in `grover-search-tool.py` are:
- sizing: 70-80
- preparation: 90-94
- `grover`: 97-116, with the flip loops at 101-103 and 107-109 and the diffuser at 111-116
- iterations: 119-120
- measurement: 123
- polling: 145-157
- arg-max and decoding: 164-171

`GroverSearchTool.Run` runs them through `Grover.Search`.

Assumptions about the collaborators:
- Qiskit's `h` and `x` on a register act on its qubits in register order.
- `measure(controls, classical)` maps control `i` to classical bit `i`.
- A counts key writes classical bit 0 rightmost (`Gates.Key`).

## Model

| member | source | states |
|---|---|---|
| `Bits.ParseBinary` | grover.py:195 | `int(s, 2)` succeeds exactly on a non-empty string of 0s and 1s, and its value is below `2^len(s)`; it fails on the `""` an empty or all-zero histogram leaves |
| `Bits.FormatLength` | grover.py:111 | for `k >= 1` and `0 <= n < 2^k`, `format(n, "0{k}b")` has exactly `k` characters |
| `Bits.FormatAt` | grover.py:111 | character `j` of the `k`-bit string is bit `k-1-j` of `n` (most significant bit first) |
| `Bits.FormatRoundTrip` | grover.py:195 | `int(format(n, "0{w}b"), 2) == n` for every `n >= 0` and every width `w` |
| `Registers.ControlsCount` | grover.py:82 | `2^k >= N`, and `k == 0` or `2^(k-1) < N`, for every `N >= 1` |
| `Registers.ControlsCountIsLeast` | grover.py:82 | no `j` with `2^j >= N` is below `ControlsCount(N)`: it is the least such `k` |
| `Registers.ControlsCountOfPowerOfTwo` | grover.py:82 | for `N = 2^k` the width is exactly `k` |
| `Registers.QubitCount` | grover.py:92 | the reported qubit count `q` is the least control width plus 2: `2^(q-2) >= N`, and `q = 2` or `2^(q-3) < N` |
| `Gates.FlipMaskSelectsZeroBits` | grover.py:111-115 | the mask holds `X(Control(i))` iff `i < k` and bit `i` of `oracle` is 0; it holds only X gates on controls below `k`, one per zero bit, in strictly decreasing control order |
| `Gates.DiffuserShape` | grover.py:123-128 | the diffuser has `4k+1` gates: H on controls 0..k-1 in order, X on each, one MCT at position `2k`, X on each, H on each |
| `Gates.DiffuserIndependentOfOracle` | grover.py:117-128 | the iterates for any two oracles end in the same `4k+1` gates, the diffuser |
| `Gates.IterateLength` | grover.py:109-128 | one iterate has `2z + 4k + 2` gates, `z` the number of zero bits of `oracle` among bits `0..k-1` |
| `Gates.CircuitLength` | grover.py:102-135 | the circuit has `2k + 2 + iterations * (2z + 4k + 2)` gates |
| `Gates.CircuitShape` | grover.py:102-135 | the circuit opens with H on each control in order, then X and H on the target, and closes with `Measure(i, i)` for each control; with zero iterations it is preparation followed directly by measurement |
| `Gates.FlipMaskEffect` | grover.py:113-115 | after the mask, control `i` is 1 exactly when it agreed with bit `i` of the oracle |
| `Gates.FlipMaskInvolution` | grover.py:113-121 | applying the mask twice restores every basis value of the controls |
| `Gates.OracleMarksOnlyItsPattern` | grover.py:113-121 | the oracle stage (mask, MCT, mask) leaves the controls unchanged, and the MCT sees all ones exactly on the oracle's bit pattern |
| `Gates.MarkedKeyIsOracleString` | grover.py:111-135 | the measured key of the marked pattern is the oracle's `k`-bit string |
| `Circuits.QuantumCircuit.constructor` | grover.py:97 | a new circuit over `controlsCount` controls holds no gates |
| `Circuits.QuantumCircuit.H` | grover.py:102 | `h` appends one H per given qubit, in order, and nothing else |
| `Circuits.QuantumCircuit.X` | grover.py:105 | `x` appends one X per given qubit, in order, and nothing else |
| `Circuits.QuantumCircuit.Mct` | grover.py:117 | `mct` appends the one opaque multi-controlled Toffoli |
| `Circuits.QuantumCircuit.MeasureControls` | grover.py:135 | `measure` appends `Measure(i, i)` for each control |
| `Circuits.FlipZeroBits` | grover.py:111-115 | the `zip(binary, reversed(controls))` loop appends exactly the flip mask (for `k = 0`, where the string is `"0"`, nothing) |
| `Circuits.AppendGrover` | grover.py:109-128 | `grover` appends exactly one iterate: mask, MCT, the same mask, diffuser |
| `Circuits.BuildCircuit` | grover.py:97-135 | the built circuit is exactly preparation, `iterations` iterates, measurement |
| `Jobs.Job.constructor` | grover.py:166 | a submitted job has been polled and fetched zero times |
| `Jobs.Job.Status` | grover.py:172 | `status()` returns the next status in the backend's sequence and counts one poll |
| `Jobs.Job.ErrorMessage` | grover.py:178 | `error_message()` returns the backend's message |
| `Jobs.Job.Result` | grover.py:184 | `result()` returns the backend's counts and counts one fetch |
| `Jobs.WaitForResult` | grover.py:169-184 | stops after poll `i`, the first final status, having polled exactly `i + 1` times and logged `(0, s0) .. (i, si)`; on ERROR returns the backend's message and never fetches; otherwise fetches the counts exactly once |
| `Counts.MaxCount` | grover.py:188-193 | the greatest count: it bounds every count and, when positive, some entry has it; 0 for an empty histogram |
| `Counts.FirstWithCount` | grover.py:190-193 | the first position holding a given count: it holds it and no earlier one does |
| `Counts.WinnerIsFirstGreatest` | grover.py:188-193 | the winning entry counts strictly more than every earlier entry and at least as much as every entry; the greatest count is 0 iff all counts are 0 (or there are none), and then the key is `""` |
| `Counts.ArgMax` | grover.py:188-193 | the loop with strict `>` from `max = 0`, `state = ""` ends with the greatest count and the key of its first occurrence (`Winner`), which a given histogram in a given order determines |
| `Counts.ConcentratedAnswer` | grover.py:188-195 | if every shot measured the oracle's `k`-bit string, the greatest count is the shot count and the answer is the oracle |
| `Grover.Validate` | grover.py:70-73 | the check both scripts run after their options: the configuration passes unchanged iff `oracle < N`, and is otherwise rejected with "Oracle is equal or greater than N" |
| `Grover.Params` | grover.py:14-76 | no options: the defaults (N=4, oracle=3, Aer, qasm_simulator, 10 shots, draw on); `-h` anywhere: exit; otherwise the options folded first to last over the defaults with draw off, rejected iff `oracle >= N`; an accepted configuration has `oracle < N` |
| `Grover.DrawOnlyWhenAsked` | grover.py:47-68 | after the fold, which starts with draw off, draw is on iff some `-d` was given |
| `Grover.LastSizeWins` | grover.py:50-55 | N takes the argument of the last `-n`, and keeps the starting value when there is none |
| `Grover.LastOracleWins` | grover.py:50-57 | the oracle takes the argument of the last `-o`, and keeps the starting value when there is none |
| `Grover.Search` | grover.py:78-197 | `N <= 0` fails in `log2`; otherwise `QubitCount(N)` qubits, exactly the specified circuit, and at the first final status either the backend's ERROR message or the decoded arg-max of the counts (no answer when it cannot be decoded) |
| `Grover.SearchFindsMarkedItem` | grover.py:186-197 | for every `N >= 2` and `oracle < N`: when the job does not fail and the most frequent key reads as the marked pattern of the controls, the search answers `oracle` |
| `Grover.DoneRunAnswersThree` | grover.py:170-196 | a run that is queued, runs and ends DONE with counts `{"11": 100}` stops at its third status and decodes to 3 |
| `Grover.SearchFourItemsForThree` | test_grover.py:3-6 | N=4, oracle 3, one iteration, and a job that ends DONE with counts `{"11": 100}` give the answer 3 |
| `GroverSearchTool.ParseOptions` | grover-search-tool.py:14-66 | the script's settled globals: defaults without options, exit on `-h`, rejection iff `oracle >= N` after options; with options, draw is on iff `-d` was given |
| `GroverSearchTool.DrawOnlyWhenAsked` | grover-search-tool.py:43-61 | after the fold, which starts with draw off, draw is on iff `-d` is among the options |
| `GroverSearchTool.Run` | grover-search-tool.py:68-171 | rejected options stop the script with their error; accepted options with `N <= 0` (such as `-n 0 -o -1`) fail in `log2`; otherwise the oracle fits the register, and the script builds the specified circuit on `QubitCount(N)` qubits and ends as `search` does |

## Left out

- Qiskit itself is out: circuit objects, simulation, and the ancilla-based `mode='advanced'` decomposition of `mct`. `Mct` is one opaque gate. The X-gate action on basis values (`Gates.ApplyX`) is the classical fact the oracle lemmas need.
- `iterations = int(math.pi / 4 * math.log2(N))` uses floating point. The iteration count is a parameter.
- Registers.ControlsCount: the exact integer `ceil(log2 N)`. The source computes it in floating point, and for very large `N` just above a power of two (beyond 2^53) `log2` can round down to an integer.
- Provider and backend selection, IBMQ account and token loading, and the "Token is not provided!" exit are left out. So is the unbound `backend` for an unknown provider name. All of this is network and credential plumbing; the job's behaviour is the `Execution` parameter.
- `time.sleep`, every `print`, and drawing the circuit to the console or a file are I/O. The poll counter lines appear as `WaitForResult`'s log.
- getopt parsing, its errors and `int(arg)` conversion are foreign. Options arrive already parsed. `if len(sys.argv)` is always true and is not modelled.
- The set of final job statuses comes from Qiskit and is a parameter.
- Grover.Search: requires `0 <= oracle < 2^k`. Called directly with a negative or oversized oracle, `format` yields a `-` or a longer string. That truncation is not modelled.
- GroverSearchTool.Run: requires the settled oracle to be non-negative when the settled `N` is at least 1, for the same reason. With `N <= 0` the script fails in `log2` before `format` is reached, and the model states that failure.
- Jobs.WaitForResult: requires the backend eventually to report a final status. Otherwise the source polls forever.
- Grover.Search: also requires that final status, for the same reason.
- GroverSearchTool.Run: also requires that final status, for the same reason.
- Bits.ParseBinary: models `int(s, 2)` on strings of 0s and 1s. Python also accepts surrounding whitespace, a sign, underscores between digits and a `0b` prefix, none of which a counts key contains.
- Histogram keys are not required to be distinct, although a Python dict's keys are.
- The `__main__` block of `grover.py` (`params()` then `search(...)`) is not modelled on its own. `GroverSearchTool.Run` models the same composition for the script.
- `test_grover.py` is not modelled as tests. Its first case is stated as `Grover.SearchFourItemsForThree`. As written, its calls pass seven arguments to a `search` that takes eight.
