/**
  Building the circuit the way the search does: a `QuantumCircuit` object
  to which gates are appended one call after another, the Grover iterate
  `grover` appended once per iteration, and the measurement last.
*/
module Circuits {
  import opened Bits
  import opened Gates

  /** A circuit over `controlsCount` controls, an ancilla, a target and `controlsCount` classical bits. */
  class QuantumCircuit {
    const controlsCount: nat
    var ops: seq<Gate>

    constructor (controlsCount: nat)
      ensures this.controlsCount == controlsCount && ops == []
    {
      this.controlsCount := controlsCount;
      ops := [];
    }

    /** `circuit.h(qs)` */
    method H(qs: seq<Qubit>)
      modifies this
      ensures ops == old(ops) + Hs(qs)
    {
      ops := ops + Hs(qs);
    }

    /** `circuit.x(qs)` */
    method X(qs: seq<Qubit>)
      modifies this
      ensures ops == old(ops) + Xs(qs)
    {
      ops := ops + Xs(qs);
    }

    /** `circuit.mct(controls, target[0], ancilla, mode='advanced')` */
    method Mct()
      modifies this
      ensures ops == old(ops) + [Gate.Mct]
    {
      ops := ops + [Gate.Mct];
    }

    /** `circuit.measure(controls, classical)` */
    method MeasureControls()
      modifies this
      ensures ops == old(ops) + Measurement(controlsCount)
    {
      ops := ops + Measurement(controlsCount);
    }
  }

  /**
    `for c, qubit in zip(binary, reversed(controls)): if c == '0': circuit.x(qubit)`
    with `binary = format(oracle, "0{k}b")`: appends exactly the flip mask.
  */
  method FlipZeroBits(circuit: QuantumCircuit, oracle: nat)
    requires oracle < Pow2(circuit.controlsCount)
    modifies circuit
    ensures circuit.ops == old(circuit.ops) + FlipMask(oracle, circuit.controlsCount)
  {
    var k := circuit.controlsCount;
    var binary := Format(oracle, k);
    var controls := Controls(k);
    // zip stops at the shorter operand: with k == 0 the string is still "0"
    var pairs := if |binary| < k then |binary| else k;
    if k > 0 {
      FormatLength(oracle, k);
    }
    var j := 0;
    while j < pairs
      invariant 0 <= j <= pairs <= k
      invariant circuit.ops == old(circuit.ops) + Flips(oracle, k, j)
    {
      FormatAt(oracle, k, j);
      if binary[j] == '0' {
        circuit.X([controls[k - 1 - j]]);
      }
      j := j + 1;
    }
  }

  /** The iterate `grover(circuit, controls, target)`: oracle stage, then diffuser. */
  method AppendGrover(circuit: QuantumCircuit, oracle: nat)
    requires oracle < Pow2(circuit.controlsCount)
    modifies circuit
    ensures circuit.ops == old(circuit.ops) + Iterate(oracle, circuit.controlsCount)
  {
    var k := circuit.controlsCount;
    var controls := Controls(k);
    // Oracle
    FlipZeroBits(circuit, oracle);
    circuit.Mct();
    FlipZeroBits(circuit, oracle);
    assert circuit.ops == old(circuit.ops) + OracleStage(oracle, k);
    ghost var marked := circuit.ops;
    // Diffuser
    circuit.H(controls);
    circuit.X(controls);
    circuit.Mct();
    circuit.X(controls);
    circuit.H(controls);
    assert circuit.ops == marked + Diffuser(k);
  }

  /**
    State preparation, `iterations` iterates and the measurement, appended to
    a fresh circuit over `controlsCount` controls.
  */
  method BuildCircuit(controlsCount: nat, oracle: nat, iterations: nat) returns (circuit: QuantumCircuit)
    requires oracle < Pow2(controlsCount)
    ensures fresh(circuit)
    ensures circuit.controlsCount == controlsCount
    ensures circuit.ops == CircuitSpec(oracle, controlsCount, iterations)
  {
    circuit := new QuantumCircuit(controlsCount);
    var controls := Controls(controlsCount);
    circuit.H(controls);
    circuit.X([Target]);
    circuit.H([Target]);
    for i := 0 to iterations
      invariant circuit.ops == Prep(controlsCount) + Repeat(Iterate(oracle, controlsCount), i)
    {
      AppendGrover(circuit, oracle);
    }
    circuit.MeasureControls();
  }
}
