/**
  The circuit as data: the gate sequence the search appends, over the
  control qubits `Control(0) .. Control(k - 1)`, one ancilla and one target.
  The multi-controlled Toffoli on all controls (with the ancilla as work
  space) is one opaque gate `Mct`.
*/
module Gates {
  import opened Bits

  datatype Qubit = Control(index: nat) | Ancilla | Target

  datatype Gate =
    | H(q: Qubit)
    | X(q: Qubit)
    | Mct                          // controls, target, ancilla
    | Measure(qubit: nat, clbit: nat)  // control qubit -> classical bit

  /** The control register in declaration order. */
  function Controls(k: nat): seq<Qubit> {
    seq(k, i requires 0 <= i < k => Control(i))
  }

  /** `circuit.h(qs)`: one H per qubit, in register order. */
  function Hs(qs: seq<Qubit>): seq<Gate> {
    seq(|qs|, i requires 0 <= i < |qs| => H(qs[i]))
  }

  /** `circuit.x(qs)`: one X per qubit, in register order. */
  function Xs(qs: seq<Qubit>): seq<Gate> {
    seq(|qs|, i requires 0 <= i < |qs| => X(qs[i]))
  }

  /**
    The first `j` X gates of the oracle's flip mask for a `k`-bit register:
    walking the controls from `k - 1` down to `k - j`, control `i` is flipped
    when bit `i` of `oracle` is 0.
  */
  function Flips(oracle: nat, k: nat, j: nat): seq<Gate>
    requires j <= k
  {
    if j == 0 then []
    else Flips(oracle, k, j - 1) + (if Bit(oracle, k - j) == 0 then [X(Control(k - j))] else [])
  }

  predicate IsControlFlip(g: Gate) {
    g.X? && g.q.Control?
  }

  function FlipMask(oracle: nat, k: nat): seq<Gate> {
    Flips(oracle, k, k)
  }

  /** The number of zero bits among bits `lo .. k - 1` of `oracle`. */
  function ZeroBitsFrom(oracle: nat, lo: nat, k: nat): nat
    decreases k - lo
  {
    if lo >= k then 0 else (if Bit(oracle, lo) == 0 then 1 else 0) + ZeroBitsFrom(oracle, lo + 1, k)
  }

  function ZeroBits(oracle: nat, k: nat): nat {
    ZeroBitsFrom(oracle, 0, k)
  }

  /** The phase oracle: flip mask, the multi-controlled Toffoli, the same flip mask again. */
  function OracleStage(oracle: nat, k: nat): seq<Gate> {
    FlipMask(oracle, k) + [Mct] + FlipMask(oracle, k)
  }

  /** Inversion about the mean: H, X, MCT, X, H over all controls. It has no oracle parameter. */
  function Diffuser(k: nat): seq<Gate> {
    Hs(Controls(k)) + Xs(Controls(k)) + [Mct] + Xs(Controls(k)) + Hs(Controls(k))
  }

  /** One Grover iterate. */
  function Iterate(oracle: nat, k: nat): seq<Gate> {
    OracleStage(oracle, k) + Diffuser(k)
  }

  /** H on every control, then X and H on the target (the |-> state). */
  function Prep(k: nat): seq<Gate> {
    Hs(Controls(k)) + [X(Target), H(Target)]
  }

  /** `circuit.measure(controls, classical)`: control `i` into classical bit `i`. */
  function Measurement(k: nat): seq<Gate> {
    seq(k, i requires 0 <= i < k => Measure(i, i))
  }

  function Repeat(g: seq<Gate>, n: nat): seq<Gate> {
    if n == 0 then [] else Repeat(g, n - 1) + g
  }

  /** The whole circuit for a `k`-bit control register and `iterations` iterates. */
  function CircuitSpec(oracle: nat, k: nat, iterations: nat): seq<Gate> {
    Prep(k) + Repeat(Iterate(oracle, k), iterations) + Measurement(k)
  }

  // ---------------------------------------------------------------------
  // Which gates the flip mask holds, and in which order

  lemma {:induction false} FlipsMembers(oracle: nat, k: nat, j: nat)
    requires j <= k
    ensures forall g :: g in Flips(oracle, k, j) <==>
      exists i :: k - j <= i < k && Bit(oracle, i) == 0 && g == X(Control(i))
  {
    if j > 0 {
      FlipsMembers(oracle, k, j - 1);
    }
  }

  lemma {:induction false} FlipsOrder(oracle: nat, k: nat, j: nat)
    requires j <= k
    ensures forall a :: 0 <= a < |Flips(oracle, k, j)| ==>
      IsControlFlip(Flips(oracle, k, j)[a]) && k - j <= Flips(oracle, k, j)[a].q.index < k
    ensures forall a, b :: 0 <= a < b < |Flips(oracle, k, j)| ==>
      && IsControlFlip(Flips(oracle, k, j)[a]) && IsControlFlip(Flips(oracle, k, j)[b])
      && Flips(oracle, k, j)[a].q.index > Flips(oracle, k, j)[b].q.index
  {
    if j > 0 {
      FlipsOrder(oracle, k, j - 1);
    }
  }

  lemma {:induction false} FlipsSize(oracle: nat, k: nat, j: nat)
    requires j <= k
    ensures |Flips(oracle, k, j)| == ZeroBitsFrom(oracle, k - j, k)
  {
    if j > 0 {
      FlipsSize(oracle, k, j - 1);
    }
  }

  /**
    The pre-MCT mask flips control `i` exactly when `i < k` and bit `i` of
    `oracle` is 0, emits only such X gates, one per zero bit, from the
    highest control down.
  */
  lemma FlipMaskSelectsZeroBits(oracle: nat, k: nat)
    ensures forall i: nat :: X(Control(i)) in FlipMask(oracle, k) <==> i < k && Bit(oracle, i) == 0
    ensures forall a :: 0 <= a < |FlipMask(oracle, k)| ==>
      IsControlFlip(FlipMask(oracle, k)[a]) && FlipMask(oracle, k)[a].q.index < k
    ensures forall a, b :: 0 <= a < b < |FlipMask(oracle, k)| ==>
      && IsControlFlip(FlipMask(oracle, k)[a]) && IsControlFlip(FlipMask(oracle, k)[b])
      && FlipMask(oracle, k)[a].q.index > FlipMask(oracle, k)[b].q.index
    ensures |FlipMask(oracle, k)| == ZeroBits(oracle, k)
  {
    FlipsMembers(oracle, k, k);
    FlipsOrder(oracle, k, k);
    FlipsSize(oracle, k, k);
    forall i: nat ensures X(Control(i)) in FlipMask(oracle, k) <==> i < k && Bit(oracle, i) == 0 {
      if i < k && Bit(oracle, i) == 0 {
        // names the term `X(Control(i))` so that `i` witnesses FlipsMembers's `exists`
        assert X(Control(i)) == X(Control(i));
      }
    }
  }

  /**
    The diffuser is H on controls 0 .. k-1 in order, X on each, one MCT at
    position 2k, X on each and H on each again.
  */
  lemma DiffuserShape(k: nat)
    ensures var r := Diffuser(k);
      && |r| == 4 * k + 1 && r[2 * k] == Mct
      && forall i :: 0 <= i < k ==>
        && r[i] == H(Control(i)) && r[k + i] == X(Control(i))
        && r[2 * k + 1 + i] == X(Control(i)) && r[3 * k + 1 + i] == H(Control(i))
  {
  }

  /** Every iterate ends with the same diffuser, whatever the oracle. */
  lemma DiffuserIndependentOfOracle(oracle1: nat, oracle2: nat, k: nat)
    ensures var a, b := Iterate(oracle1, k), Iterate(oracle2, k);
      && |a| >= 4 * k + 1 && |b| >= 4 * k + 1
      && a[|a| - (4 * k + 1)..] == b[|b| - (4 * k + 1)..] == Diffuser(k)
  {
    var a, b := Iterate(oracle1, k), Iterate(oracle2, k);
    DiffuserShape(k);
    assert a[|OracleStage(oracle1, k)|..] == Diffuser(k);
    assert b[|OracleStage(oracle2, k)|..] == Diffuser(k);
  }

  // ---------------------------------------------------------------------
  // Gate counts and shape of the circuit

  lemma {:induction false} RepeatLength(g: seq<Gate>, n: nat)
    ensures |Repeat(g, n)| == n * |g|
  {
    if n > 0 {
      RepeatLength(g, n - 1);
    }
  }

  /** One iterate has `2z + 4k + 2` gates, `z` being the number of zero bits of the oracle. */
  lemma IterateLength(oracle: nat, k: nat)
    ensures |Iterate(oracle, k)| == 2 * ZeroBits(oracle, k) + 4 * k + 2
  {
    FlipsSize(oracle, k, k);
  }

  /** The circuit has `2k + 2` gates besides its iterates, each of `2z + 4k + 2` gates. */
  lemma {:induction false} CircuitLength(oracle: nat, k: nat, iterations: nat)
    ensures |CircuitSpec(oracle, k, iterations)| == 2 * k + 2 + iterations * (2 * ZeroBits(oracle, k) + 4 * k + 2)
  {
    IterateLength(oracle, k);
    RepeatLength(Iterate(oracle, k), iterations);
  }

  /**
    The circuit starts with the preparation (H on each control in order, then
    X and H on the target) and ends with the measurement of control `i` into
    classical bit `i`; with no iteration, preparation is followed directly by
    measurement.
  */
  lemma {:induction false} CircuitShape(oracle: nat, k: nat, iterations: nat)
    ensures var c := CircuitSpec(oracle, k, iterations);
      && (forall i :: 0 <= i < k ==> c[i] == H(Control(i)))
      && c[k] == X(Target) && c[k + 1] == H(Target)
      && (forall i :: 0 <= i < k ==> c[|c| - k + i] == Measure(i, i))
    ensures iterations == 0 ==> CircuitSpec(oracle, k, iterations) == Prep(k) + Measurement(k)
  {
    var r := Repeat(Iterate(oracle, k), iterations);
    var c := CircuitSpec(oracle, k, iterations);
    assert c == (Prep(k) + r) + Measurement(k);
    forall i | 0 <= i < k ensures c[|c| - k + i] == Measure(i, i) {
      assert c[|c| - k + i] == Measurement(k)[i];
    }
    forall i | 0 <= i < k + 2 ensures c[i] == Prep(k)[i] {
    }
    if iterations == 0 {
      assert r == [];
    }
  }

  // ---------------------------------------------------------------------
  // The classical action of the flip mask on a basis state of the controls

  /** The pattern of control values that `oracle` marks: control `i` holds bit `i`. */
  function OraclePattern(oracle: nat, k: nat): seq<bool> {
    seq(k, i requires 0 <= i < k => Bit(oracle, i) == 1)
  }

  predicate AllOnes(p: seq<bool>) {
    forall i :: 0 <= i < |p| ==> p[i]
  }

  /** An X gate on control `i` negates `p[i]`; every other gate leaves the controls' basis values alone. */
  function Toggle(g: Gate, p: seq<bool>): (r: seq<bool>)
    ensures |r| == |p|
  {
    if g.X? && g.q.Control? && g.q.index < |p| then p[g.q.index := !p[g.q.index]] else p
  }

  /** The basis value of the controls after the gates, applied first to last. */
  function ApplyX(gates: seq<Gate>, p: seq<bool>): (r: seq<bool>)
    ensures |r| == |p|
  {
    if gates == [] then p else Toggle(gates[|gates| - 1], ApplyX(gates[..|gates| - 1], p))
  }

  lemma {:induction false} ApplyXConcat(a: seq<Gate>, b: seq<Gate>, p: seq<bool>)
    ensures ApplyX(a + b, p) == ApplyX(b, ApplyX(a, p))
  {
    if b == [] {
      assert a + b == a;
    } else {
      assert (a + b)[..|a + b| - 1] == a + b[..|b| - 1];
      ApplyXConcat(a, b[..|b| - 1], p);
    }
  }

  lemma ApplyXSnoc(gates: seq<Gate>, g: Gate, p: seq<bool>)
    ensures ApplyX(gates + [g], p) == Toggle(g, ApplyX(gates, p))
  {
    assert (gates + [g])[..|gates|] == gates;
  }

  lemma {:induction false} FlipsEffect(oracle: nat, k: nat, j: nat, p: seq<bool>)
    requires j <= k && |p| == k
    ensures forall i :: 0 <= i < k ==>
      ApplyX(Flips(oracle, k, j), p)[i] == (if k - j <= i && Bit(oracle, i) == 0 then !p[i] else p[i])
  {
    if j > 0 {
      FlipsEffect(oracle, k, j - 1, p);
      var m := k - j;
      var before := Flips(oracle, k, j - 1);
      var after := ApplyX(Flips(oracle, k, j), p);
      if Bit(oracle, m) == 0 {
        assert Flips(oracle, k, j) == before + [X(Control(m))];
        ApplyXSnoc(before, X(Control(m)), p);
        assert after == ApplyX(before, p)[m := !ApplyX(before, p)[m]];
      } else {
        assert Flips(oracle, k, j) == before + [];
        assert before + [] == before;
      }
      forall i | 0 <= i < k
        ensures after[i] == (if m <= i && Bit(oracle, i) == 0 then !p[i] else p[i])
      {
        if i != m {
          assert after[i] == ApplyX(before, p)[i];
        }
      }
    }
  }

  /** The flip mask maps a basis value to one where control `i` is 1 exactly when it agreed with bit `i` of the oracle. */
  lemma FlipMaskEffect(oracle: nat, k: nat, p: seq<bool>)
    requires |p| == k
    ensures forall i :: 0 <= i < k ==> ApplyX(FlipMask(oracle, k), p)[i] == (p[i] == (Bit(oracle, i) == 1))
  {
    FlipsEffect(oracle, k, k, p);
  }

  /** The flip mask is an involution on the controls' basis values. */
  lemma FlipMaskInvolution(oracle: nat, k: nat, p: seq<bool>)
    requires |p| == k
    ensures ApplyX(FlipMask(oracle, k), ApplyX(FlipMask(oracle, k), p)) == p
  {
    var m := FlipMask(oracle, k);
    FlipMaskEffect(oracle, k, p);
    FlipMaskEffect(oracle, k, ApplyX(m, p));
  }

  /**
    The oracle stage leaves the controls as it found them (the undo flips
    after the MCT cancel the ones before it), and the MCT inside it sees all
    ones exactly on the oracle's own pattern.
  */
  lemma OracleMarksOnlyItsPattern(oracle: nat, k: nat, p: seq<bool>)
    requires |p| == k
    ensures ApplyX(OracleStage(oracle, k), p) == p
    ensures AllOnes(ApplyX(FlipMask(oracle, k), p)) <==> p == OraclePattern(oracle, k)
  {
    var m := FlipMask(oracle, k);
    ApplyXConcat(m + [Mct], m, p);
    ApplyXConcat(m, [Mct], p);
    assert [Mct][..0] == [];
    FlipMaskInvolution(oracle, k, p);
    FlipMaskEffect(oracle, k, p);
    if AllOnes(ApplyX(m, p)) {
      forall i | 0 <= i < k ensures p[i] == OraclePattern(oracle, k)[i] {
        assert ApplyX(m, p)[i];
      }
    }
  }

  /**
    The classical key Qiskit reports for a basis value of the controls:
    classical bit `i` holds control `i` and the key writes bit 0 rightmost.
  */
  function Key(p: seq<bool>): (s: string)
    ensures |s| == |p|
  {
    seq(|p|, j requires 0 <= j < |p| => if p[|p| - 1 - j] then '1' else '0')
  }

  /** The key of the marked pattern is the oracle's own `k`-bit string. */
  lemma MarkedKeyIsOracleString(oracle: nat, k: nat)
    requires 1 <= k && oracle < Pow2(k)
    ensures Key(OraclePattern(oracle, k)) == Format(oracle, k)
  {
    FormatLength(oracle, k);
    var p := OraclePattern(oracle, k);
    var key, f := Key(p), Format(oracle, k);
    forall j | 0 <= j < k ensures key[j] == f[j] {
      FormatAt(oracle, k, j);
      var b := Bit(oracle, k - 1 - j);
      assert p[k - 1 - j] == (b == 1);
      assert key[j] == if p[k - 1 - j] then '1' else '0';
    }
    assert key == f;
  }
}
