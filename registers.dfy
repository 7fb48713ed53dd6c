/**
  Register sizing: `controlsCount = ceil(log2(N))` control qubits, one
  ancilla and one target, so `controlsCount + 2` qubits in all.
*/
module Registers {
  import opened Bits

  /**
    `ceil(log2(n))` on integers: the least `k` with `2^k >= n`, so that the
    control register can index all `n` items.
  */
  function ControlsCount(n: nat): (k: nat)
    requires n >= 1
    ensures Pow2(k) >= n
    ensures k == 0 || Pow2(k - 1) < n
  {
    if n == 1 then 0 else 1 + ControlsCount((n + 1) / 2)
  }

  /**
    The qubits the circuit uses: the controls, one ancilla and one target;
    `q - 2` is the least control width that indexes `n` items.
  */
  function QubitCount(n: nat): (q: nat)
    requires n >= 1
    ensures q >= 2 && Pow2(q - 2) >= n
    ensures q == 2 || Pow2(q - 3) < n
  {
    ControlsCount(n) + 2
  }

  /** No narrower register can index `n` items. */
  lemma {:induction false} ControlsCountIsLeast(n: nat, j: nat)
    requires n >= 1 && Pow2(j) >= n
    ensures ControlsCount(n) <= j
  {
    var k := ControlsCount(n);
    if j < k {
      Pow2Monotone(j, k - 1);
    }
  }

  /** For a power of two the width is exact: `ceil(log2(2^k)) == k`. */
  lemma {:induction false} ControlsCountOfPowerOfTwo(k: nat)
    ensures ControlsCount(Pow2(k)) == k
  {
    ControlsCountIsLeast(Pow2(k), k);
    var c := ControlsCount(Pow2(k));
    if c < k {
      Pow2Monotone(c, k - 1);
    }
  }
}
