/**
  Reading the answer out of the histogram: the key with the strictly
  greatest count, the first such key in iteration order winning ties, and
  its value as a big-endian binary number.
*/
module Counts {
  import opened Results
  import opened Bits
  import opened Jobs

  predicate AllZero(h: Histogram) {
    forall j :: 0 <= j < |h| ==> h[j].1 == 0
  }

  /** The greatest count in the histogram, 0 when it is empty. */
  function MaxCount(h: Histogram): (m: nat)
    ensures forall j :: 0 <= j < |h| ==> h[j].1 <= m
    ensures m == 0 || exists j :: 0 <= j < |h| && h[j].1 == m
  {
    if h == [] then 0
    else
      var rest := MaxCount(h[..|h| - 1]);
      if h[|h| - 1].1 > rest then h[|h| - 1].1 else rest
  }

  /** The position of the first entry with count `c`. */
  function FirstWithCount(h: Histogram, c: nat): (i: nat)
    requires exists j :: 0 <= j < |h| && h[j].1 == c
    ensures i < |h| && h[i].1 == c
    ensures forall j :: 0 <= j < i ==> h[j].1 != c
  {
    if h[0].1 == c then 0
    else
      assert exists j :: 0 <= j < |h[1..]| && h[1..][j].1 == c by {
        var j :| 0 <= j < |h| && h[j].1 == c;
        assert h[1..][j - 1].1 == c;
      }
      1 + FirstWithCount(h[1..], c)
  }

  /** The key the search reports: that of the first greatest count, or "" when every count is 0. */
  function Winner(h: Histogram): string {
    var m := MaxCount(h);
    if m == 0 then "" else h[FirstWithCount(h, m)].0
  }

  /**
    The winner is the first entry whose count is strictly greater than every
    earlier count and at least every later one; with no positive count there
    is none.
  */
  lemma WinnerIsFirstGreatest(h: Histogram)
    ensures MaxCount(h) == 0 <==> AllZero(h)
    ensures MaxCount(h) == 0 ==> Winner(h) == ""
    ensures MaxCount(h) > 0 ==>
      var i := FirstWithCount(h, MaxCount(h));
      && h[i] == (Winner(h), MaxCount(h))
      && (forall j :: 0 <= j < i ==> h[j].1 < h[i].1)
      && (forall j :: 0 <= j < |h| ==> h[j].1 <= h[i].1)
  {
  }

  /** The loop `for k, v in counts.items(): if v > max: max = v; state = k` started from `max = 0`, `state = ""`. */
  method ArgMax(h: Histogram) returns (state: string, best: nat)
    ensures best == MaxCount(h)
    ensures state == Winner(h)
  {
    best := 0;
    state := "";
    ghost var at := -1;
    for n := 0 to |h|
      invariant forall j :: 0 <= j < n ==> h[j].1 <= best
      invariant best == 0 ==> state == "" && at == -1
      invariant best > 0 ==> 0 <= at < n && h[at] == (state, best) && forall j :: 0 <= j < at ==> h[j].1 < best
    {
      var (k, v) := h[n];
      if v > best {
        best := v;
        state := k;
        at := n;
      }
    }
    if best > 0 {
      assert FirstWithCount(h, MaxCount(h)) == at;
    }
  }

  /**
    A histogram concentrated on the oracle's `k`-bit string (every shot
    measured the marked item) decodes to the oracle.
  */
  lemma ConcentratedAnswer(oracle: nat, k: nat, shots: nat)
    requires shots > 0
    ensures MaxCount([(Format(oracle, k), shots)]) == shots
    ensures ParseBinary(Winner([(Format(oracle, k), shots)])) == Some(oracle)
  {
    FormatRoundTrip(oracle, k);
  }
}
