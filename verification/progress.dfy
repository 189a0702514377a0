/** The progress percentage written after each face swap of a run (app.py:55). */
module Progress {

  /** Progress after swap `i` (0-based) of `n`: `(i + 1) / n * 90`.
      Python computes this in floating point; here it is an exact `real`. */
  function ProgressAt(i: nat, n: nat): (p: real)
    requires i < n
    ensures 0.0 < p <= 90.0
    ensures p == 90.0 <==> i == n - 1
  {
    var q := (i + 1) as real / n as real;
    assert q * n as real == (i + 1) as real;
    q * 90.0
  }

  /** Later swaps report strictly more progress than earlier ones. */
  lemma ProgressIncreases(i: nat, j: nat, n: nat)
    requires i < j < n
    ensures ProgressAt(i, n) < ProgressAt(j, n)
  {
    var qi := (i + 1) as real / n as real;
    var qj := (j + 1) as real / n as real;
    assert qi * n as real == (i + 1) as real;
    assert qj * n as real == (j + 1) as real;
    assert qi < qj;
  }
}
