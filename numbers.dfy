/** Integer helpers shared by the layout modules. */
module Numbers {

  /** Sum of a sequence, peeled from the end so that it follows a left-to-right accumulation loop. */
  function Sum(s: seq<int>): int
  {
    if s == [] then 0 else Sum(s[..|s| - 1]) + s[|s| - 1]
  }

  /** A sum of non-negative numbers is not negative. */
  lemma {:induction false} SumNonNegative(s: seq<int>)
    requires forall j :: 0 <= j < |s| ==> s[j] >= 0
    ensures Sum(s) >= 0
    decreases |s|
  {
    if s != [] {
      SumNonNegative(s[..|s| - 1]);
    }
  }

  /** Math.abs on integers. */
  function Abs(x: int): int
  {
    if x < 0 then -x else x
  }

  /** Quotient and remainder are determined by any decomposition a == q * n + k with 0 <= k < n. */
  lemma DivModUnique(a: int, n: int, q: int, k: int)
    requires n > 0 && 0 <= k < n && a == q * n + k
    ensures a / n == q && a % n == k
  {
    var q', k' := a / n, a % n;
    assert a == q' * n + k';
    MulDistributes(q, q', n);
    if q' < q {
      AtLeastOnce(q - q', n);
    } else if q < q' {
      AtLeastOnce(q' - q, n);
    }
  }

  lemma MulAdd(a: int, b: int, c: int)
    ensures a * (b + c) == a * b + a * c
  {
  }

  lemma MulDistributes(x: int, y: int, n: int)
    ensures (x - y) * n == x * n - y * n
  {
  }

  lemma {:induction false} AtLeastOnce(x: int, n: int)
    requires x >= 1 && n > 0
    ensures x * n >= n
    decreases x
  {
    if x > 1 {
      AtLeastOnce(x - 1, n);
      assert x * n == (x - 1) * n + n;
    }
  }
}
