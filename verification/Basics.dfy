/** What several components share: sizes, options, lists without repetition, and the arithmetic of bursts. */
module Basics {
  datatype Option<T> = None | Some(value: T)

  const TRB_SIZE: nat := 16
  const PAGE_SIZE: nat := 4096
  const TWO_32: nat := 0x1_0000_0000

  ghost predicate NoDuplicates<T>(s: seq<T>) {
    forall i, j :: 0 <= i < j < |s| ==> s[i] != s[j]
  }

  /** The slot behind slot `last` of a ring; the link at the end is skipped. */
  function NextSlot(last: int, numTRBs: int): (next: int)
    ensures last >= 0 ==> next >= 0
  {
    if last + 1 >= numTRBs - 1 then 0 else last + 1
  }

  /** An integer as the driver keeps it, in 32 bits. */
  function Low(n: int): nat {
    n % TWO_32
  }

  lemma LowSmall(n: int)
    requires 0 <= n < TWO_32
    ensures Low(n) == n
  {
  }

  lemma LowSum(a: int, b: int)
    ensures Low(Low(a) + b) == Low(a + b) && Low(Low(a) + Low(b)) == Low(a + b)
  {
  }

  // ---------------------------------------------------------------- multiples

  lemma {:induction false} AtLeastOnce(k: nat, n: nat)
    requires k >= 1
    ensures k * n >= n
    decreases k
  {
    if k > 1 {
      AtLeastOnce(k - 1, n);
      assert k * n == (k - 1) * n + n;
    }
  }

  /** Quotient and remainder are unique. */
  lemma DivisionIsUnique(d: int, n: nat, q: int, r: int)
    requires n > 0 && d == q * n + r && 0 <= r < n
    ensures d / n == q && d % n == r
  {
    var q', r' := d / n, d % n;
    assert d == q' * n + r';
    assert (q - q') * n == q * n - q' * n && (q' - q) * n == q' * n - q * n;
    if q' < q {
      AtLeastOnce(q - q', n);
    } else if q < q' {
      AtLeastOnce(q' - q, n);
    }
  }

  lemma SumOfMultiples(a: int, b: int, n: nat)
    requires n > 0 && a % n == 0 && b % n == 0
    ensures (a + b) % n == 0
  {
    var p, q := a / n, b / n;
    assert a == p * n && b == q * n;
    assert (p + q) * n == p * n + q * n;
    DivisionIsUnique(a + b, n, p + q, 0);
  }

  lemma DifferenceOfMultiples(a: int, b: int, n: nat)
    requires n > 0 && a % n == 0 && b % n == 0
    ensures (b - a) % n == 0
  {
    var p, q := a / n, b / n;
    assert a == p * n && b == q * n;
    assert (q - p) * n == q * n - p * n;
    DivisionIsUnique(b - a, n, q - p, 0);
  }
}
