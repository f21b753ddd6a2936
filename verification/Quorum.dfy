/** The quorum size and the fault bound: base/threshold.go and base/suffrage.go.
    Ratios are exact reals here; the source computes them in float64. */
module Quorum {
  import opened Base

  /** `math.Ceil`. */
  function Ceil(x: real): (c: int)
    ensures c as real - 1.0 < x <= c as real
  {
    -(-x).Floor
  }

  datatype Threshold = Threshold(total: Uint, threshold: Uint, ratio: real)

  predicate ValidRatio(ratio: real) {
    1.0 <= ratio <= 100.0
  }

  function NewThreshold(total: Uint, ratio: real): (r: Result<Threshold>) {
    if !ValidRatio(ratio) || total < 1 then
      Err
    else
      RatioBounds(total, ratio);
      Ok(Threshold(total, Ceil(total as real * (ratio / 100.0)), ratio))
  }

  function NumberOfFaultyNodes(n: Uint, ratio: real): (f: int) {
    if n < 1 then 0
    else if ratio >= 100.0 then 0
    else (n as real - n as real * (ratio / 100.0)).Floor
  }

  lemma Scale(n: real, a: real, b: real)
    requires 0.0 <= n && a <= b
    ensures n * a <= n * b
  {
  }

  lemma RatioBounds(total: Uint, ratio: real)
    requires total >= 1 && ValidRatio(ratio)
    ensures 1 <= Ceil(total as real * (ratio / 100.0)) <= total
  {
    var n, q := total as real, ratio / 100.0;
    assert 0.01 <= q <= 1.0;
    Scale(n, 0.01, q);
    Scale(n, q, 1.0);
  }

  /** A threshold is built exactly for a nonempty suffrage and a ratio from 1 to 100, and then the
      quorum is everyone but the tolerated faulty nodes. */
  lemma QuorumComplement(n: Uint, ratio: real)
    ensures NewThreshold(n, ratio).Ok? <==> n >= 1 && 1.0 <= ratio <= 100.0
    ensures NewThreshold(n, ratio).Ok? ==>
              var t := NewThreshold(n, ratio).value;
              1 <= t.threshold <= t.total == n && t.threshold + NumberOfFaultyNodes(n, ratio) == n
  {
    if n >= 1 && ValidRatio(ratio) {
      RatioBounds(n, ratio);
      var x := n as real * (ratio / 100.0);
      if ratio >= 100.0 {
        assert ratio / 100.0 == 1.0;
        assert x == n as real;
      } else {
        var f := (n as real - x).Floor;
        assert f as real <= n as real - x < f as real + 1.0;
        assert (n - f) as real - 1.0 < x <= (n - f) as real;
      }
    }
  }

  /** Two quorums share more nodes than may be faulty. */
  ghost predicate OverlapExceedsFaults(n: Uint, ratio: real)
    requires NewThreshold(n, ratio).Ok?
  {
    2 * NewThreshold(n, ratio).value.threshold - n > NumberOfFaultyNodes(n, ratio)
  }

  /** For one suffrage, two quorums share more nodes than may be faulty exactly if a quorum is more than
      two thirds of the nodes. */
  lemma QuorumOverlap(n: Uint, ratio: real)
    requires NewThreshold(n, ratio).Ok?
    ensures var t := NewThreshold(n, ratio).value.threshold;
            (OverlapExceedsFaults(n, ratio) <==> 3 * t > 2 * n) && (3 * t > 2 * n ==> 2 * t > n)
  {
    QuorumComplement(n, ratio);
  }

  /** For all suffrages, it is so exactly for the ratios above two thirds. */
  lemma OverlapExactly(ratio: real)
    requires ValidRatio(ratio)
    ensures 3.0 * ratio > 200.0 <==>
              forall n: Uint :: n >= 1 ==> NewThreshold(n, ratio).Ok? && OverlapExceedsFaults(n, ratio)
  {
    if 3.0 * ratio > 200.0 {
      forall n: Uint | n >= 1 ensures NewThreshold(n, ratio).Ok? && OverlapExceedsFaults(n, ratio) {
        AboveTwoThirds(n, ratio);
        QuorumOverlap(n, ratio);
      }
    } else {
      QuorumOverlap(3, ratio);
      assert NewThreshold(3, ratio).value.threshold <= 2;
      assert !OverlapExceedsFaults(3, ratio);
    }
  }

  /** A ratio above two thirds makes every quorum more than two thirds of the nodes. */
  lemma AboveTwoThirds(n: Uint, ratio: real)
    requires n >= 1 && ValidRatio(ratio) && 3.0 * ratio > 200.0
    ensures NewThreshold(n, ratio).Ok?
    ensures 3 * NewThreshold(n, ratio).value.threshold > 2 * n
  {
    QuorumSize(n, ratio / 100.0, NewThreshold(n, ratio).value.threshold);
  }

  lemma QuorumSize(n: int, q: real, t: int)
    requires n >= 1 && 3.0 * q > 2.0 && t == Ceil(n as real * q)
    ensures 3 * t > 2 * n
  {
    var x := n as real;
    var y := x * q;
    TwoThirdsOf(x, q, y);
    MoreThanTwoThirds(n, x, y, t);
  }

  lemma TwoThirdsOf(n: real, q: real, y: real)
    requires 0.0 < n && 3.0 * q > 2.0 && y == n * q
    ensures 2.0 * n < 3.0 * y
  {
    assert n * (3.0 * q - 2.0) > 0.0;
    assert n * (3.0 * q - 2.0) == 3.0 * (n * q) - 2.0 * n;
  }

  lemma MoreThanTwoThirds(n: int, x: real, y: real, t: int)
    requires x == n as real && 2.0 * x < 3.0 * y && y <= t as real
    ensures 3 * t > 2 * n
  {
    var m: int := 3 * t - 2 * n;
    assert m as real == 3.0 * t as real - 2.0 * x;
  }

  /** The threshold is the least number of nodes whose share is at least the ratio. */
  lemma ThresholdIsLeast(n: Uint, ratio: real, k: int)
    requires NewThreshold(n, ratio).Ok?
    ensures k >= NewThreshold(n, ratio).value.threshold <==> 100.0 * k as real >= n as real * ratio
  {
    var x := n as real;
    var y := x * (ratio / 100.0);
    Percent(x, ratio, y);
    assert NewThreshold(n, ratio).value.threshold == Ceil(y);
    CeilIsLeast(y, k);
  }

  lemma Percent(x: real, ratio: real, y: real)
    requires y == x * (ratio / 100.0)
    ensures 100.0 * y == x * ratio
  {
  }

  lemma CeilIsLeast(y: real, k: int)
    ensures k >= Ceil(y) <==> k as real >= y
  {
  }
}
