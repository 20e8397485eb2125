/** Sums of smoothed rows over exact reals. */
module RowSums {

  /** Sum of a row, first element first. */
  function Sum(row: seq<real>): real {
    if |row| == 0 then 0.0 else row[0] + Sum(row[1..])
  }

  function SumCounts(cs: seq<nat>): nat {
    if |cs| == 0 then 0 else cs[0] + SumCounts(cs[1..])
  }

  /** Every cell of `row` is its count plus alpha over the shared denominator `d`. */
  predicate SmoothedRow(alpha: real, cs: seq<nat>, row: seq<real>, d: real)
    requires d != 0.0
  {
    |row| == |cs| && forall j :: 0 <= j < |row| ==> row[j] == (cs[j] as real + alpha) / d
  }

  lemma SmoothedRowTail(alpha: real, cs: seq<nat>, row: seq<real>, d: real)
    requires d != 0.0 && SmoothedRow(alpha, cs, row, d) && |row| > 0
    ensures SmoothedRow(alpha, cs[1..], row[1..], d)
    ensures row[0] == (cs[0] as real + alpha) / d
  {
  }

  /** One step of the row sum: the first cell joins the rest over the shared denominator. */
  lemma PeelSmoothedCell(c0: real, rest: real, total: real, alpha: real, n: real, len: real, d: real,
                         first: real, tail: real)
    requires d != 0.0 && total == c0 + rest && len == n + 1.0
    requires first == (c0 + alpha) / d && tail == (rest + alpha * n) / d
    ensures first + tail == (total + alpha * len) / d
  {
    assert c0 + alpha + (rest + alpha * n) == total + alpha * len;
  }

  lemma {:induction false} SumOfSmoothedRow(alpha: real, cs: seq<nat>, row: seq<real>, d: real)
    requires d != 0.0 && SmoothedRow(alpha, cs, row, d)
    ensures Sum(row) == (SumCounts(cs) as real + alpha * |row| as real) / d
    decreases |row|
  {
    if |row| > 0 {
      SmoothedRowTail(alpha, cs, row, d);
      SumOfSmoothedRow(alpha, cs[1..], row[1..], d);
      PeelSmoothedCell(cs[0] as real, SumCounts(cs[1..]) as real, SumCounts(cs) as real,
                       alpha, |row[1..]| as real, |row| as real, d, row[0], Sum(row[1..]));
    }
  }

  /** A ratio is one exactly when numerator and denominator agree. */
  lemma UnitFraction(s: real, extra: real, total: real, d: real)
    requires d == total + extra && d != 0.0
    ensures (s + extra) / d == 1.0 <==> s == total
  {
    assert (s + extra) / d * d == s + extra;
  }

  /**
    A smoothed row whose denominator is `total + alpha * |row|` sums to one
    exactly when its counts add up to `total`.
  */
  lemma SmoothedRowTotal(alpha: real, cs: seq<nat>, row: seq<real>, d: real, total: real)
    requires d != 0.0 && SmoothedRow(alpha, cs, row, d) && d == total + alpha * |row| as real
    ensures Sum(row) == (SumCounts(cs) as real + alpha * |row| as real) / d
    ensures Sum(row) == 1.0 <==> SumCounts(cs) as real == total
  {
    SumOfSmoothedRow(alpha, cs, row, d);
    UnitFraction(SumCounts(cs) as real, alpha * |row| as real, total, d);
  }
}
