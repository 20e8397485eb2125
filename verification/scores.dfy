/**
  Log-probability scores as Python floats that are finite or `-inf`, with
  Python's `+` and `>` on them, and numpy's `argmax` over a column of them.
*/
module Scores {

  datatype Score = NegInf | Fin(v: real)

  /** Python `a + b`: `-inf` absorbs every finite value. */
  function Plus(a: Score, b: Score): (r: Score)
    ensures r == NegInf <==> a == NegInf || b == NegInf
    ensures a.Fin? && b.Fin? ==> r.v == a.v + b.v
  {
    match (a, b)
    case (Fin(x), Fin(y)) => Fin(x + y)
    case _ => NegInf
  }

  /** Python `a > b`: nothing exceeds a finite value but a larger finite one; `-inf` exceeds nothing. */
  predicate Greater(a: Score, b: Score) {
    match (a, b)
    case (Fin(x), Fin(y)) => x > y
    case (Fin(_), NegInf) => true
    case (NegInf, _) => false
  }

  lemma GreaterIsStrictTotalOrder(a: Score, b: Score, c: Score)
    ensures !Greater(a, a)
    ensures Greater(a, b) ==> !Greater(b, a)
    ensures Greater(a, b) && Greater(b, c) ==> Greater(a, c)
    ensures a == b || Greater(a, b) || Greater(b, a)
    ensures !Greater(a, NegInf) <==> a == NegInf
  {
  }

  /**
    `np.argmax`: the first index holding the largest value. An all `-inf`
    column yields 0.
  */
  function FirstArgMax(c: seq<Score>): (k: nat)
    requires |c| > 0
    ensures k < |c|
    ensures forall i :: 0 <= i < |c| ==> !Greater(c[i], c[k])
    ensures forall i :: 0 <= i < k ==> Greater(c[k], c[i])
  {
    if |c| == 1 then 0
    else
      var k := FirstArgMax(c[..|c| - 1]);
      if Greater(c[|c| - 1], c[k]) then |c| - 1 else k
  }

  /** The first maximum is the only index that is maximal and beats everything before it. */
  lemma FirstArgMaxUnique(c: seq<Score>, k: nat)
    requires k < |c|
    requires forall i :: 0 <= i < |c| ==> !Greater(c[i], c[k])
    requires forall i :: 0 <= i < k ==> Greater(c[k], c[i])
    ensures k == FirstArgMax(c)
  {
    var m := FirstArgMax(c);
    assert !Greater(c[m], c[k]) && !Greater(c[k], c[m]);
  }
}
