/**
  The three-stage Viterbi decoder in log space: `initialize` seeds column 0,
  `viterbi_forward` fills columns 1..T-1 with best scores and back-pointers,
  and `viterbi_backward` rebuilds the tag list. Tables are row-major, N tags
  by T tokens. `ln` stands for `math.log` on positive arguments.
*/
module Viterbi {
  import opened Results
  import opened Scores
  import opened Tables
  import opened HiddenMarkovModel

  /** The synthetic start tag. */
  const StartTag: string := "--s--"

  /** Python `list.index`: the first position of `x`, or None when absent (a ValueError). */
  function IndexOf(states: seq<string>, x: string): (r: Option<nat>)
    ensures r.None? <==> x !in states
    ensures r.Some? ==> r.value < |states| && states[r.value] == x
    ensures r.Some? ==> forall i :: 0 <= i < r.value ==> states[i] != x
  {
    if |states| == 0 then None
    else if states[0] == x then Some(0)
    else match IndexOf(states[1..], x)
      case None => None
      case Some(k) => Some(k + 1)
  }

  /**
    The column-0 score of one tag: `-inf` when the start transition is exactly 0,
    otherwise `log A[s, i] + log B[i, vocab[corpus[0]]]`, failing the way Python
    does (`math.log` of a non-positive number, an empty corpus, an unknown word,
    a word index past the end of the row).
  */
  function StartScore(ln: real -> real, aStart: real, bRow: seq<real>, corpus: seq<string>,
                      vocab: map<string, nat>): (r: Result<Score>)
    ensures r.Success? <==>
      |corpus| > 0 &&
      (aStart == 0.0 ||
       (aStart > 0.0 && corpus[0] in vocab && vocab[corpus[0]] < |bRow| && bRow[vocab[corpus[0]]] > 0.0))
    ensures r.Success? ==> (r.value == NegInf <==> aStart == 0.0)
    ensures |corpus| == 0 && aStart >= 0.0 ==> r == Failure(IndexOutOfRange)
    ensures aStart < 0.0 ==> r == Failure(MathDomain)
    ensures aStart > 0.0 && |corpus| > 0 && corpus[0] !in vocab ==> r == Failure(KeyNotFound)
    ensures aStart > 0.0 && |corpus| > 0 && corpus[0] in vocab && vocab[corpus[0]] >= |bRow| ==>
      r == Failure(IndexOutOfRange)
    ensures aStart > 0.0 && |corpus| > 0 && corpus[0] in vocab && vocab[corpus[0]] < |bRow| ==>
      (bRow[vocab[corpus[0]]] <= 0.0 ==> r == Failure(MathDomain))
    ensures r.Success? && aStart != 0.0 ==>
      corpus[0] in vocab && vocab[corpus[0]] < |bRow| &&
      r.value == Fin(ln(aStart) + ln(bRow[vocab[corpus[0]]]))
  {
    if aStart == 0.0 then
      if |corpus| == 0 then Failure(IndexOutOfRange) else Success(NegInf)
    else if aStart < 0.0 then Failure(MathDomain)
    else if |corpus| == 0 then Failure(IndexOutOfRange)
    else if corpus[0] !in vocab then Failure(KeyNotFound)
    else if vocab[corpus[0]] >= |bRow| then Failure(IndexOutOfRange)
    else if bRow[vocab[corpus[0]]] <= 0.0 then Failure(MathDomain)
    else Success(Fin(ln(aStart) + ln(bRow[vocab[corpus[0]]])))
  }

  /** Tag `i` is the first whose start score fails, and it fails with `e`. */
  predicate FirstFailure(ln: real -> real, aStartRow: seq<real>, B: Matrix, corpus: seq<string>,
                         vocab: map<string, nat>, i: nat, e: Error)
    requires i < |aStartRow| && i < |B|
  {
    && StartScore(ln, aStartRow[i], B[i], corpus, vocab) == Failure(e)
    && forall i' :: 0 <= i' < i ==> StartScore(ln, aStartRow[i'], B[i'], corpus, vocab).Success?
  }

  /** Column 0 for tags 0..n-1, in loop order: the first failing tag's error wins. */
  function SeedColumn(ln: real -> real, aStartRow: seq<real>, B: Matrix, corpus: seq<string>,
                      vocab: map<string, nat>, n: nat): (r: Result<seq<Score>>)
    requires n <= |aStartRow| && n <= |B|
    ensures r.Success? <==> forall i :: 0 <= i < n ==> StartScore(ln, aStartRow[i], B[i], corpus, vocab).Success?
    ensures r.Success? ==> |r.value| == n
    ensures r.Success? ==>
      forall i :: 0 <= i < n ==> r.value[i] == StartScore(ln, aStartRow[i], B[i], corpus, vocab).value
    ensures r.Failure? ==>
      exists i :: 0 <= i < n && FirstFailure(ln, aStartRow, B, corpus, vocab, i, r.error)
  {
    if n == 0 then Success([])
    else match SeedColumn(ln, aStartRow, B, corpus, vocab, n - 1)
      case Failure(e) => Failure(e)
      case Success(col) =>
        match StartScore(ln, aStartRow[n - 1], B[n - 1], corpus, vocab)
        case Failure(e) => assert FirstFailure(ln, aStartRow, B, corpus, vocab, n - 1, e); Failure(e)
        case Success(x) => Success(col + [x])
  }

  /**
    `initialize`: an N x T score table that is 0 outside column 0 and an all-zero
    N x T back-pointer table, N = |tag_counts|, T = |corpus|.
  */
  function Initialize(ln: real -> real, states: seq<string>, tagCounts: map<string, nat>, A: Matrix, B: Matrix,
                      corpus: seq<string>, vocab: map<string, nat>): (r: Result<(seq<seq<Score>>, seq<seq<int>>)>)
    requires |states| == |tagCounts| && IsGrid(A, |tagCounts|, |tagCounts|) && |B| == |tagCounts|
    ensures r == Failure(NotInList) <==> StartTag !in states
    ensures r.Success? <==>
      StartTag in states &&
      (|tagCounts| == 0 ||
       (|corpus| > 0 &&
        forall i :: 0 <= i < |tagCounts| ==>
          var a := A[IndexOf(states, StartTag).value][i];
          a == 0.0 ||
          (a > 0.0 && corpus[0] in vocab && vocab[corpus[0]] < |B[i]| && B[i][vocab[corpus[0]]] > 0.0)))
    ensures r.Success? ==>
      var (probs, paths) := r.value;
      && IsGrid(probs, |tagCounts|, |corpus|) && IsGrid(paths, |tagCounts|, |corpus|)
      && (forall i, t :: 0 <= i < |tagCounts| && 0 <= t < |corpus| ==> paths[i][t] == 0)
      && (forall i, t :: 0 <= i < |tagCounts| && 1 <= t < |corpus| ==> probs[i][t] == Fin(0.0))
      && (forall i :: 0 <= i < |tagCounts| ==>
            var a := A[IndexOf(states, StartTag).value][i];
            if a == 0.0 then probs[i][0] == NegInf
            else probs[i][0] == Fin(ln(a) + ln(B[i][vocab[corpus[0]]])))
  {
    match IndexOf(states, StartTag)
    case None => Failure(NotInList)
    case Some(s) =>
      match SeedColumn(ln, A[s], B, corpus, vocab, |tagCounts|)
      case Failure(e) => Failure(e)
      case Success(col) =>
        var n := |tagCounts|;
        Success((seq(n, i requires 0 <= i < n => seq(|corpus|, t requires 0 <= t < |corpus| =>
                   if t == 0 then col[i] else Fin(0.0))),
                 seq(n, i requires 0 <= i < n => seq(|corpus|, t requires 0 <= t < |corpus| => 0))))
  }

  /** Score and back-pointer tables, both N x T (`best_probs`, `best_paths`). */
  type Table = seq<seq<Score>>
  type Paths = seq<seq<int>>

  /**
    The score of reaching tag `j` at token `t` from tag `k` at token `t - 1`:
    `best_probs[k, t-1] + log A[k, j] + log B[j, vocab[corpus[t]]]`, with Python's
    failures in evaluation order.
  */
  function Candidate(ln: real -> real, A: Matrix, B: Matrix, corpus: seq<string>, vocab: map<string, nat>,
                     P: Table, t: nat, j: nat, k: nat): (r: Result<Score>)
    requires 1 <= t < |corpus| && j < |B| && k < |A| && j < |A[k]| && k < |P| && t - 1 < |P[k]|
    ensures r.Success? <==>
      A[k][j] > 0.0 && corpus[t] in vocab && vocab[corpus[t]] < |B[j]| && B[j][vocab[corpus[t]]] > 0.0
    ensures r.Failure? && A[k][j] <= 0.0 ==> r.error == MathDomain
    ensures r.Success? ==>
      r.value == Plus(P[k][t - 1], Fin(ln(A[k][j]) + ln(B[j][vocab[corpus[t]]])))
  {
    if A[k][j] <= 0.0 then Failure(MathDomain)
    else if corpus[t] !in vocab then Failure(KeyNotFound)
    else if vocab[corpus[t]] >= |B[j]| then Failure(IndexOutOfRange)
    else if B[j][vocab[corpus[t]]] <= 0.0 then Failure(MathDomain)
    else Success(Plus(Plus(P[k][t - 1], Fin(ln(A[k][j]))), Fin(ln(B[j][vocab[corpus[t]]]))))
  }

  /** The shapes the candidate scores index into: A is N x N, B has N rows, the score table is N x T. */
  predicate ScoresShaped(A: Matrix, B: Matrix, corpus: seq<string>, P: Table) {
    IsGrid(A, |A|, |A|) && |B| == |A| && IsGrid(P, |A|, |corpus|)
  }

  /** The back-pointer table is N x T too. */
  predicate Shaped(A: Matrix, B: Matrix, corpus: seq<string>, P: Table, Q: Paths) {
    ScoresShaped(A, B, corpus, P) && IsGrid(Q, |A|, |corpus|)
  }

  /** Every candidate for cell (j, t) over predecessors 0..n-1 evaluates without error. */
  predicate AllCandidatesDefined(ln: real -> real, A: Matrix, B: Matrix, corpus: seq<string>, vocab: map<string, nat>,
                                 P: Table, t: nat, j: nat, n: nat)
    requires ScoresShaped(A, B, corpus, P) && 1 <= t < |corpus| && j < |A| && n <= |A|
  {
    forall k :: 0 <= k < n ==> Candidate(ln, A, B, corpus, vocab, P, t, j, k).Success?
  }

  /** Predecessor `k` is the first whose candidate fails, and it fails with `e`. */
  predicate FirstFailingCandidate(ln: real -> real, A: Matrix, B: Matrix, corpus: seq<string>, vocab: map<string, nat>,
                                  P: Table, t: nat, j: nat, k: nat, e: Error)
    requires ScoresShaped(A, B, corpus, P) && 1 <= t < |corpus| && j < |A| && k < |A|
  {
    AllCandidatesDefined(ln, A, B, corpus, vocab, P, t, j, k) && Candidate(ln, A, B, corpus, vocab, P, t, j, k) == Failure(e)
  }

  /**
    `q` is the first predecessor whose candidate score is maximal, and that
    score, `best`, is finite.
  */
  predicate IsBest(ln: real -> real, A: Matrix, B: Matrix, corpus: seq<string>, vocab: map<string, nat>,
                   P: Table, t: nat, j: nat, best: Score, q: int)
    requires ScoresShaped(A, B, corpus, P) && 1 <= t < |corpus| && j < |A|
    requires AllCandidatesDefined(ln, A, B, corpus, vocab, P, t, j, |A|)
  {
    && 0 <= q < |A|
    && best == Candidate(ln, A, B, corpus, vocab, P, t, j, q).value
    && best.Fin?
    && (forall k :: 0 <= k < |A| ==> !Greater(Candidate(ln, A, B, corpus, vocab, P, t, j, k).value, best))
    && (forall k :: 0 <= k < q ==> Greater(best, Candidate(ln, A, B, corpus, vocab, P, t, j, k).value))
  }

  /** Cell (j, t) holds what the k-loop of the forward pass leaves there. */
  predicate Decoded(ln: real -> real, A: Matrix, B: Matrix, corpus: seq<string>, vocab: map<string, nat>,
                    P: Table, Q: Paths, t: nat, j: nat)
    requires Shaped(A, B, corpus, P, Q) && 1 <= t < |corpus| && j < |A|
  {
    && AllCandidatesDefined(ln, A, B, corpus, vocab, P, t, j, |A|)
    && IsBest(ln, A, B, corpus, vocab, P, t, j, P[j][t], Q[j][t])
  }

  /**
    The k-loop for cell (j, t): scan the predecessors in order, keeping a
    candidate only when it is strictly greater than the best so far, starting
    from `-inf` and no predecessor. The first failing candidate aborts the scan.
  */
  method BestPredecessor(ln: real -> real, A: Matrix, B: Matrix, corpus: seq<string>, vocab: map<string, nat>,
                         P: Table, t: nat, j: nat) returns (r: Result<(Score, Option<nat>)>)
    requires ScoresShaped(A, B, corpus, P) && 1 <= t < |corpus| && j < |A|
    ensures r.Success? <==> AllCandidatesDefined(ln, A, B, corpus, vocab, P, t, j, |A|)
    ensures r.Failure? ==>
      exists k :: 0 <= k < |A| && FirstFailingCandidate(ln, A, B, corpus, vocab, P, t, j, k, r.error)
    ensures r.Success? ==>
      (r.value.1.None? <==> forall k :: 0 <= k < |A| ==> Candidate(ln, A, B, corpus, vocab, P, t, j, k).value == NegInf)
    ensures r.Success? && r.value.1.None? ==> r.value.0 == NegInf
    ensures r.Success? && r.value.1.Some? ==>
      IsBest(ln, A, B, corpus, vocab, P, t, j, r.value.0, r.value.1.value)
  {
    var best := NegInf;
    var arg: Option<nat> := None;
    var k := 0;
    while k < |A|
      invariant 0 <= k <= |A|
      invariant AllCandidatesDefined(ln, A, B, corpus, vocab, P, t, j, k)
      invariant arg.None? ==> best == NegInf
      invariant arg.None? ==> forall k' :: 0 <= k' < k ==> Candidate(ln, A, B, corpus, vocab, P, t, j, k').value == NegInf
      invariant arg.Some? ==> arg.value < k && best.Fin? && best == Candidate(ln, A, B, corpus, vocab, P, t, j, arg.value).value
      invariant forall k' :: 0 <= k' < k ==> !Greater(Candidate(ln, A, B, corpus, vocab, P, t, j, k').value, best)
      invariant arg.Some? ==> forall k' :: 0 <= k' < arg.value ==> Greater(best, Candidate(ln, A, B, corpus, vocab, P, t, j, k').value)
    {
      var c := Candidate(ln, A, B, corpus, vocab, P, t, j, k);
      if c.Failure? {
        assert FirstFailingCandidate(ln, A, B, corpus, vocab, P, t, j, k, c.error);
        return Failure(c.error);
      }
      if Greater(c.value, best) {
        forall k' | 0 <= k' < k
          ensures !Greater(Candidate(ln, A, B, corpus, vocab, P, t, j, k').value, c.value)
          ensures Greater(c.value, Candidate(ln, A, B, corpus, vocab, P, t, j, k').value)
        {
          GreaterIsStrictTotalOrder(Candidate(ln, A, B, corpus, vocab, P, t, j, k').value, c.value, best);
          GreaterIsStrictTotalOrder(c.value, best, Candidate(ln, A, B, corpus, vocab, P, t, j, k').value);
        }
        best, arg := c.value, Some(k);
      } else {
        GreaterIsStrictTotalOrder(c.value, best, best);
      }
      k := k + 1;
    }
    r := Success((best, arg));
  }

  /** Candidate scores for column `t` read only column `t - 1` of the score table. */
  lemma {:induction false} DecodedFrame(ln: real -> real, A: Matrix, B: Matrix, corpus: seq<string>, vocab: map<string, nat>,
                                        P: Table, Q: Paths, P': Table, Q': Paths, t: nat, j: nat)
    requires Shaped(A, B, corpus, P, Q) && Shaped(A, B, corpus, P', Q') && 1 <= t < |corpus| && j < |A|
    requires forall k :: 0 <= k < |A| ==> P'[k][t - 1] == P[k][t - 1]
    requires P'[j][t] == P[j][t] && Q'[j][t] == Q[j][t]
    requires Decoded(ln, A, B, corpus, vocab, P, Q, t, j)
    ensures Decoded(ln, A, B, corpus, vocab, P', Q', t, j)
  {
    forall k | 0 <= k < |A|
      ensures Candidate(ln, A, B, corpus, vocab, P', t, j, k) == Candidate(ln, A, B, corpus, vocab, P, t, j, k)
    {
    }
  }

  /** Where and why the forward pass stopped: token `t`, tag `j`. */
  datatype Halt = Halt(t: nat, j: nat, error: Error)

  /** Cell (j, t) comes before cell (j', t') in the forward pass's loop order (token-major). */
  predicate Before(t: nat, j: nat, t': nat, j': nat) {
    t < t' || (t == t' && j < j')
  }

  /**
    One pass of the k-loop and the two stores for cell (j, t). Only that cell
    changes; `stop` is the exception that ends the forward pass there, if any.
  */
  method ForwardCell(ln: real -> real, A: Matrix, B: Matrix, corpus: seq<string>, vocab: map<string, nat>,
                     P: Table, Q: Paths, t: nat, j: nat) returns (P': Table, Q': Paths, stop: Option<Error>)
    requires Shaped(A, B, corpus, P, Q) && 1 <= t < |corpus| && j < |A|
    ensures Shaped(A, B, corpus, P', Q')
    ensures P' == P[j := P[j][t := P'[j][t]]] && Q' == Q[j := Q[j][t := Q'[j][t]]]
    ensures stop.None? ==> Decoded(ln, A, B, corpus, vocab, P', Q', t, j)
    ensures stop.Some? ==> Q'[j][t] == Q[j][t]
    ensures stop == Some(NoneStored) <==>
      AllCandidatesDefined(ln, A, B, corpus, vocab, P, t, j, |A|) &&
      forall k :: 0 <= k < |A| ==> Candidate(ln, A, B, corpus, vocab, P, t, j, k).value == NegInf
    ensures stop == Some(NoneStored) ==> P'[j][t] == NegInf
    ensures stop.Some? && stop.value != NoneStored ==>
      P'[j][t] == P[j][t] &&
      exists k :: 0 <= k < |A| && FirstFailingCandidate(ln, A, B, corpus, vocab, P, t, j, k, stop.value)
  {
    var r := BestPredecessor(ln, A, B, corpus, vocab, P, t, j);
    assert P[j][t := P[j][t]] == P[j];
    assert P[j := P[j]] == P;
    assert Q[j][t := Q[j][t]] == Q[j];
    assert Q[j := Q[j]] == Q;
    if r.Failure? {
      return P, Q, Some(r.error);
    }
    var (best, arg) := r.value;
    P' := P[j := P[j][t := best]];
    if arg.None? {
      return P', Q, Some(NoneStored);
    }
    Q' := Q[j := Q[j][t := arg.value]];
    stop := None;
    forall k | 0 <= k < |A|
      ensures Candidate(ln, A, B, corpus, vocab, P', t, j, k) == Candidate(ln, A, B, corpus, vocab, P, t, j, k)
    {
    }
  }

  /**
    The j-loop for token `t`: decode the cells of column `t` in tag order until
    one stops the pass. Nothing outside column `t` changes.
  */
  method ForwardColumn(ln: real -> real, A: Matrix, B: Matrix, corpus: seq<string>, vocab: map<string, nat>,
                       P: Table, Q: Paths, t: nat) returns (P': Table, Q': Paths, halt: Option<Halt>)
    requires Shaped(A, B, corpus, P, Q) && 1 <= t < |corpus|
    ensures Shaped(A, B, corpus, P', Q')
    ensures forall j, t' :: 0 <= j < |A| && 0 <= t' < |corpus| && t' != t ==> P'[j][t'] == P[j][t'] && Q'[j][t'] == Q[j][t']
    ensures halt.None? ==> forall j :: 0 <= j < |A| ==> Decoded(ln, A, B, corpus, vocab, P', Q', t, j)
    ensures halt.Some? ==> halt.value.t == t && halt.value.j < |A|
    ensures halt.Some? ==> forall j :: 0 <= j < halt.value.j ==> Decoded(ln, A, B, corpus, vocab, P', Q', t, j)
    ensures halt.Some? ==> forall j :: halt.value.j < j < |A| ==> P'[j][t] == P[j][t] && Q'[j][t] == Q[j][t]
    ensures halt.Some? ==> Q'[halt.value.j][t] == Q[halt.value.j][t]
    ensures halt.Some? ==>
      (halt.value.error == NoneStored <==>
       AllCandidatesDefined(ln, A, B, corpus, vocab, P', t, halt.value.j, |A|) &&
       forall k :: 0 <= k < |A| ==> Candidate(ln, A, B, corpus, vocab, P', t, halt.value.j, k).value == NegInf)
    ensures halt.Some? && halt.value.error == NoneStored ==> P'[halt.value.j][t] == NegInf
    ensures halt.Some? && halt.value.error != NoneStored ==>
      P'[halt.value.j][t] == P[halt.value.j][t] &&
      exists k :: 0 <= k < |A| && FirstFailingCandidate(ln, A, B, corpus, vocab, P', t, halt.value.j, k, halt.value.error)
  {
    P', Q', halt := P, Q, None;
    var j := 0;
    while j < |A|
      invariant 0 <= j <= |A|
      invariant Shaped(A, B, corpus, P', Q')
      invariant forall j', t' :: 0 <= j' < |A| && 0 <= t' < |corpus| && t' != t ==> P'[j'][t'] == P[j'][t'] && Q'[j'][t'] == Q[j'][t']
      invariant forall j' :: 0 <= j' < j ==> Decoded(ln, A, B, corpus, vocab, P', Q', t, j')
      invariant forall j' :: j <= j' < |A| ==> P'[j'][t] == P[j'][t] && Q'[j'][t] == Q[j'][t]
    {
      var P1, Q1, stop := ForwardCell(ln, A, B, corpus, vocab, P', Q', t, j);
      forall j' | 0 <= j' < j
        ensures Decoded(ln, A, B, corpus, vocab, P1, Q1, t, j')
      {
        DecodedFrame(ln, A, B, corpus, vocab, P', Q', P1, Q1, t, j');
      }
      if stop.Some? {
        forall k | 0 <= k < |A|
          ensures Candidate(ln, A, B, corpus, vocab, P1, t, j, k) == Candidate(ln, A, B, corpus, vocab, P', t, j, k)
        {
        }
        if stop.value != NoneStored {
          var k :| 0 <= k < |A| && FirstFailingCandidate(ln, A, B, corpus, vocab, P', t, j, k, stop.value);
          assert FirstFailingCandidate(ln, A, B, corpus, vocab, P1, t, j, k, stop.value);
        }
        return P1, Q1, Some(Halt(t, j, stop.value));
      }
      P', Q' := P1, Q1;
      j := j + 1;
    }
  }

  /**
    Why the forward pass stops at cell (j, t) with exception `e`: a TypeError
    (`NoneStored`) exactly when every candidate evaluates and all are `-inf`,
    so no predecessor is found; otherwise the first failing candidate's error.
  */
  predicate StopsAt(ln: real -> real, A: Matrix, B: Matrix, corpus: seq<string>, vocab: map<string, nat>,
                    P: Table, t: nat, j: nat, e: Error)
    requires ScoresShaped(A, B, corpus, P) && 1 <= t < |corpus| && j < |A|
  {
    && (e == NoneStored <==>
        AllCandidatesDefined(ln, A, B, corpus, vocab, P, t, j, |A|) &&
        forall k :: 0 <= k < |A| ==> Candidate(ln, A, B, corpus, vocab, P, t, j, k).value == NegInf)
    && (e != NoneStored ==> exists k :: 0 <= k < |A| && FirstFailingCandidate(ln, A, B, corpus, vocab, P, t, j, k, e))
  }

  /**
    `viterbi_forward`: for every token t >= 1 and every tag j, in that order,
    store the best candidate score and its predecessor. Python stops with an
    exception when a candidate cannot be evaluated (the cell is left untouched)
    or when every candidate is `-inf` (the `-inf` is stored, then storing `None`
    as the back-pointer raises a TypeError); `halt` reports that cell.
  */
  method ViterbiForward(ln: real -> real, A: Matrix, B: Matrix, corpus: seq<string>, P0: Table, Q0: Paths,
                        vocab: map<string, nat>) returns (P: Table, Q: Paths, halt: Option<Halt>)
    requires Shaped(A, B, corpus, P0, Q0)
    ensures Shaped(A, B, corpus, P, Q)
    ensures forall j :: 0 <= j < |A| && 0 < |corpus| ==> P[j][0] == P0[j][0] && Q[j][0] == Q0[j][0]
    ensures halt.None? ==>
      forall t, j :: 1 <= t < |corpus| && 0 <= j < |A| ==> Decoded(ln, A, B, corpus, vocab, P, Q, t, j)
    ensures halt.Some? ==> 1 <= halt.value.t < |corpus| && halt.value.j < |A|
    ensures halt.Some? ==>
      forall t, j :: 1 <= t < |corpus| && 0 <= j < |A| && Before(t, j, halt.value.t, halt.value.j) ==>
        Decoded(ln, A, B, corpus, vocab, P, Q, t, j)
    ensures halt.Some? ==>
      forall t, j :: 1 <= t < |corpus| && 0 <= j < |A| && Before(halt.value.t, halt.value.j, t, j) ==>
        P[j][t] == P0[j][t] && Q[j][t] == Q0[j][t]
    ensures halt.Some? ==>
      Q[halt.value.j][halt.value.t] == Q0[halt.value.j][halt.value.t]
    ensures halt.Some? ==> StopsAt(ln, A, B, corpus, vocab, P, halt.value.t, halt.value.j, halt.value.error)
    ensures halt.Some? && halt.value.error == NoneStored ==> P[halt.value.j][halt.value.t] == NegInf
    ensures halt.Some? && halt.value.error != NoneStored ==>
      P[halt.value.j][halt.value.t] == P0[halt.value.j][halt.value.t]
  {
    P, Q, halt := P0, Q0, None;
    var t := 1;
    while t < |corpus|
      invariant 1 <= t && (t <= |corpus| || t == 1)
      invariant Shaped(A, B, corpus, P, Q)
      invariant forall j :: 0 <= j < |A| && 0 < |corpus| ==> P[j][0] == P0[j][0] && Q[j][0] == Q0[j][0]
      invariant forall t', j :: 1 <= t' < t && 0 <= j < |A| ==> Decoded(ln, A, B, corpus, vocab, P, Q, t', j)
      invariant forall t', j :: t <= t' < |corpus| && 0 <= j < |A| ==> P[j][t'] == P0[j][t'] && Q[j][t'] == Q0[j][t']
    {
      var P1, Q1, h := ForwardColumn(ln, A, B, corpus, vocab, P, Q, t);
      forall t', j | 1 <= t' < t && 0 <= j < |A|
        ensures Decoded(ln, A, B, corpus, vocab, P1, Q1, t', j)
      {
        DecodedFrame(ln, A, B, corpus, vocab, P, Q, P1, Q1, t', j);
      }
      P, Q := P1, Q1;
      if h.Some? {
        halt := h;
        return;
      }
      t := t + 1;
    }
  }

  /** Every back-pointer names a tag: the entries lie in [0, n). */
  predicate PointersInRange(paths: Paths, n: nat) {
    forall r, t :: 0 <= r < |paths| && 0 <= t < |paths[r]| ==> 0 <= paths[r][t] < n
  }

  /** The tables `viterbi_backward` reads: N x m scores and back-pointers, N tag names, an m-word corpus. */
  predicate BackwardShaped(probs: Table, paths: Paths, corpus: seq<string>, states: seq<string>) {
    && IsGrid(probs, |states|, |corpus|) && IsGrid(paths, |states|, |corpus|)
    && PointersInRange(paths, |states|)
  }

  /**
    What iteration `i` of step 2 of `viterbi_backward` writes: the back-pointer
    stored at the argmax row of column `i`, as a tag name.
  */
  function ArgmaxPointerTag(probs: Table, paths: Paths, corpus: seq<string>, states: seq<string>, i: nat): (tag: string)
    requires BackwardShaped(probs, paths, corpus, states) && |states| > 0 && i < |corpus|
    ensures tag in states
  {
    states[paths[FirstArgMax(Column(probs, i))][i]]
  }

  /**
    Step 2 of `viterbi_backward`: for i = m-1 down to 0, slot i - 1 gets the
    pointer at the argmax row of column i. Python's index -1 makes iteration
    i = 0 write the last slot, replacing what step 1 stored there.
  */
  method WalkBackward(probs: Table, paths: Paths, corpus: seq<string>, states: seq<string>,
                      pred0: seq<Option<string>>) returns (pred: seq<Option<string>>)
    requires BackwardShaped(probs, paths, corpus, states) && |states| > 0 && |corpus| > 0
    requires |pred0| == |corpus|
    ensures |pred| == |corpus|
    ensures forall s :: 0 <= s < |corpus| - 1 ==> pred[s] == Some(ArgmaxPointerTag(probs, paths, corpus, states, s + 1))
    ensures pred[|corpus| - 1] == Some(ArgmaxPointerTag(probs, paths, corpus, states, 0))
  {
    var m := |corpus|;
    pred := pred0;
    var i := m;
    while i > 0
      invariant 0 <= i <= m && |pred| == m
      invariant forall s :: 0 <= s < m - 1 && i <= s + 1 ==>
        pred[s] == Some(ArgmaxPointerTag(probs, paths, corpus, states, s + 1))
      invariant i == 0 ==> pred[m - 1] == Some(ArgmaxPointerTag(probs, paths, corpus, states, 0))
    {
      i := i - 1;
      var tag := ArgmaxPointerTag(probs, paths, corpus, states, i);
      if i == 0 {
        pred := pred[m - 1 := Some(tag)];
      } else {
        pred := pred[i - 1 := Some(tag)];
      }
    }
  }

  /**
    `viterbi_backward` as written. Step 1 scans the last column but then stores
    `states[k]` with `k` left at N - 1 by the loop; step 2 runs i = m-1 down to 0
    and writes slot i - 1, so iteration i = 0 overwrites the last slot (index -1)
    with the pointer found in column 0. No iteration follows a chain of
    back-pointers: slot i - 1 comes from the argmax of column i alone.
    With no tags the step-1 name `k` was never bound; with no words the
    step-1 scan indexes an empty column.
  */
  method ViterbiBackward(probs: Table, paths: Paths, corpus: seq<string>, states: seq<string>)
    returns (r: Result<seq<string>>)
    requires BackwardShaped(probs, paths, corpus, states)
    ensures r == Failure(UnboundLocal) <==> |states| == 0
    ensures r == Failure(IndexOutOfRange) <==> |states| > 0 && |corpus| == 0
    ensures r.Success? <==> |states| > 0 && |corpus| > 0
    ensures r.Success? ==> |r.value| == |corpus|
    ensures r.Success? ==>
      forall i :: 1 <= i < |corpus| ==> r.value[i - 1] == ArgmaxPointerTag(probs, paths, corpus, states, i)
    ensures r.Success? ==> r.value[|corpus| - 1] == ArgmaxPointerTag(probs, paths, corpus, states, 0)
    ensures r.Success? && (forall j :: 0 <= j < |states| ==> paths[j][0] == 0) ==>
      r.value[|corpus| - 1] == states[0]
  {
    var n, m := |states|, |corpus|;
    if n == 0 {
      return Failure(UnboundLocal);
    }
    if m == 0 {
      return Failure(IndexOutOfRange);
    }
    var pred: seq<Option<string>> := seq(m, _ => None);
    // Step 1: after `for k in range(num_tags)` the name k holds num_tags - 1.
    pred := pred[m - 1 := Some(states[n - 1])];
    pred := WalkBackward(probs, paths, corpus, states, pred);
    var tags := seq(m, s requires 0 <= s < m => pred[s].value);
    assert forall i :: 1 <= i < m ==> tags[i - 1] == ArgmaxPointerTag(probs, paths, corpus, states, i);
    assert tags[m - 1] == ArgmaxPointerTag(probs, paths, corpus, states, 0);
    assert FirstArgMax(Column(probs, 0)) < n;
    r := Success(tags);
  }

  /**
    A decoded tag sequence read back through the pointers: `z[m-1]` is the
    first argmax of the last score column and each earlier `z[i-1]` is the
    pointer stored at row `z[i]` of column `i`.
  */
  predicate IsChain(probs: Table, paths: Paths, corpus: seq<string>, states: seq<string>, z: seq<nat>)
    requires BackwardShaped(probs, paths, corpus, states) && |states| > 0 && |corpus| > 0
  {
    && |z| == |corpus|
    && (forall i :: 0 <= i < |z| ==> z[i] < |states|)
    && z[|z| - 1] == FirstArgMax(Column(probs, |corpus| - 1))
    && (forall i :: 1 <= i < |z| ==> z[i - 1] == paths[z[i]][i])
  }

  /**
    The back-tracking `viterbi_backward` is meant to do: start at the best tag
    for the last word and follow the stored back-pointers to the first word.
  */
  method Backtrack(probs: Table, paths: Paths, corpus: seq<string>, states: seq<string>)
    returns (pred: seq<string>, z: seq<nat>)
    requires BackwardShaped(probs, paths, corpus, states) && |states| > 0 && |corpus| > 0
    ensures IsChain(probs, paths, corpus, states, z)
    ensures |pred| == |corpus|
    ensures forall i :: 0 <= i < |pred| ==> pred[i] == states[z[i]]
  {
    var m := |corpus|;
    var last := FirstArgMax(Column(probs, m - 1));
    z := [last];
    var i := m - 1;
    // z holds the chain for positions i .. m-1
    while i > 0
      invariant 0 <= i < m && |z| == m - i
      invariant forall s :: 0 <= s < |z| ==> z[s] < |states|
      invariant z[|z| - 1] == last
      invariant forall s :: 1 <= s < |z| ==> z[s - 1] == paths[z[s]][s + i]
    {
      var prev := paths[z[0]][i];
      z := [prev as nat] + z;
      i := i - 1;
    }
    pred := seq(m, s requires 0 <= s < m => states[z[s]]);
  }

  /** The chain is determined by the tables: two chains agree from position `i` on. */
  lemma {:induction false} ChainsAgreeFrom(probs: Table, paths: Paths, corpus: seq<string>, states: seq<string>,
                                           z: seq<nat>, z': seq<nat>, i: nat)
    requires BackwardShaped(probs, paths, corpus, states) && |states| > 0 && |corpus| > 0
    requires IsChain(probs, paths, corpus, states, z) && IsChain(probs, paths, corpus, states, z')
    requires i < |corpus|
    ensures forall s :: i <= s < |corpus| ==> z[s] == z'[s]
    decreases |corpus| - i
  {
    if i < |corpus| - 1 {
      ChainsAgreeFrom(probs, paths, corpus, states, z, z', i + 1);
      assert z[i] == paths[z[i + 1]][i + 1];
      assert z'[i] == paths[z'[i + 1]][i + 1];
    }
  }

  /** There is exactly one chain, so `Backtrack`'s output is the only one its contract allows. */
  lemma ChainUnique(probs: Table, paths: Paths, corpus: seq<string>, states: seq<string>, z: seq<nat>, z': seq<nat>)
    requires BackwardShaped(probs, paths, corpus, states) && |states| > 0 && |corpus| > 0
    requires IsChain(probs, paths, corpus, states, z) && IsChain(probs, paths, corpus, states, z')
    ensures z == z'
  {
    ChainsAgreeFrom(probs, paths, corpus, states, z, z', 0);
  }

  /**
    `P`, `Q` are the tables the forward pass completes, without a halt, from the
    ones `initialize` builds: column 0 as seeded, every later cell decoded.
  */
  predicate ForwardFrom(ln: real -> real, states: seq<string>, tagCounts: map<string, nat>, A: Matrix, B: Matrix,
                        corpus: seq<string>, vocab: map<string, nat>, P: Table, Q: Paths)
    requires |states| == |tagCounts| && IsGrid(A, |tagCounts|, |tagCounts|) && |B| == |tagCounts|
  {
    var init := Initialize(ln, states, tagCounts, A, B, corpus, vocab);
    && init.Success?
    && |states| > 0 && |corpus| > 0
    && Shaped(A, B, corpus, P, Q)
    && (forall j :: 0 <= j < |A| ==> P[j][0] == init.value.0[j][0] && Q[j][0] == init.value.1[j][0])
    && (forall t, j :: 1 <= t < |corpus| && 0 <= j < |A| ==> Decoded(ln, A, B, corpus, vocab, P, Q, t, j))
    && BackwardShaped(P, Q, corpus, states)
  }

  /**
    The forward pass, started from the tables `initialize` builds, raises `e`
    at cell (j, t): `P`, `Q` are the tables at that moment, with column 0 as
    seeded and every earlier cell decoded.
  */
  predicate HaltsAt(ln: real -> real, states: seq<string>, tagCounts: map<string, nat>, A: Matrix, B: Matrix,
                    corpus: seq<string>, vocab: map<string, nat>, P: Table, Q: Paths, t: nat, j: nat, e: Error)
    requires |states| == |tagCounts| && IsGrid(A, |tagCounts|, |tagCounts|) && |B| == |tagCounts|
  {
    var init := Initialize(ln, states, tagCounts, A, B, corpus, vocab);
    && init.Success?
    && Shaped(A, B, corpus, P, Q)
    && 1 <= t < |corpus| && j < |A|
    && (forall j' :: 0 <= j' < |A| ==> P[j'][0] == init.value.0[j'][0] && Q[j'][0] == init.value.1[j'][0])
    && (forall t', j' :: 1 <= t' < |corpus| && 0 <= j' < |A| && Before(t', j', t, j) ==>
          Decoded(ln, A, B, corpus, vocab, P, Q, t', j'))
    && StopsAt(ln, A, B, corpus, vocab, P, t, j, e)
  }

  /** `tags` names the pointer chain `z` through tables the forward pass completed. */
  predicate DecodesTo(ln: real -> real, states: seq<string>, tagCounts: map<string, nat>, A: Matrix, B: Matrix,
                      corpus: seq<string>, vocab: map<string, nat>, P: Table, Q: Paths, z: seq<nat>, tags: seq<string>)
    requires |states| == |tagCounts| && IsGrid(A, |tagCounts|, |tagCounts|) && |B| == |tagCounts|
  {
    && ForwardFrom(ln, states, tagCounts, A, B, corpus, vocab, P, Q)
    && IsChain(P, Q, corpus, states, z)
    && tags == seq(|z|, i requires 0 <= i < |z| => states[z[i]])
  }

  /**
    `tags` is what `viterbi_backward` as written returns on tables the forward
    pass completed: slot i - 1 from the argmax row of column i, the last slot
    from the argmax row of column 0.
  */
  predicate AsWrittenFrom(ln: real -> real, states: seq<string>, tagCounts: map<string, nat>, A: Matrix, B: Matrix,
                          corpus: seq<string>, vocab: map<string, nat>, P: Table, Q: Paths, tags: seq<string>)
    requires |states| == |tagCounts| && IsGrid(A, |tagCounts|, |tagCounts|) && |B| == |tagCounts|
  {
    && ForwardFrom(ln, states, tagCounts, A, B, corpus, vocab, P, Q)
    && |tags| == |corpus|
    && (forall i :: 1 <= i < |corpus| ==> tags[i - 1] == ArgmaxPointerTag(P, Q, corpus, states, i))
    && tags[|corpus| - 1] == ArgmaxPointerTag(P, Q, corpus, states, 0)
  }

  /**
    The decoder as the program runs it: `initialize`, `viterbi_forward`, then
    `viterbi_backward` as written. Whenever it returns, its last tag is
    `states[0]`, whatever the sentence: `initialize` leaves column 0 of the
    back-pointers at 0 and the forward pass never changes it.
  */
  method DecodeAsWritten(ln: real -> real, states: seq<string>, tagCounts: map<string, nat>, A: Matrix, B: Matrix,
                         corpus: seq<string>, vocab: map<string, nat>) returns (r: Result<seq<string>>)
    requires |states| == |tagCounts| && IsGrid(A, |tagCounts|, |tagCounts|) && |B| == |tagCounts|
    ensures StartTag !in states ==> r == Failure(NotInList)
    ensures Initialize(ln, states, tagCounts, A, B, corpus, vocab).Failure? ==>
      r == Failure(Initialize(ln, states, tagCounts, A, B, corpus, vocab).error)
    ensures Initialize(ln, states, tagCounts, A, B, corpus, vocab).Success? && r.Failure? ==>
      exists P: Table, Q: Paths, t: nat, j: nat :: HaltsAt(ln, states, tagCounts, A, B, corpus, vocab, P, Q, t, j, r.error)
    ensures r.Success? ==> |states| > 0 && |r.value| == |corpus| > 0 && r.value[|corpus| - 1] == states[0]
    ensures r.Success? ==>
      exists P: Table, Q: Paths :: AsWrittenFrom(ln, states, tagCounts, A, B, corpus, vocab, P, Q, r.value)
  {
    var init := Initialize(ln, states, tagCounts, A, B, corpus, vocab);
    if init.Failure? {
      return Failure(init.error);
    }
    var (P0, Q0) := init.value;
    var P, Q, halt := ViterbiForward(ln, A, B, corpus, P0, Q0, vocab);
    if halt.Some? {
      assert HaltsAt(ln, states, tagCounts, A, B, corpus, vocab, P, Q, halt.value.t, halt.value.j, halt.value.error);
      return Failure(halt.value.error);
    }
    PointersFromForward(ln, states, tagCounts, A, B, corpus, vocab, P, Q);
    r := ViterbiBackward(P, Q, corpus, states);
    assert AsWrittenFrom(ln, states, tagCounts, A, B, corpus, vocab, P, Q, r.value);
  }

  /**
    Completed forward tables hold pointers in range: column 0 from
    `initialize` is all 0, and every later pointer is a predecessor index.
  */
  lemma PointersFromForward(ln: real -> real, states: seq<string>, tagCounts: map<string, nat>, A: Matrix, B: Matrix,
                            corpus: seq<string>, vocab: map<string, nat>, P: Table, Q: Paths)
    requires |states| == |tagCounts| && IsGrid(A, |tagCounts|, |tagCounts|) && |B| == |tagCounts|
    requires Initialize(ln, states, tagCounts, A, B, corpus, vocab).Success?
    requires Shaped(A, B, corpus, P, Q)
    requires forall j :: 0 <= j < |A| && 0 < |corpus| ==>
      Q[j][0] == Initialize(ln, states, tagCounts, A, B, corpus, vocab).value.1[j][0]
    requires forall t, j :: 1 <= t < |corpus| && 0 <= j < |A| ==> Decoded(ln, A, B, corpus, vocab, P, Q, t, j)
    ensures |states| > 0 && |corpus| > 0
    ensures BackwardShaped(P, Q, corpus, states)
    ensures forall j :: 0 <= j < |states| ==> Q[j][0] == 0
  {
    forall j, t | 0 <= j < |Q| && 0 <= t < |Q[j]|
      ensures 0 <= Q[j][t] < |states|
    {
      if t > 0 {
        assert Decoded(ln, A, B, corpus, vocab, P, Q, t, j);
      }
    }
  }

  /**
    A two-word sentence: tags ["--s--", "NN", "VB"], words ["dog", "runs"],
    every transition 1.0, and `ln` standing for `x - 10`.
  */
  const ExampleLn: real -> real := x => x - 10.0
  const ExampleStates: seq<string> := [StartTag, "NN", "VB"]
  const ExampleTagCounts: map<string, nat> := map[StartTag := 1, "NN" := 1, "VB" := 1]
  const ExampleA: Matrix := [[1.0, 1.0, 1.0], [1.0, 1.0, 1.0], [1.0, 1.0, 1.0]]
  const ExampleB: Matrix := [[14.0, 11.0], [18.0, 15.0], [12.0, 18.0]]
  const ExampleCorpus: seq<string> := ["dog", "runs"]
  const ExampleVocab: map<string, nat> := map["dog" := 0, "runs" := 1]

  /** `initialize` on the example seeds column 0 with [-5, -1, -7]. */
  lemma ExampleInitialize()
    ensures |ExampleTagCounts| == 3
    ensures Initialize(ExampleLn, ExampleStates, ExampleTagCounts, ExampleA, ExampleB, ExampleCorpus, ExampleVocab).Success?
    ensures var P0 := Initialize(ExampleLn, ExampleStates, ExampleTagCounts, ExampleA, ExampleB, ExampleCorpus,
                                 ExampleVocab).value.0;
      P0[0][0] == Fin(-5.0) && P0[1][0] == Fin(-1.0) && P0[2][0] == Fin(-7.0)
  {
    assert ExampleStates[1] == "NN";
    assert ExampleTagCounts.Keys == {StartTag, "NN", "VB"};
    assert IndexOf(ExampleStates, StartTag) == Some(0);
  }

  /**
    On the example, every column-1 candidate evaluates, and the one from NN
    (row 1) is the strict maximum: `best_probs[1, 0]` is -1 against -5 and -7.
  */
  lemma ExampleCandidates(P: Table, j: nat)
    requires ScoresShaped(ExampleA, ExampleB, ExampleCorpus, P) && j < 3
    requires P[0][0] == Fin(-5.0) && P[1][0] == Fin(-1.0) && P[2][0] == Fin(-7.0)
    ensures AllCandidatesDefined(ExampleLn, ExampleA, ExampleB, ExampleCorpus, ExampleVocab, P, 1, j, 3)
    ensures Candidate(ExampleLn, ExampleA, ExampleB, ExampleCorpus, ExampleVocab, P, 1, j, 0).value == Fin(ExampleB[j][1] - 24.0)
    ensures Candidate(ExampleLn, ExampleA, ExampleB, ExampleCorpus, ExampleVocab, P, 1, j, 1).value == Fin(ExampleB[j][1] - 20.0)
    ensures Candidate(ExampleLn, ExampleA, ExampleB, ExampleCorpus, ExampleVocab, P, 1, j, 2).value == Fin(ExampleB[j][1] - 26.0)
  {
    assert ExampleCorpus[1] == "runs";
  }

  /** Hence the forward pass cannot stop on the example: no cell meets either stopping condition. */
  lemma ExampleNeverStops(P: Table)
    requires ScoresShaped(ExampleA, ExampleB, ExampleCorpus, P)
    requires P[0][0] == Fin(-5.0) && P[1][0] == Fin(-1.0) && P[2][0] == Fin(-7.0)
    ensures forall t, j, e :: 1 <= t < 2 && j < 3 ==>
      !StopsAt(ExampleLn, ExampleA, ExampleB, ExampleCorpus, ExampleVocab, P, t, j, e)
  {
    forall t, j, e | 1 <= t < 2 && j < 3
      ensures !StopsAt(ExampleLn, ExampleA, ExampleB, ExampleCorpus, ExampleVocab, P, t, j, e)
    {
      ExampleCandidates(P, j);
    }
  }

  /** So each column-1 cell is reached from NN, with score `B[j][1] - 20`: [-9, -5, -2]. */
  lemma ExampleColumnOne(P: Table, Q: Paths, j: nat)
    requires Shaped(ExampleA, ExampleB, ExampleCorpus, P, Q) && j < 3
    requires P[0][0] == Fin(-5.0) && P[1][0] == Fin(-1.0) && P[2][0] == Fin(-7.0)
    requires Decoded(ExampleLn, ExampleA, ExampleB, ExampleCorpus, ExampleVocab, P, Q, 1, j)
    ensures Q[j][1] == 1 && P[j][1] == Fin(ExampleB[j][1] - 20.0)
  {
    ExampleCandidates(P, j);
  }

  /**
    On the example's completed tables the argmax of column 1 is VB (row 2),
    whose pointer is NN; the argmax of column 0 is NN, whose pointer is 0.
  */
  lemma ExampleArgmaxes(P: Table, Q: Paths)
    requires BackwardShaped(P, Q, ExampleCorpus, ExampleStates)
    requires P[0][0] == Fin(-5.0) && P[1][0] == Fin(-1.0) && P[2][0] == Fin(-7.0)
    requires forall j :: 0 <= j < 3 ==> Q[j][1] == 1 && P[j][1] == Fin(ExampleB[j][1] - 20.0)
    requires forall j :: 0 <= j < 3 ==> Q[j][0] == 0
    ensures FirstArgMax(Column(P, 1)) == 2
    ensures ArgmaxPointerTag(P, Q, ExampleCorpus, ExampleStates, 1) == "NN"
    ensures ArgmaxPointerTag(P, Q, ExampleCorpus, ExampleStates, 0) == StartTag
  {
    assert Column(P, 0) == [Fin(-5.0), Fin(-1.0), Fin(-7.0)];
    assert Column(P, 1) == [Fin(-9.0), Fin(-5.0), Fin(-2.0)];
    FirstArgMaxUnique(Column(P, 0), 1);
    FirstArgMaxUnique(Column(P, 1), 2);
  }

  /**
    The example's tables after `initialize` and a forward pass that does not
    stop: column 0 scores [-5, -1, -7], column 1 scores [-9, -5, -2], each
    column-1 cell reached from NN.
  */
  method ExampleTables() returns (P: Table, Q: Paths)
    ensures |ExampleTagCounts| == 3
    ensures ForwardFrom(ExampleLn, ExampleStates, ExampleTagCounts, ExampleA, ExampleB, ExampleCorpus, ExampleVocab, P, Q)
    ensures P[0][0] == Fin(-5.0) && P[1][0] == Fin(-1.0) && P[2][0] == Fin(-7.0)
    ensures forall j :: 0 <= j < 3 ==> Q[j][1] == 1 && P[j][1] == Fin(ExampleB[j][1] - 20.0)
    ensures forall j :: 0 <= j < 3 ==> Q[j][0] == 0
  {
    ExampleInitialize();
    var (P0, Q0) := Initialize(ExampleLn, ExampleStates, ExampleTagCounts, ExampleA, ExampleB, ExampleCorpus,
                               ExampleVocab).value;
    var halt;
    P, Q, halt := ViterbiForward(ExampleLn, ExampleA, ExampleB, ExampleCorpus, P0, Q0, ExampleVocab);
    ExampleNeverStops(P);
    ExampleColumnOne(P, Q, 0);
    ExampleColumnOne(P, Q, 1);
    ExampleColumnOne(P, Q, 2);
    PointersFromForward(ExampleLn, ExampleStates, ExampleTagCounts, ExampleA, ExampleB, ExampleCorpus, ExampleVocab, P, Q);
  }

  /**
    The example run through the pipeline. The best path is NN then VB. The
    code as written returns ["NN", "--s--"]; back-tracking returns ["NN", "VB"].
  */
  method LastTagCounterexample() returns (asWritten: Result<seq<string>>, intended: seq<string>)
    ensures asWritten == Success(["NN", StartTag])
    ensures intended == ["NN", "VB"]
  {
    var P, Q := ExampleTables();
    ExampleArgmaxes(P, Q);
    asWritten := ViterbiBackward(P, Q, ExampleCorpus, ExampleStates);
    assert asWritten.value == ["NN", StartTag];
    var z;
    intended, z := Backtrack(P, Q, ExampleCorpus, ExampleStates);
  }

  /**
    The whole decoder with the back-tracking repaired: `initialize`, then
    `viterbi_forward`, then `Backtrack`. Any exception of the first two stages
    is passed on.
  */
  method Decode(ln: real -> real, states: seq<string>, tagCounts: map<string, nat>, A: Matrix, B: Matrix,
                corpus: seq<string>, vocab: map<string, nat>) returns (r: Result<seq<string>>)
    requires |states| == |tagCounts| && IsGrid(A, |tagCounts|, |tagCounts|) && |B| == |tagCounts|
    ensures StartTag !in states ==> r == Failure(NotInList)
    ensures Initialize(ln, states, tagCounts, A, B, corpus, vocab).Failure? ==>
      r == Failure(Initialize(ln, states, tagCounts, A, B, corpus, vocab).error)
    ensures Initialize(ln, states, tagCounts, A, B, corpus, vocab).Success? && r.Failure? ==>
      exists P: Table, Q: Paths, t: nat, j: nat :: HaltsAt(ln, states, tagCounts, A, B, corpus, vocab, P, Q, t, j, r.error)
    ensures r.Success? ==> |r.value| == |corpus| > 0
    ensures r.Success? ==> forall i :: 0 <= i < |r.value| ==> r.value[i] in states
    ensures r.Success? ==>
      exists P: Table, Q: Paths, z: seq<nat> :: DecodesTo(ln, states, tagCounts, A, B, corpus, vocab, P, Q, z, r.value)
  {
    var init := Initialize(ln, states, tagCounts, A, B, corpus, vocab);
    if init.Failure? {
      return Failure(init.error);
    }
    var (P0, Q0) := init.value;
    var P, Q, halt := ViterbiForward(ln, A, B, corpus, P0, Q0, vocab);
    if halt.Some? {
      assert HaltsAt(ln, states, tagCounts, A, B, corpus, vocab, P, Q, halt.value.t, halt.value.j, halt.value.error);
      return Failure(halt.value.error);
    }
    PointersFromForward(ln, states, tagCounts, A, B, corpus, vocab, P, Q);
    var pred, z := Backtrack(P, Q, corpus, states);
    r := Success(pred);
    assert DecodesTo(ln, states, tagCounts, A, B, corpus, vocab, P, Q, z, r.value);
  }
}
