/**
  Construction of the transition matrix A (tag x tag) and the emission matrix B
  (tag x word) with additive smoothing. Probabilities are exact reals.
*/
module HiddenMarkovModel {
  import opened Results
  import opened StringOrder
  import opened Tables

  type Matrix = seq<seq<real>>

  /** A sparse count table: an absent key counts as 0. */
  function CountOf(counts: map<(string, string), nat>, key: (string, string)): nat {
    if key in counts then counts[key] else 0
  }

  /** The shared denominator of one smoothed row. */
  function Denominator(alpha: real, rowTotal: nat, numColumns: nat): real {
    rowTotal as real + alpha * numColumns as real
  }

  /** Some cell of a matrix with these rows and this many columns would divide by zero. */
  predicate DividesByZero(alpha: real, tagCounts: map<string, nat>, rowTags: seq<string>, numColumns: nat)
    requires forall i :: 0 <= i < |rowTags| ==> rowTags[i] in tagCounts
  {
    numColumns > 0 &&
    exists i :: 0 <= i < |rowTags| && Denominator(alpha, tagCounts[rowTags[i]], numColumns) == 0.0
  }

  /** Cell (i, j) is the row's count for `columns[j]` plus alpha, over the row's non-zero denominator. */
  predicate CellIs(m: Matrix, alpha: real, tagCounts: map<string, nat>, counts: map<(string, string), nat>,
                   rowTags: seq<string>, columns: seq<string>, i: nat, j: nat)
    requires forall i :: 0 <= i < |rowTags| ==> rowTags[i] in tagCounts
    requires IsGrid(m, |rowTags|, |columns|) && i < |rowTags| && j < |columns|
  {
    var d := Denominator(alpha, tagCounts[rowTags[i]], |columns|);
    d != 0.0 && m[i][j] == (CountOf(counts, (rowTags[i], columns[j])) as real + alpha) / d
  }

  /** `m` is the additively smoothed matrix with rows `rowTags` and columns `columns`. */
  predicate IsSmoothed(m: Matrix, alpha: real, tagCounts: map<string, nat>, counts: map<(string, string), nat>,
                       rowTags: seq<string>, columns: seq<string>)
    requires forall i :: 0 <= i < |rowTags| ==> rowTags[i] in tagCounts
  {
    IsGrid(m, |rowTags|, |columns|) &&
    forall i, j :: 0 <= i < |rowTags| && 0 <= j < |columns| ==>
      CellIs(m, alpha, tagCounts, counts, rowTags, columns, i, j)
  }

  /**
    One row of a smoothed matrix, filled column by column: cell j is the count of
    `(tag, columns[j])` plus alpha over `rowTotal + alpha * numColumns`.
  */
  function FillRow(alpha: real, rowTotal: nat, counts: map<(string, string), nat>, tag: string,
                   columns: seq<string>, numColumns: nat): (row: seq<real>)
    requires Denominator(alpha, rowTotal, numColumns) != 0.0
    ensures |row| == |columns|
    ensures forall j :: 0 <= j < |columns| ==>
      row[j] == (CountOf(counts, (tag, columns[j])) as real + alpha) / Denominator(alpha, rowTotal, numColumns)
  {
    if |columns| == 0 then []
    else
      FillRow(alpha, rowTotal, counts, tag, columns[..|columns| - 1], numColumns)
      + [(CountOf(counts, (tag, columns[|columns| - 1])) as real + alpha) / Denominator(alpha, rowTotal, numColumns)]
  }

  /** The rows of a smoothed matrix, filled row by row. */
  function FillRows(alpha: real, tagCounts: map<string, nat>, counts: map<(string, string), nat>,
                    rowTags: seq<string>, columns: seq<string>): (m: Matrix)
    requires forall i :: 0 <= i < |rowTags| ==> rowTags[i] in tagCounts
    requires !DividesByZero(alpha, tagCounts, rowTags, |columns|)
    ensures IsSmoothed(m, alpha, tagCounts, counts, rowTags, columns)
  {
    if |rowTags| == 0 then []
    else
      var last := rowTags[|rowTags| - 1];
      var rows := FillRows(alpha, tagCounts, counts, rowTags[..|rowTags| - 1], columns);
      if |columns| == 0 then rows + [[]]
      else
        var m := rows + [FillRow(alpha, tagCounts[last], counts, last, columns, |columns|)];
        assert IsSmoothed(m, alpha, tagCounts, counts, rowTags, columns) by {
          forall i, j | 0 <= i < |rowTags| && 0 <= j < |columns|
            ensures CellIs(m, alpha, tagCounts, counts, rowTags, columns, i, j)
          {
            if i < |rowTags| - 1 {
              assert CellIs(rows, alpha, tagCounts, counts, rowTags[..|rowTags| - 1], columns, i, j);
            }
          }
        }
        m
  }

  /**
    The dense smoothed matrix both builders fill: row i is `rowTags[i]`, column j is
    `columns[j]`, cell (i, j) is `(count + alpha) / (rowTotal + alpha * |columns|)`.
    Python raises ZeroDivisionError at the first cell whose denominator is zero.
  */
  function SmoothedMatrix(alpha: real, tagCounts: map<string, nat>, counts: map<(string, string), nat>,
                          rowTags: seq<string>, columns: seq<string>): (r: Result<Matrix>)
    requires forall i :: 0 <= i < |rowTags| ==> rowTags[i] in tagCounts
    ensures r.Failure? <==> DividesByZero(alpha, tagCounts, rowTags, |columns|)
    ensures r.Failure? ==> r.error == ZeroDivision
    ensures r.Success? ==> IsSmoothed(r.value, alpha, tagCounts, counts, rowTags, columns)
  {
    if DividesByZero(alpha, tagCounts, rowTags, |columns|) then Failure(ZeroDivision)
    else Success(FillRows(alpha, tagCounts, counts, rowTags, columns))
  }

  /** The row tags both builders use: `sorted(tag_counts.keys())`. */
  function AllTags(tagCounts: map<string, nat>): (tags: seq<string>)
    ensures |tags| == |tagCounts|
    ensures forall i :: 0 <= i < |tags| ==> tags[i] in tagCounts
    ensures forall t :: t in tagCounts ==> t in tags
  {
    assert |tagCounts.Keys| == |tagCounts|;
    SortedKeys(tagCounts.Keys)
  }

  /** The row tags are in increasing order, and no other listing of the keys is. */
  lemma AllTagsSorted(tagCounts: map<string, nat>, t: seq<string>)
    ensures StrictlySorted(AllTags(tagCounts))
    ensures StrictlySorted(t) && (forall x :: x in t <==> x in tagCounts) ==> t == AllTags(tagCounts)
  {
    SortedKeysSorted(tagCounts.Keys);
    if StrictlySorted(t) && (forall x :: x in t <==> x in tagCounts) {
      SortedKeysCharacterized(tagCounts.Keys, t);
    }
  }

  /** `create_transition_matrix`: an N x N matrix over the sorted tags. */
  function CreateTransitionMatrix(alpha: real, tagCounts: map<string, nat>,
                                  transitionCounts: map<(string, string), nat>): (r: Result<Matrix>)
    ensures var tags := AllTags(tagCounts);
      && (r.Failure? <==> DividesByZero(alpha, tagCounts, tags, |tags|))
      && (r.Failure? ==> r.error == ZeroDivision)
      && (r.Success? ==> IsSmoothed(r.value, alpha, tagCounts, transitionCounts, tags, tags))
  {
    SmoothedMatrix(alpha, tagCounts, transitionCounts, AllTags(tagCounts), AllTags(tagCounts))
  }

  /**
    `create_emission_matrix`: an N x V matrix; column j is the word `vocab[j]`
    (the vocabulary is passed as a list, in index order).
  */
  function CreateEmissionMatrix(alpha: real, tagCounts: map<string, nat>,
                                emissionCounts: map<(string, string), nat>, vocab: seq<string>): (r: Result<Matrix>)
    ensures var tags := AllTags(tagCounts);
      && (r.Failure? <==> DividesByZero(alpha, tagCounts, tags, |vocab|))
      && (r.Failure? ==> r.error == ZeroDivision)
      && (r.Success? ==> IsSmoothed(r.value, alpha, tagCounts, emissionCounts, tags, vocab))
  {
    SmoothedMatrix(alpha, tagCounts, emissionCounts, AllTags(tagCounts), vocab)
  }
}

module SmoothingProperties {
  import opened Results
  import opened StringOrder
  import opened HiddenMarkovModel
  import opened RowSums

  /** The raw counts of row `tag`, one per column, absent keys as 0. */
  function RowCounts(counts: map<(string, string), nat>, tag: string, columns: seq<string>): (cs: seq<nat>)
    ensures |cs| == |columns|
    ensures forall j :: 0 <= j < |columns| ==> cs[j] == CountOf(counts, (tag, columns[j]))
  {
    seq(|columns|, j requires 0 <= j < |columns| => CountOf(counts, (tag, columns[j])))
  }

  /** S_i: the sum of row `tag`'s raw counts over the columns. */
  function RowCountSum(counts: map<(string, string), nat>, tag: string, columns: seq<string>): nat {
    SumCounts(RowCounts(counts, tag, columns))
  }


  /** With alpha > 0 and non-negative counts every denominator is positive. */
  lemma PositiveAlphaNeverDivides(alpha: real, tagCounts: map<string, nat>, rowTags: seq<string>, numColumns: nat)
    requires alpha > 0.0
    requires forall i :: 0 <= i < |rowTags| ==> rowTags[i] in tagCounts
    ensures !DividesByZero(alpha, tagCounts, rowTags, numColumns)
    ensures numColumns > 0 ==> forall i :: 0 <= i < |rowTags| ==>
      Denominator(alpha, tagCounts[rowTags[i]], numColumns) > 0.0
  {
  }

  lemma DivideMonotone(x: real, y: real, d: real)
    requires d > 0.0
    ensures x / d <= y / d <==> x <= y
  {
    assert x / d * d == x && y / d * d == y;
    if x / d <= y / d {
      assert (x / d) * d <= (y / d) * d;
    }
    if x <= y {
      assert (y - x) / d >= 0.0;
      assert y / d - x / d == (y - x) / d;
    }
  }

  lemma SmoothedPositive(m: Matrix, alpha: real, tagCounts: map<string, nat>, counts: map<(string, string), nat>,
                         rowTags: seq<string>, columns: seq<string>)
    requires alpha > 0.0
    requires forall i :: 0 <= i < |rowTags| ==> rowTags[i] in tagCounts
    requires IsSmoothed(m, alpha, tagCounts, counts, rowTags, columns)
    ensures forall i, j :: 0 <= i < |rowTags| && 0 <= j < |columns| ==> m[i][j] > 0.0
  {
    forall i, j | 0 <= i < |rowTags| && 0 <= j < |columns|
      ensures m[i][j] > 0.0
    {
      assert CellIs(m, alpha, tagCounts, counts, rowTags, columns, i, j);
      PositiveAlphaNeverDivides(alpha, tagCounts, rowTags, |columns|);
    }
  }

  lemma SmoothedRowOrder(m: Matrix, alpha: real, tagCounts: map<string, nat>, counts: map<(string, string), nat>,
                         rowTags: seq<string>, columns: seq<string>, i: nat, j: nat, j': nat)
    requires alpha > 0.0
    requires forall i :: 0 <= i < |rowTags| ==> rowTags[i] in tagCounts
    requires IsSmoothed(m, alpha, tagCounts, counts, rowTags, columns)
    requires i < |rowTags| && j < |columns| && j' < |columns|
    ensures m[i][j] <= m[i][j'] <==>
      CountOf(counts, (rowTags[i], columns[j])) <= CountOf(counts, (rowTags[i], columns[j']))
  {
    PositiveAlphaNeverDivides(alpha, tagCounts, rowTags, |columns|);
    var d := Denominator(alpha, tagCounts[rowTags[i]], |columns|);
    assert CellIs(m, alpha, tagCounts, counts, rowTags, columns, i, j);
    assert CellIs(m, alpha, tagCounts, counts, rowTags, columns, i, j');
    DivideMonotone(CountOf(counts, (rowTags[i], columns[j])) as real + alpha,
                   CountOf(counts, (rowTags[i], columns[j'])) as real + alpha, d);
  }

  lemma SmoothedUnseen(m: Matrix, alpha: real, tagCounts: map<string, nat>, counts: map<(string, string), nat>,
                       rowTags: seq<string>, columns: seq<string>, i: nat, j: nat)
    requires forall i :: 0 <= i < |rowTags| ==> rowTags[i] in tagCounts
    requires IsSmoothed(m, alpha, tagCounts, counts, rowTags, columns)
    requires i < |rowTags| && j < |columns|
    requires (rowTags[i], columns[j]) !in counts
    ensures var d := Denominator(alpha, tagCounts[rowTags[i]], |columns|);
      d != 0.0 && m[i][j] == alpha / d
  {
    assert CellIs(m, alpha, tagCounts, counts, rowTags, columns, i, j);
  }

  lemma SmoothedRowIsSmoothed(m: Matrix, alpha: real, tagCounts: map<string, nat>,
                              counts: map<(string, string), nat>, rowTags: seq<string>, columns: seq<string>, i: nat)
    requires forall i :: 0 <= i < |rowTags| ==> rowTags[i] in tagCounts
    requires IsSmoothed(m, alpha, tagCounts, counts, rowTags, columns)
    requires i < |rowTags| && |columns| > 0
    ensures var d := Denominator(alpha, tagCounts[rowTags[i]], |columns|);
      d != 0.0 && SmoothedRow(alpha, RowCounts(counts, rowTags[i], columns), m[i], d)
  {
    var d := Denominator(alpha, tagCounts[rowTags[i]], |columns|);
    var cs := RowCounts(counts, rowTags[i], columns);
    assert CellIs(m, alpha, tagCounts, counts, rowTags, columns, i, 0);
    forall j | 0 <= j < |m[i]|
      ensures m[i][j] == (cs[j] as real + alpha) / d
    {
      assert CellIs(m, alpha, tagCounts, counts, rowTags, columns, i, j);
    }
  }

  lemma SmoothedRowSum(m: Matrix, alpha: real, tagCounts: map<string, nat>, counts: map<(string, string), nat>,
                       rowTags: seq<string>, columns: seq<string>, i: nat)
    requires forall i :: 0 <= i < |rowTags| ==> rowTags[i] in tagCounts
    requires IsSmoothed(m, alpha, tagCounts, counts, rowTags, columns)
    requires i < |rowTags| && |columns| > 0
    ensures Denominator(alpha, tagCounts[rowTags[i]], |columns|) != 0.0
    ensures Sum(m[i]) == (RowCountSum(counts, rowTags[i], columns) as real + alpha * |columns| as real)
                         / Denominator(alpha, tagCounts[rowTags[i]], |columns|)
    ensures Sum(m[i]) == 1.0 <==> RowCountSum(counts, rowTags[i], columns) == tagCounts[rowTags[i]]
  {
    SmoothedRowIsSmoothed(m, alpha, tagCounts, counts, rowTags, columns, i);
    SmoothedRowTotal(alpha, RowCounts(counts, rowTags[i], columns), m[i],
                     Denominator(alpha, tagCounts[rowTags[i]], |columns|), tagCounts[rowTags[i]] as real);
  }

  lemma SmoothedIgnoresOtherKeys(alpha: real, tagCounts: map<string, nat>,
                                 counts: map<(string, string), nat>, counts': map<(string, string), nat>,
                                 rowTags: seq<string>, columns: seq<string>)
    requires forall i :: 0 <= i < |rowTags| ==> rowTags[i] in tagCounts
    requires forall i, j :: 0 <= i < |rowTags| && 0 <= j < |columns| ==>
      CountOf(counts, (rowTags[i], columns[j])) == CountOf(counts', (rowTags[i], columns[j]))
    ensures SmoothedMatrix(alpha, tagCounts, counts, rowTags, columns)
         == SmoothedMatrix(alpha, tagCounts, counts', rowTags, columns)
  {
    var r := SmoothedMatrix(alpha, tagCounts, counts, rowTags, columns);
    var r' := SmoothedMatrix(alpha, tagCounts, counts', rowTags, columns);
    if r.Success? {
      forall i | 0 <= i < |rowTags|
        ensures r.value[i] == r'.value[i]
      {
        forall j | 0 <= j < |columns|
          ensures r.value[i][j] == r'.value[i][j]
        {
          assert CellIs(r.value, alpha, tagCounts, counts, rowTags, columns, i, j);
          assert CellIs(r'.value, alpha, tagCounts, counts', rowTags, columns, i, j);
        }
      }
      assert r.value == r'.value;
    }
  }

  /** Every transition probability is strictly positive, seen pair or not. */
  lemma TransitionPositive(alpha: real, tagCounts: map<string, nat>, transitionCounts: map<(string, string), nat>)
    requires alpha > 0.0
    ensures var r := CreateTransitionMatrix(alpha, tagCounts, transitionCounts);
      r.Success? && forall i, j :: 0 <= i < |tagCounts| && 0 <= j < |tagCounts| ==> r.value[i][j] > 0.0
  {
    var tags := AllTags(tagCounts);
    PositiveAlphaNeverDivides(alpha, tagCounts, tags, |tags|);
    SmoothedPositive(CreateTransitionMatrix(alpha, tagCounts, transitionCounts).value,
                     alpha, tagCounts, transitionCounts, tags, tags);
  }

  /**
    Within a row, transition probabilities are ordered as their counts, and every
    pair never seen after tag i gets the same value alpha / (C_i + alpha * N).
  */
  lemma TransitionRowOrder(alpha: real, tagCounts: map<string, nat>, transitionCounts: map<(string, string), nat>,
                           i: nat, j: nat, j': nat)
    requires alpha > 0.0
    requires i < |tagCounts| && j < |tagCounts| && j' < |tagCounts|
    ensures var tags := AllTags(tagCounts);
      var r := CreateTransitionMatrix(alpha, tagCounts, transitionCounts);
      && r.Success?
      && (r.value[i][j] <= r.value[i][j'] <==>
            CountOf(transitionCounts, (tags[i], tags[j])) <= CountOf(transitionCounts, (tags[i], tags[j'])))
      && ((tags[i], tags[j]) !in transitionCounts ==>
            r.value[i][j] == alpha / Denominator(alpha, tagCounts[tags[i]], |tags|))
  {
    var tags := AllTags(tagCounts);
    PositiveAlphaNeverDivides(alpha, tagCounts, tags, |tags|);
    var m := CreateTransitionMatrix(alpha, tagCounts, transitionCounts).value;
    SmoothedRowOrder(m, alpha, tagCounts, transitionCounts, tags, tags, i, j, j');
    if (tags[i], tags[j]) !in transitionCounts {
      SmoothedUnseen(m, alpha, tagCounts, transitionCounts, tags, tags, i, j);
    }
  }

  /**
    Row i of A sums to (S_i + alpha * N) / (C_i + alpha * N), S_i being the row's
    transition counts; it is exactly 1 iff S_i equals the tag count C_i.
  */
  lemma TransitionRowSum(alpha: real, tagCounts: map<string, nat>, transitionCounts: map<(string, string), nat>,
                         a: Matrix, i: nat)
    requires CreateTransitionMatrix(alpha, tagCounts, transitionCounts) == Success(a)
    requires i < |tagCounts|
    ensures Denominator(alpha, tagCounts[AllTags(tagCounts)[i]], |AllTags(tagCounts)|) != 0.0
    ensures Sum(a[i]) ==
      (RowCountSum(transitionCounts, AllTags(tagCounts)[i], AllTags(tagCounts)) as real + alpha * |AllTags(tagCounts)| as real)
      / Denominator(alpha, tagCounts[AllTags(tagCounts)[i]], |AllTags(tagCounts)|)
    ensures Sum(a[i]) == 1.0 <==>
      RowCountSum(transitionCounts, AllTags(tagCounts)[i], AllTags(tagCounts)) == tagCounts[AllTags(tagCounts)[i]]
  {
    SmoothedRowSum(a, alpha, tagCounts, transitionCounts, AllTags(tagCounts), AllTags(tagCounts), i);
  }

  /** Counts keyed by a tag outside `tag_counts` never reach the transition matrix. */
  lemma TransitionIgnoresOtherKeys(alpha: real, tagCounts: map<string, nat>,
                                   transitionCounts: map<(string, string), nat>,
                                   transitionCounts': map<(string, string), nat>)
    requires forall a, b :: a in tagCounts && b in tagCounts ==>
      CountOf(transitionCounts, (a, b)) == CountOf(transitionCounts', (a, b))
    ensures CreateTransitionMatrix(alpha, tagCounts, transitionCounts)
         == CreateTransitionMatrix(alpha, tagCounts, transitionCounts')
  {
    var tags := AllTags(tagCounts);
    SmoothedIgnoresOtherKeys(alpha, tagCounts, transitionCounts, transitionCounts', tags, tags);
  }

  /** Every emission probability is strictly positive, seen (tag, word) pair or not. */
  lemma EmissionPositive(alpha: real, tagCounts: map<string, nat>, emissionCounts: map<(string, string), nat>,
                         vocab: seq<string>)
    requires alpha > 0.0
    ensures var r := CreateEmissionMatrix(alpha, tagCounts, emissionCounts, vocab);
      r.Success? && forall i, j :: 0 <= i < |tagCounts| && 0 <= j < |vocab| ==> r.value[i][j] > 0.0
  {
    var tags := AllTags(tagCounts);
    PositiveAlphaNeverDivides(alpha, tagCounts, tags, |vocab|);
    SmoothedPositive(CreateEmissionMatrix(alpha, tagCounts, emissionCounts, vocab).value,
                     alpha, tagCounts, emissionCounts, tags, vocab);
  }

  /**
    Within a row, emission probabilities are ordered as their counts, and every
    word never seen with tag i gets the same value alpha / (C_i + alpha * V).
  */
  lemma EmissionRowOrder(alpha: real, tagCounts: map<string, nat>, emissionCounts: map<(string, string), nat>,
                         vocab: seq<string>, i: nat, j: nat, j': nat)
    requires alpha > 0.0
    requires i < |tagCounts| && j < |vocab| && j' < |vocab|
    ensures var tags := AllTags(tagCounts);
      var r := CreateEmissionMatrix(alpha, tagCounts, emissionCounts, vocab);
      && r.Success?
      && (r.value[i][j] <= r.value[i][j'] <==>
            CountOf(emissionCounts, (tags[i], vocab[j])) <= CountOf(emissionCounts, (tags[i], vocab[j'])))
      && ((tags[i], vocab[j]) !in emissionCounts ==>
            r.value[i][j] == alpha / Denominator(alpha, tagCounts[tags[i]], |vocab|))
  {
    var tags := AllTags(tagCounts);
    PositiveAlphaNeverDivides(alpha, tagCounts, tags, |vocab|);
    var m := CreateEmissionMatrix(alpha, tagCounts, emissionCounts, vocab).value;
    SmoothedRowOrder(m, alpha, tagCounts, emissionCounts, tags, vocab, i, j, j');
    if (tags[i], vocab[j]) !in emissionCounts {
      SmoothedUnseen(m, alpha, tagCounts, emissionCounts, tags, vocab, i, j);
    }
  }

  /** Row i of B sums to (S_i + alpha * V) / (C_i + alpha * V); exactly 1 iff S_i equals C_i. */
  lemma EmissionRowSum(alpha: real, tagCounts: map<string, nat>, emissionCounts: map<(string, string), nat>,
                       vocab: seq<string>, b: Matrix, i: nat)
    requires CreateEmissionMatrix(alpha, tagCounts, emissionCounts, vocab) == Success(b)
    requires i < |tagCounts| && |vocab| > 0
    ensures Denominator(alpha, tagCounts[AllTags(tagCounts)[i]], |vocab|) != 0.0
    ensures Sum(b[i]) ==
      (RowCountSum(emissionCounts, AllTags(tagCounts)[i], vocab) as real + alpha * |vocab| as real)
      / Denominator(alpha, tagCounts[AllTags(tagCounts)[i]], |vocab|)
    ensures Sum(b[i]) == 1.0 <==> RowCountSum(emissionCounts, AllTags(tagCounts)[i], vocab) == tagCounts[AllTags(tagCounts)[i]]
  {
    SmoothedRowSum(b, alpha, tagCounts, emissionCounts, AllTags(tagCounts), vocab, i);
  }

  /** Counts for a tag outside `tag_counts` or a word outside `vocab` never reach the emission matrix. */
  lemma EmissionIgnoresOtherKeys(alpha: real, tagCounts: map<string, nat>,
                                 emissionCounts: map<(string, string), nat>,
                                 emissionCounts': map<(string, string), nat>, vocab: seq<string>)
    requires forall t, w :: t in tagCounts && w in vocab ==>
      CountOf(emissionCounts, (t, w)) == CountOf(emissionCounts', (t, w))
    ensures CreateEmissionMatrix(alpha, tagCounts, emissionCounts, vocab)
         == CreateEmissionMatrix(alpha, tagCounts, emissionCounts', vocab)
  {
    SmoothedIgnoresOtherKeys(alpha, tagCounts, emissionCounts, emissionCounts', AllTags(tagCounts), vocab);
  }
}
