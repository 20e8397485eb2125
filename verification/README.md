# Part-of-speech tagging with a smoothed HMM and Viterbi decoding

This project models the core of a part-of-speech tagger built on a Hidden Markov Model:

- **Model builder** (`hidden_markov_model.py`).
  - `create_transition_matrix` builds the N x N tag-to-tag matrix A with additive smoothing.
  - `create_emission_matrix` builds the N x V tag-to-word matrix B the same way.
  - Rows and columns follow `sorted(tag_counts.keys())`; emission columns follow the vocabulary list.
  - Each cell is `(count + alpha) / (tag_count + alpha * columns)`, and an absent count key counts as 0.
- **Viterbi decoder** (`viterbi.py`), in log space.
  - `initialize` seeds column 0 of the score table.
  - `viterbi_forward` fills columns 1..T-1 with the best score and the first best predecessor.
  - `viterbi_backward` turns the tables back into a tag list.

Modules:

| file | module | contents |
|---|---|---|
| results.dfy | `Results` | `Option`; `Result`; `Error`, one constructor per Python exception the code can raise |
| string_order.dfy | `StringOrder` | Python's `<` on `str`; `sorted()` of a key set as the unique strictly sorted enumeration |
| tables.dfy | `Tables` | row-major grids (numpy arrays of a given shape) and their columns |
| row_sums.dfy | `RowSums` | sums of smoothed rows over exact reals |
| hidden_markov_model.dfy | `HiddenMarkovModel`, `SmoothingProperties` | the two builders and what they guarantee |
| scores.dfy | `Scores` | `Score = NegInf \| Fin(real)`, Python `+` and `>` on it, `np.argmax` |
| viterbi.dfy | `Viterbi` | the three decoder stages, the repaired back-tracking, and the whole pipeline |

Modelling choices:

- Probabilities are exact `real`s.
- `math.log` is a function parameter `ln`, used only on positive arguments. Every non-positive argument is modelled as the `ValueError` Python raises.
- Division by a zero denominator is `ZeroDivision`.
- The forward pass returns the tables as they stand when Python would raise. It reports the cell where that happens as a `Halt`.

## Model

| member | source | states |
|---|---|---|
| StringOrder.SortedKeys | hidden_markov_model.py:15 | `sorted(keys)` lists every key exactly once: same size as the key set, same members |
| StringOrder.SortedKeysSorted | hidden_markov_model.py:15 | that listing is in strictly increasing Python string order |
| StringOrder.SortedKeysCharacterized | hidden_markov_model.py:15 | any strictly sorted enumeration of the keys is `SortedKeys`, so the tag order is unique |
| HiddenMarkovModel.AllTags | hidden_markov_model.py:15-18 | the row tags are exactly the keys of `tag_counts`, N of them |
| HiddenMarkovModel.AllTagsSorted | hidden_markov_model.py:15 | the row tags are strictly increasing, and every other strictly increasing listing of the keys equals them |
| HiddenMarkovModel.SmoothedMatrix | hidden_markov_model.py:27-52 | fails with ZeroDivision iff there is a column and some row's `tag_count + alpha * columns` is 0; otherwise every cell is `(count or 0 + alpha) / that denominator` |
| HiddenMarkovModel.CreateTransitionMatrix | hidden_markov_model.py:15-54 | N x N over the sorted tags; cell (i, j) smooths the count of `(tag_i, tag_j)` with denominator `C_i + alpha * N`; ZeroDivision exactly when a denominator is 0 |
| HiddenMarkovModel.CreateEmissionMatrix | hidden_markov_model.py:71-112 | N x V over sorted tags and the vocabulary list; cell (i, j) smooths the count of `(tag_i, vocab[j])` with denominator `C_i + alpha * V` (V, not N) |
| SmoothingProperties.PositiveAlphaNeverDivides | hidden_markov_model.py:52 | with alpha > 0 no denominator is zero; all are positive |
| SmoothingProperties.TransitionPositive | hidden_markov_model.py:41-52 | alpha > 0: A is built and every cell is > 0, including pairs never counted |
| SmoothingProperties.TransitionRowOrder | hidden_markov_model.py:33-52 | within row i, `A[i][j] <= A[i][j']` iff the counts are so ordered; an unseen pair gets `alpha / (C_i + alpha * N)` |
| SmoothingProperties.TransitionRowSum | hidden_markov_model.py:48-52 | row i sums to `(S_i + alpha * N) / (C_i + alpha * N)`, and to 1 iff `S_i == C_i` |
| SmoothingProperties.TransitionIgnoresOtherKeys | hidden_markov_model.py:37-45 | two count maps that agree on pairs of known tags give the same result |
| SmoothingProperties.EmissionPositive | hidden_markov_model.py:93-110 | alpha > 0: B is built and every cell is > 0 |
| SmoothingProperties.EmissionRowOrder | hidden_markov_model.py:93-110 | within row i, emission cells are ordered as their counts; an unseen word gets `alpha / (C_i + alpha * V)` |
| SmoothingProperties.EmissionRowSum | hidden_markov_model.py:105-110 | row i sums to `(S_i + alpha * V) / (C_i + alpha * V)`, and to 1 iff `S_i == C_i` |
| SmoothingProperties.EmissionIgnoresOtherKeys | hidden_markov_model.py:97-103 | count maps that agree on (known tag, vocabulary word) pairs give the same result |
| RowSums.SumOfSmoothedRow | hidden_markov_model.py:48-52 | a row of `(c_j + alpha) / d` sums to `(sum of c_j + alpha * length) / d` |
| RowSums.SmoothedRowTotal | hidden_markov_model.py:48-52 | with `d = total + alpha * length`, the row sums to 1 exactly when its counts add up to `total` |
| Scores.Plus | viterbi.py:92 | Python float `+`: `-inf` iff an operand is `-inf`, otherwise the finite sum |
| Scores.GreaterIsStrictTotalOrder | viterbi.py:96 | Python `>` on finite-or-`-inf` scores is a strict total order with `-inf` at the bottom |
| Scores.FirstArgMax | viterbi.py:173 | `np.argmax`: an index no entry beats, and strictly beats every earlier entry |
| Scores.FirstArgMaxUnique | viterbi.py:173 | exactly one index has those two properties |
| Viterbi.IndexOf | viterbi.py:31 | `list.index`: the first position holding the value; None (ValueError) iff absent |
| Viterbi.StartScore | viterbi.py:37-47 | column-0 score of one tag: `-inf` iff `A[s,i] == 0`, else `log A[s,i] + log B[i, vocab[corpus[0]]]`. Each failing case has its own clause, giving the error Python raises first: ValueError for a negative `A[s,i]`, IndexError for an empty corpus, KeyError for an unknown first word, IndexError for a word index past the row, ValueError for a non-positive emission |
| Viterbi.SeedColumn | viterbi.py:34-47 | column 0 for all tags in loop order; fails with the first failing tag's error |
| Viterbi.Initialize | viterbi.py:20-49 | NotInList iff `"--s--"` is absent; succeeds iff every start score can be evaluated; N x T tables, back-pointers all 0, scores 0 outside column 0, column 0 seeded as above |
| Viterbi.Candidate | viterbi.py:92 | candidate score `best_probs[k,t-1] + log A[k,j] + log B[j, vocab[word_t]]`; defined iff the logs are of positive numbers and the word has a column |
| Viterbi.BestPredecessor | viterbi.py:80-105 | the strict `>` scan from `-inf`: fails with the first failing candidate's error; returns no predecessor iff all candidates are `-inf`; otherwise the first maximal candidate and its score |
| Viterbi.DecodedFrame | viterbi.py:92 | a decoded cell depends only on the previous score column and on its own two entries |
| Viterbi.ForwardCell | viterbi.py:80-115 | only cell (j, t) changes; it is decoded, or the pass stops there: TypeError with `-inf` stored when no predecessor exists, or the candidate's error with the cell untouched |
| Viterbi.ForwardColumn | viterbi.py:77-115 | column t is decoded in tag order up to the stopping tag; no other column changes |
| Viterbi.ViterbiForward | viterbi.py:66-117 | column 0 untouched; with no halt every cell of columns 1..T-1 holds the maximum candidate score and the first predecessor reaching it; on a halt, cells before it are decoded and cells after it are untouched |
| Viterbi.WalkBackward | viterbi.py:166-184 | step 2: slot i - 1 gets the pointer at the argmax row of column i, and iteration i = 0 writes the last slot through index -1 |
| Viterbi.ViterbiBackward | viterbi.py:128-185 | as written: UnboundLocal iff no tags, IndexError iff no words; otherwise `pred[i-1]` is the pointer at the argmax row of column i, and the last slot is the pointer at the argmax row of column 0, which is `states[0]` when column 0 of the pointers is zero |
| Viterbi.Backtrack | viterbi.py:147-184 | repaired back-tracking: starts at the argmax of the last column and follows the stored pointers; `pred[i] == states[z[i]]` |
| Viterbi.ChainsAgreeFrom | viterbi.py:169-184 | two pointer chains over the same tables agree from any position to the end |
| Viterbi.ChainUnique | viterbi.py:169-184 | the pointer chain is unique, so `Backtrack` has exactly one possible output |
| Viterbi.LastTagCounterexample | viterbi.py:164-184 | the example run through `initialize` and `viterbi_forward` has best path NN, VB; `viterbi_backward` as written returns [NN, --s--], back-tracking returns [NN, VB] |
| Viterbi.PointersFromForward | viterbi.py:86-115 | tables the forward pass completes from `initialize`'s have every pointer in range and column 0 of the pointers all 0 |
| Viterbi.DecodeAsWritten | main.py:35-37 | the program's pipeline, `initialize` then `viterbi_forward` then `viterbi_backward`: initialization errors passed on; a forward-pass error comes with the cell and tables where it stops; on success the tags are what `viterbi_backward` reads from completed tables, and the last tag is always `states[0]` |
| Viterbi.ExampleInitialize | viterbi.py:20-49 | on the two-word example, `initialize` succeeds and seeds column 0 with [-5, -1, -7] |
| Viterbi.ExampleCandidates | viterbi.py:92 | on the example, every column-1 candidate evaluates, and the one from NN is strictly the largest |
| Viterbi.ExampleNeverStops | viterbi.py:80-105 | on the example, no column-1 cell meets either stopping condition of the forward pass |
| Viterbi.ExampleColumnOne | viterbi.py:80-115 | on the example, every column-1 cell is reached from NN, with scores [-9, -5, -2] |
| Viterbi.ExampleTables | main.py:35-36 | the example's tables after `initialize` and `viterbi_forward`, with the values above |
| Viterbi.ExampleArgmaxes | viterbi.py:173 | on those tables, the argmax of column 1 is VB with pointer NN, and the argmax of column 0 has pointer `--s--` |
| Viterbi.Decode | main.py:35-37 | `initialize`, the forward pass, then `Backtrack`. An absent start tag or an initialization error is passed on, and a forward-pass error comes with the cell and tables where it stops. On success the tags are the pointer chain through the tables the forward pass completed: one tag per word, each a known tag |

## Left out

- `main.py` (file reading, vocabulary loading, the `utils` helpers, accuracy printing) is not part of this model. `Viterbi.DecodeAsWritten` and `Viterbi.Decode` only mirror its three decoder calls.
- Floating-point behaviour. Probabilities are exact reals, so rounding and underflow are not modelled, and neither is a NaN argument to `math.log`. `math.log` is the parameter `ln`, with nothing assumed about it.
- The progress printing in the forward pass (`verbose`, every 5000 words) has no effect on the tables.
- The write-only list `z` in `viterbi_backward` is never returned, so the as-written model drops it. Its writes index within range whenever the model's preconditions hold.
- Step 1 of `viterbi_backward` compares the last column's scores, but that affects only `z`. It also stores `states[k]` in the last slot, with k = N - 1. Step 2 always overwrites that slot, so step 1 has no effect on the returned list. It matters only for the errors: it fails when there are no tags or no words.
- Viterbi.Initialize: requires `states` to have N entries, A to be N x N and B to have N rows. These are the shapes the docstring states, so the IndexError from a mismatched A or states list is not modelled.
- Viterbi.ViterbiForward: requires A to be N x N, B to have N rows and both tables to be N x T. An IndexError from mismatched shapes is not modelled. Errors from values (log of a non-positive number, unknown word, word index past a row) are modelled.
- Viterbi.ViterbiBackward: requires `len(corpus)` to equal the number of table columns and every stored pointer to lie in [0, N). These hold for tables produced by `initialize` and `viterbi_forward`.
- Viterbi.Backtrack: when every score in the last column is `-inf`, it starts at row 0, as `np.argmax` does. The strict scan in step 1 of the code would have found no row in that case.
- No claim is made that the decoded sequence is the most probable tag path over all paths. The model proves only that each cell holds the best candidate among its predecessors.
- The `vocab` dict passed to `create_emission_matrix` is modelled as the list `list(vocab)` that the caller passes (main.py:32). The function indexes `vocab[j]` with integers, which only works on that list.

## Findings

| source | as written | input that shows it | evidently intended | confidence | as-written member | corrected member |
|---|---|---|---|---|---|---|
| viterbi.py:164-184 | step 2 re-takes the argmax of each column and writes `pred[i-1]`; iteration i = 0 writes `pred[-1]`, overwriting the last tag with `states[best_paths[argmax col 0, 0]]`, which is `states[0]` after `initialize` | tags [--s--, NN, VB], words [dog, runs], every transition 1.0, `math.log` standing for x - 10 (the model assumes nothing about it), emissions chosen so that the forward pass gives column-1 scores [-9, -5, -2], all reached from NN; best path NN then VB: the result is [NN, --s--]. In general the last tag is always `states[0]` | start at the best tag of the last column and follow the stored back-pointers: [NN, VB] | not executed | Viterbi.ViterbiBackward, Viterbi.DecodeAsWritten, Viterbi.LastTagCounterexample | Viterbi.Backtrack, Viterbi.ChainUnique, Viterbi.Decode |

The code's own comments say what step 2 is for. Step 1 stores the best tag of the last word (viterbi.py:156-158). Step 2 is described as walking backward through `best_paths` (viterbi.py:166-168). Each iteration is meant to retrieve the tag of the word at position i - 1 from the pointers (viterbi.py:175-177). The code instead re-takes a per-column argmax and lets index -1 overwrite the last tag. `ViterbiBackward` and `DecodeAsWritten` model the code as written. `Decode` uses the repaired `Backtrack`.
