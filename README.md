# TextRank key-sentence extraction, modelled in Dafny

This project models `TextRanker`, a C++ class that picks the top-K
sentences of a text with TextRank. TextRank is PageRank run over a graph
whose nodes are sentences and whose edge weights are word-overlap
similarities. The one public call, `ExtractKeySentences`, runs a fixed
pipeline. Each stage overwrites private fields of the instance:

1. **Sentence extraction.** The input is cut to 10000 bytes and
   lower-cased. Every sentence-ending mark (ASCII `? ! . ;`, the full-width
   `？ ！ 。 ；`, `……`, `…` and newline) is rewritten to `.`. The text is
   then split at `.`, segments of at most 30 bytes are dropped, duplicates
   are removed and at most 50 sentences are kept.
2. **Word tables.** For each sentence, the class records its number of
   tab-separated words and the set of those words.
3. **Graph.** An N x N symmetric matrix with a zero diagonal holds the
   pairwise similarities. A similarity is the number of shared words
   divided by log |a| + log |b|, or 0 when that denominator is below 1e-6.
   Each node's out-weight is its row sum without the diagonal.
4. **Ranking.** All scores start at 1.0. The class runs at most `maxIter`
   synchronous rounds of `score_i = (1 - d) + d * sum_j adj[j][i] / out[j] * score_j`.
   Nodes whose out-weight is below 1e-6 pass nothing on. The iteration
   stops after the first round whose largest change is below `tol`.
5. **Selection.** The (index, score) pairs are sorted by descending score
   with `std::sort`. The sentences of the first min(topK, N) pairs are
   returned.

The Dafny modules follow these stages:

- `Text` (text.dfy): the string operations.
  - `Find` stands for `std::string::find`.
  - `ReplaceAll` is a left-to-right replace-all, used as the reference for
    the in-place replacement loop.
  - `ReplaceEach` is the fold over the list of marks.
  - `Split` and `Join` are the single-delimiter split and its inverse.
- `Graph` (graph.dfy): matrix shape, symmetry, the zero diagonal, and the
  off-diagonal row sum.
- `Ranking` (ranking.dfy): the pieces of one round and the whole iteration.
  - `Share`, `Inflow`, `Damped` and `Round` make up one round.
  - `MaxDelta` is the largest change of a round.
  - `Rank` is the bounded iteration with early exit.
  - The loop methods `ScoreRound` and `NodeInflow` compute a round.
- `Selection` (selection.dfy): the comparator and the sort, and what the
  first K sorted pairs are.
  - `SortByScore` is a sort function: a sorted permutation of the pairs.
  - Every lemma about the selection holds for any sorted permutation, so
    nothing depends on how ties are ordered.
- `TextRank` (text_ranker.dfy): the class `TextRanker` with the source's
  state as `seq` fields, its two constructors and the pipeline methods.
  Each method is proved against the value-level definitions above.

The fields are renamed in Dafny style:

| source field | model field |
|---|---|
| `m_d` | `d` |
| `mMaxIter` | `maxIter` |
| `mTol` | `tol` |
| `mSentences` | `sentences` |
| `mAdjacencyMatrix` | `adjacency` |
| `mOutWeightSum` | `outWeightSum` |
| `mScores` | `scores` |
| `mWordSets` | `wordSets` |
| `mWordSizes` | `wordSizes` |

Two collaborators are given to the constructors as function-valued
constants, because their code is outside this model:

- `lower` stands for `xxxx::toLowerCase`.
- `ln` stands for `std::log` on a word count.
  - Properties that need the logarithm assume only `LogLike(ln)`: log 1 is 0,
    and the log of a positive count is not negative.

Where the documented behaviour and the code differ, the model follows the
code:

- Tied scores come out in whatever order `std::sort` leaves them. The sort
  is not stable, and `PairComp` compares scores only.
- Deduplication goes through an unordered set, so the sentences come out in
  an unspecified order, not in input order.
- Segments longer than 30 bytes are kept; a segment of exactly 30 bytes is
  dropped.
- The 1e-6 rule sets a similarity to 0 only when the log sum is below 1e-6.
  With `LogLike(ln)` this holds when both sentences have one word
  (`OneWordSentencesUnrelated`); a pair where only one sentence has one word
  is not zeroed by that rule. A similarity is also 0 when the two sentences
  share no word, or when an index is out of range.
- All three stages (extraction, graph, scores) run even when an earlier one
  fails, because the source combines their results with `&=`. When
  extraction yields no sentence, `BuildGraph` fails and leaves the previous
  call's graph in place. `CalcSentenceScores` then runs on that graph with
  zero sentences, and the call still reports failure.

## Model

| member | source | states |
|---|---|---|
| TextRank.TextRanker.Default | src/text_ranker.h:10-11 | d is 0.85, maxIter is 100 and tol is 1e-5; every derived table starts empty |
| TextRank.TextRanker.constructor | src/text_ranker.h:12-13 | stores exactly the given d, maxIter and tol; every derived table starts empty |
| TextRank.TextRanker.ExtractKeySentences | src/text_ranker.cpp:15-46 | an empty input or topK < 1 fails with no output and changes nothing; otherwise the sentences are a sentence list of the input, and the call succeeds exactly when there is at least one sentence; on such a failure the previous graph and word tables are kept, and the scores are emptied when that graph is present and kept otherwise; on success the graph is the similarity graph of the sentences, the scores are the bounded iteration from all ones, and the outputs are min(topK, N) sentences, those of a top-K index list; d, maxIter and tol never change; with a log-like ln and 0 <= d <= 1 every score is at least 1 - d |
| Selection.TopSentences | src/text_ranker.cpp:33-44 | min(topK, N) sentences are returned, each one of the sentences; the returned indices are min(topK, N) distinct sentence indices in non-increasing score order, no index left out scores higher than one picked, and output k is the sentence at the k-th returned index |
| Selection.PairUp | src/text_ranker.cpp:33-37 | builds the pair (i, score i) for every index, in index order |
| Selection.SentencesOf | src/text_ranker.cpp:41-44 | output k is the sentence named by sorted pair k, for the first n pairs |
| Selection.PairComp | src/text_ranker.cpp:10-13 | a pair goes before another exactly when its score is higher; the indices are not compared |
| Selection.PairCompIsStrictWeakOrder | src/text_ranker.cpp:10-13 | the comparator is irreflexive and transitive, and two pairs are incomparable exactly when their scores are equal |
| Selection.PrependKeepsSorted | src/text_ranker.cpp:39 | a pair that no element goes before can be put at the front of a sorted sequence |
| Selection.Insert | src/text_ranker.cpp:39 | inserting into a sorted sequence keeps it sorted and adds exactly that pair to its multiset |
| Selection.SortByScore | src/text_ranker.cpp:39 | the result is sorted by the comparator and is a permutation of the input |
| Selection.Pairs | src/text_ranker.cpp:34-37 | there is one pair per score, and pair i is (i, score i) |
| Selection.FirstIds | src/text_ranker.cpp:41-42 | the indices of the first n pairs, in order |
| Selection.NoDupCountAtMostOne | src/text_ranker.cpp:34-39 | in a duplicate-free sequence every element occurs at most once in its multiset |
| Selection.PermutationKeepsNoDup | src/text_ranker.cpp:39 | sorting a duplicate-free sequence of pairs leaves it duplicate-free |
| Selection.PermutedPairsInRange | src/text_ranker.cpp:34-42 | after sorting, there are still N pairs, each holding an index in range and that index's score |
| Selection.FirstIdsDistinct | src/text_ranker.cpp:39-42 | the first n indices after sorting are distinct |
| Selection.LeftOutScoreNoHigher | src/text_ranker.cpp:39-44 | an index not among the first n after sorting scores no higher than any of them |
| Selection.SortedPrefixIsTopK | src/text_ranker.cpp:39-44 | for any sorted permutation of the pairs, the first min(k, N) indices are a top-k list |
| TextRank.TextRanker.ExtractSentences | src/text_ranker.cpp:48-92 | an empty input fails and yields the single empty string; otherwise the call succeeds and its output holds distinct candidate sentences, as many as there are candidates but at most 50 |
| TextRank.Truncate | src/text_ranker.cpp:56-62 | the result is a prefix of the input of at most 10000 bytes; it is the input itself when that is short enough, and exactly 10000 bytes otherwise |
| TextRank.PunctuationsReplaceable | src/text_ranker.cpp:66-70 | every mark is non-empty and is either "." itself or shares no byte with "." |
| TextRank.PunctuationsNoShorter | src/text_ranker.cpp:66-70 | every mark is at least as long as "." |
| TextRank.TextRanker.NormalizeStep | src/text_ranker.cpp:67-70 | rewriting the next mark is a replace-all in a case where the scanning loop agrees with it |
| TextRank.TextRanker.NormalizedAll | src/text_ranker.cpp:67-70 | after all marks, the text is the fully normalised input |
| TextRank.TextRanker.Normalized | src/text_ranker.cpp:56-70 | the input cut to 10000 bytes, lower-cased, with every sentence-ending mark rewritten to "." in the order of the mark table |
| TextRank.TextRanker.CandidateHasNoPunctuation | src/text_ranker.cpp:65-80 | every candidate sentence is longer than 30 bytes and contains none of the sentence-ending marks, "." included |
| TextRank.TextRanker.CandidateLengthBounded | src/text_ranker.cpp:56-80 | when lower-casing keeps the length, no candidate is longer than 10000 bytes |
| TextRank.LongSegments | src/text_ranker.cpp:75-80 | the kept segments are no more than the segments |
| TextRank.LongSegmentsKeepsLong | src/text_ranker.cpp:76-80 | a string is kept exactly when it is a segment longer than 30 bytes |
| TextRank.TextRanker.UniqueSegmentsFormSentenceList | src/text_ranker.cpp:74-89 | the distinct long segments, capped at 50, are a sentence list of the input |
| TextRank.TextRanker.CappedIsSentenceList | src/text_ranker.cpp:86-89 | all distinct candidates cut to 50 are a sentence list |
| TextRank.TextRanker.RemoveDuplicates | src/text_ranker.cpp:94-102 | the output is duplicate-free, holds exactly the input's strings, and has one entry per distinct string |
| TextRank.TextRanker.StringReplaceAll | src/text_ranker.cpp:229-244 | an empty from, or a from that does not occur, leaves the text unchanged; when to contains from, or shares no byte with it, the result is the left-to-right replace-all; replacing a string by itself changes nothing |
| Text.Find | src/text_ranker.cpp:238 | a found position is a match at or after the start with no earlier match; no position means no match at or after the start |
| Text.OccursFromFind | src/text_ranker.cpp:233-235 | a search from 0 succeeds exactly when the pattern occurs |
| Text.ReplaceAllIdentity | src/text_ranker.cpp:240-242 | replacing a string by itself changes nothing |
| Text.ReplaceAllNoLonger | src/text_ranker.cpp:66-70 | replacing by a string no longer than the pattern never lengthens the text |
| Text.ReplaceAllNoMatch | src/text_ranker.cpp:238 | with no match from a position on, the rest of the text passes through |
| Text.ReplaceAllFirstMatch | src/text_ranker.cpp:238-239 | the replace-all of the rest is the text before the first match, then the replacement, then the replace-all after the match |
| Text.ReplaceAllSkipsPrefix | src/text_ranker.cpp:238-242 | a prefix that holds no first byte of the pattern passes through unchanged |
| Text.ReplaceAllUntouchedPrefix | src/text_ranker.cpp:238-239 | an output prefix free of replacement bytes is copied from the input |
| Text.SuffixKeepsAbsent | src/text_ranker.cpp:67-70 | a pattern absent from a text is absent from every suffix of it |
| Text.AbsentAfterForeignPrefix | src/text_ranker.cpp:67-70 | a prefix without the pattern's first byte cannot create an occurrence |
| Text.AbsentAfterKeptByte | src/text_ranker.cpp:67-70 | copying a non-matching byte keeps a mark absent from what follows |
| Text.ReplaceAllAvoids | src/text_ranker.cpp:67-70 | after replacing a mark by a string that shares no byte with it, the mark no longer occurs, and marks already absent stay absent |
| Text.ReplaceEachRemovesAll | src/text_ranker.cpp:66-70 | after rewriting every mark to ".", no mark other than "." occurs in the text |
| Text.ReplaceEachNoLonger | src/text_ranker.cpp:66-70 | rewriting the marks never lengthens the text |
| Text.Split | src/text_ranker.cpp:74 | a split has at least one piece and no piece contains the delimiter |
| Text.JoinSplit | src/text_ranker.cpp:74 | joining the pieces of a split gives back the text |
| Text.SplitJoin | src/text_ranker.cpp:74 | splitting a join of delimiter-free pieces gives back the pieces |
| Text.JoinPrependChar | src/text_ranker.cpp:74 | a byte put in front of the first piece leads the join |
| Text.SplitPieceIsAt | src/text_ranker.cpp:74 | every piece of a split occurs in the text at some offset |
| Text.FirstPieceIsPrefix | src/text_ranker.cpp:74 | the first piece is a prefix of the text |
| Text.OccursInWhole | src/text_ranker.cpp:74-78 | a pattern inside a piece occurs in the whole text |
| Text.DistinctAtMostLength | src/text_ranker.cpp:156 | a sequence has no more distinct elements than entries |
| TextRank.Tokens | src/text_ranker.cpp:154-156 | the set of the tab-separated words of a sentence |
| TextRank.TokensBounds | src/text_ranker.cpp:154-157 | a sentence has at least one distinct word and no more distinct words than words |
| TextRank.TextRanker.InitWordSet | src/text_ranker.cpp:141-161 | an empty list fails and leaves the tables; otherwise entry i holds the word count and the word set of sentence i |
| TextRank.WordTablesPositive | src/text_ranker.cpp:153-158 | every recorded word count is positive, and every word set has between 1 and that many words |
| TextRank.Similarity | src/text_ranker.cpp:163-184 | an index out of range, or tables of different lengths, give 0; with a log-like ln and positive counts the result is non-negative; a non-zero similarity means both indices are in range and the sentences share a word |
| TextRank.SimilaritySymmetric | src/text_ranker.cpp:169-179 | similarity does not depend on argument order |
| TextRank.OneWordSentencesUnrelated | src/text_ranker.cpp:179-182 | with a log-like ln, two one-word sentences have similarity 0 |
| TextRank.TextRanker.BuildGraph | src/text_ranker.cpp:104-139 | an empty list fails and changes nothing; otherwise the word tables are those of the sentences, the matrix is N x N, symmetric, with a zero diagonal and the similarity everywhere else, and each out-weight is its row sum without the diagonal |
| TextRank.SimilarityMatrix | src/text_ranker.cpp:111-125 | the filled matrix is N x N, symmetric, with a zero diagonal and the similarity at every off-diagonal entry |
| TextRank.FillStep | src/text_ranker.cpp:120-123 | writing one similarity and its transpose extends the filled region by one pair |
| TextRank.FillNextRow | src/text_ranker.cpp:116-118 | a finished row moves the filled region to the next row |
| TextRank.FilledIsSimilarity | src/text_ranker.cpp:116-125 | the completely filled matrix is symmetric, has a zero diagonal, and holds every pairwise similarity |
| TextRank.OutWeights | src/text_ranker.cpp:128-136 | each node's out-weight is the sum of its row without the diagonal |
| Graph.OutWeight | src/text_ranker.cpp:131-136 | the total weight a node gives to the other nodes: its row sum without the diagonal entry |
| Graph.OutWeightIsRowSum | src/text_ranker.cpp:131-136 | with a zero diagonal, leaving the diagonal out does not change the row sum |
| Graph.OutWeightNonNegative | src/text_ranker.cpp:131-136 | a row of non-negative weights has a non-negative out-weight |
| TextRank.GraphIsShaped | src/text_ranker.cpp:104-139 | a built graph has the shape the iteration indexes, and is present whenever there is a sentence |
| TextRank.TextRanker.CalcSentenceScores | src/text_ranker.cpp:186-227 | fails exactly when the matrix, its first row or the out-weights are empty, and then keeps the old scores; otherwise the scores are the bounded iteration from all ones |
| Ranking.ScoreRound | src/text_ranker.cpp:201-217 | the new scores are one synchronous round computed from the old scores only, and the reported change is the largest absolute change |
| Ranking.NodeInflow | src/text_ranker.cpp:205-211 | the summed weight is the inflow of node i: every other node with out-weight at least 1e-6 passes its score in proportion to its edge |
| Ranking.Ones | src/text_ranker.cpp:195-196 | N scores, all 1.0 |
| Ranking.Share | src/text_ranker.cpp:207-210 | what node j passes to node i: nothing from itself or when its out-weight is below 1e-6, otherwise its edge weight over its out-weight times its score |
| Ranking.Inflow | src/text_ranker.cpp:205-211 | the sum of the shares node i receives from all nodes |
| Ranking.Damped | src/text_ranker.cpp:212 | the new score (1 - d) + d times the inflow |
| Ranking.MaxDelta | src/text_ranker.cpp:201-216 | the largest absolute change between two score vectors, starting from 0 |
| Ranking.Round | src/text_ranker.cpp:202-213 | a round gives one score per node |
| Ranking.Rank | src/text_ranker.cpp:199-223 | the iteration gives one score per node |
| Ranking.Iterate | src/text_ranker.cpp:199-219 | k plain rounds give one score per node |
| Graph.Abs | src/text_ranker.cpp:215 | the absolute value is non-negative and is the value or its negation |
| Graph.Max | src/text_ranker.cpp:216 | the maximum is at least both arguments and is one of them |
| Ranking.MaxDeltaIsMaximum | src/text_ranker.cpp:201-216 | the largest change is non-negative, bounds every node's change, and is either 0 or one of the changes |
| Ranking.RankIsBoundedIteration | src/text_ranker.cpp:199-223 | the iteration runs at most max(maxIter, 0) rounds and at least one when maxIter > 0; its result is that many plain rounds; it stops early only after a round whose largest change is below tol, and every earlier round changed some score by tol or more |
| Ranking.ShareNonNegative | src/text_ranker.cpp:207-210 | a share between non-negative quantities is non-negative |
| Ranking.InflowNonNegative | src/text_ranker.cpp:205-211 | with non-negative weights and scores, the inflow is non-negative |
| Ranking.RoundAboveFloor | src/text_ranker.cpp:212 | with 0 <= d <= 1 and non-negative weights and scores, every new score is at least 1 - d |
| Ranking.RankAboveFloor | src/text_ranker.cpp:199-223 | starting at or above 1 - d, every score stays at or above 1 - d |
| Ranking.NoInflowWithoutEdges | src/text_ranker.cpp:205-211 | a node no other node links to receives nothing |
| Ranking.IsolatedNodeGetsFloor | src/text_ranker.cpp:212 | once a round has run, an isolated node's score is exactly 1 - d |
| Ranking.DanglingInflow | src/text_ranker.cpp:207-208 | the score of a node with out-weight below 1e-6 does not affect any inflow |
| Ranking.DanglingContributesNothing | src/text_ranker.cpp:207-208 | changing only the score of such a node leaves the next round unchanged |
| TextRank.ScoresAboveFloor | src/text_ranker.cpp:186-227 | on a built graph, with a log-like ln and 0 <= d <= 1, every computed score is at least 1 - d |
| TextRank.GraphNonNegative | src/text_ranker.cpp:116-136 | with a log-like ln, a built graph has only non-negative weights and out-weights, and each out-weight is the full row sum |
| TextRank.IsolatedSentenceGetsFloor | src/text_ranker.cpp:163-223 | a sentence sharing no word with any other sentence ends at exactly 1 - d once a round has run |

## Left out

- example/example.cpp is not part of this model. It reads a file and prints to standard output.
- Floating point is modelled with Dafny `real`. Rounding, the real values of `std::log` and numerical convergence are out of scope. `ln` is any function, and the floor properties assume only `LogLike(ln)`. The thresholds 1e-6 and `fabs` are exact.
- `xxxx::toLowerCase` is the injected function `lower`. No property of it is assumed, except by `CandidateLengthBounded`, which requires that it keeps the length.
- `xxxx::split` is not part of this model. It is modelled as `Split` on a single delimiter byte (`.` or tab): every delimiter ends a piece, and empty pieces are kept. This is an assumption about code the model cannot see.
- Text is a sequence of bytes held as `char`. The full-width marks are their UTF-8 byte sequences. No character decoding is modelled.
- `RemoveDuplicates` hands back the distinct strings in an arbitrary order, standing for the iteration order of `std::tr1::unordered_set`. `SortByScore` is one sorted permutation. The selection lemmas hold for every sorted permutation, so no order among equal scores is assumed.
- Integer widths (`int` indices and word counts, `size_t` positions) are unbounded. After the cut to 10000 bytes, every count and position is bounded by 10000 when lower-casing keeps the length, as `CandidateLengthBounded` assumes.
- The `(int)` cast of `input.size()` at src/text_ranker.cpp:58 is taken as exact. For an input of 2^31 bytes or more the source may skip the cut to 10000 bytes; the model always cuts.
- TextRank.TextRanker.StringReplaceAll: the result is stated as the replace-all only when `to` contains `from` or shares no byte with it. Every call in the pipeline is one of these cases. For other arguments, the scan can resume inside the inserted text; only "unchanged when `from` is absent" is stated, and termination is proved.
- TextRank.TextRanker.CalcSentenceScores: it requires that a present graph has at least N rows of N weights and N out-weights. The source indexes the matrix by the sentence count without checking, so any other state is out-of-bounds access.
- TextRank.LongSegments: its own contract bounds only the length; the membership property is stated by `LongSegmentsKeepsLong`.
- Ranking.Round, Ranking.Rank and Ranking.Iterate are the reference definitions. Their own contracts state only the length; the promised properties are the lemmas about them.
- `GetSimilarity` is the module function `Similarity`. It takes the word tables and `ln` as arguments instead of reading the fields, so the contracts about the fields name them explicitly.
- `ExtractKeySentences` and `TopSentences` also return the chosen indices as a ghost value, so that their contracts can speak about them. The source returns only the sentences.
- The destructor does nothing and is not modelled.
