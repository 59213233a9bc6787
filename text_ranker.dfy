/** The TextRanker class: sentence extraction, the similarity graph, the
    score iteration and the top-K selection, over the value-level
    definitions of the Text, Graph, Ranking and Selection modules. */
module TextRank {
  import opened Text
  import opened Graph
  import opened Ranking
  import opened Selection

  /** Longer inputs are cut to this many bytes. */
  const MaxTextLen: nat := 10000
  /** A segment must be longer than this to be kept as a sentence. */
  const MinSentenceLen: nat := 30
  /** At most this many sentences are kept. */
  const MaxSentencesNum: nat := 50
  /** The sentence terminator every punctuation mark is rewritten to. */
  const Terminator: string := "."

  /** The sentence-ending marks, in the order they are rewritten: ASCII
      ? ! . ; then the UTF-8 bytes of the full-width question mark,
      exclamation mark, ideographic full stop and semicolon, the double and
      single ellipsis, and the newline. */
  const Punctuations: seq<string> := [
    "?", "!", ".", ";",
    "\U{EF}\U{BC}\U{9F}", "\U{EF}\U{BC}\U{81}", "\U{E3}\U{80}\U{82}", "\U{EF}\U{BC}\U{9B}",
    "\U{E2}\U{80}\U{A6}\U{E2}\U{80}\U{A6}", "\U{E2}\U{80}\U{A6}",
    "\n"
  ]

  /** What the model needs of the natural logarithm: log 1 is 0 and the log
      of a positive count is never negative. */
  ghost predicate LogLike(ln: nat -> real)
  {
    ln(1) == 0.0 && forall n: nat :: n >= 1 ==> ln(n) >= 0.0
  }

  /** The first MaxTextLen bytes of the input. */
  function Truncate(input: string): (r: string)
    ensures |r| <= MaxTextLen
    ensures |input| <= MaxTextLen ==> r == input
    ensures |input| > MaxTextLen ==> |r| == MaxTextLen
    ensures r == input[..|r|]
  {
    if |input| > MaxTextLen then input[..MaxTextLen] else input
  }

  /** The segments longer than MinSentenceLen, in their original order. */
  function LongSegments(segs: seq<string>): (r: seq<string>)
    ensures |r| <= |segs|
    decreases |segs|
  {
    if segs == [] then []
    else
      var last := segs[|segs| - 1];
      LongSegments(segs[..|segs| - 1]) + (if |last| > MinSentenceLen then [last] else [])
  }

  /** The kept segments are exactly the long ones. */
  lemma {:induction false} LongSegmentsKeepsLong(segs: seq<string>)
    ensures forall x :: x in LongSegments(segs) <==> x in segs && |x| > MinSentenceLen
    decreases |segs|
  {
    if segs != [] {
      var last := segs[|segs| - 1];
      assert segs == segs[..|segs| - 1] + [last];
      LongSegmentsKeepsLong(segs[..|segs| - 1]);
    }
  }

  /** The distinct words of a sentence whose words are separated by tabs. */
  function Tokens(s: string): set<string>
  {
    set w | w in Split(s, '\t')
  }

  /** A sentence has at least one and at most as many distinct words as words. */
  lemma TokensBounds(s: string)
    ensures 1 <= |Tokens(s)| <= |Split(s, '\t')|
  {
    DistinctAtMostLength(Split(s, '\t'));
    assert Split(s, '\t')[0] in Tokens(s);
  }

  /** Every punctuation mark is non-empty, and each is either the terminator
      itself or shares no byte with it. */
  lemma PunctuationsReplaceable()
    ensures forall k :: 0 <= k < |Punctuations| ==>
              Punctuations[k] != [] && (Punctuations[k] == Terminator || NoSharedChar(Punctuations[k], Terminator))
  {
  }

  /** Every punctuation mark is at least as long as the terminator. */
  lemma PunctuationsNoShorter()
    ensures forall k :: 0 <= k < |Punctuations| ==> Punctuations[k] != [] && |Terminator| <= |Punctuations[k]|
  {
  }

  /** Replacing the first match at or after `start` keeps "text before the
      scan position + replace-all of the rest" equal, when the scan resumes
      after the inserted copy. */
  lemma ReplaceStepSkipping(r: string, from: string, to: string, start: nat, p: nat)
    requires from != [] && start <= p && IsAt(r, from, p)
    requires forall q :: start <= q < p ==> !IsAt(r, from, q)
    ensures (r[..p] + to) + ReplaceAll(r[p + |from|..], from, to) == r[..start] + ReplaceAll(r[start..], from, to)
  {
    ReplaceAllFirstMatch(r, from, to, start, p);
    Regroup(r[..start], r[start..p], r[..p], to, ReplaceAll(r[p + |from|..], from, to));
  }

  /** Concatenation is associative (spelled out for the scan steps). */
  lemma Associate(u: string, v: string, x: string)
    ensures (u + v) + x == u + (v + x)
  {
  }

  /** Regrouping a prefix `w == u + v` around an inserted copy. */
  lemma Regroup(u: string, v: string, w: string, to: string, x: string)
    requires u + v == w
    ensures (w + to) + x == u + (v + to + x)
  {
  }

  /** The same when the scan resumes at the start of the inserted copy,
      which is harmless because `to` does not hold the first byte of `from`. */
  lemma ReplaceStepResuming(r: string, from: string, to: string, start: nat, p: nat)
    requires from != [] && start <= p && IsAt(r, from, p)
    requires forall q :: start <= q < p ==> !IsAt(r, from, q)
    requires from[0] !in to
    ensures r[..p] + ReplaceAll(to + r[p + |from|..], from, to) == r[..start] + ReplaceAll(r[start..], from, to)
  {
    var rest := r[p + |from|..];
    ReplaceStepSkipping(r, from, to, start, p);
    ReplaceAllSkipsPrefix(to, rest, from, to);
    Associate(r[..p], to, ReplaceAll(rest, from, to));
  }

  /** The state of the replace-all scan over `str`: `r` is the text so far,
      the scan resumes at `start`, and `lastEnd` is where the last inserted
      copy of `to` ends. When `to` contains `from` the scan skips the copy;
      otherwise `start` is either `lastEnd` or the start of that copy. In the
      standard cases, the text before `start` plus the replace-all of the
      rest is the replace-all of `str`. */
  ghost predicate Scanning(str: string, from: string, to: string, r: string, start: int, lastEnd: int, contains: bool)
  {
    from != [] && 0 <= start <= lastEnd <= |r|
    && contains == Occurs(to, from)
    && (contains ==> start == lastEnd)
    && (!contains ==> start == lastEnd || (lastEnd == start + |to| && r[start..lastEnd] == to))
    && ((contains || NoSharedChar(from, to)) ==>
          r[..start] + ReplaceAll(r[start..], from, to) == ReplaceAll(str, from, to))
  }

  /** One replacement keeps the scan state, and the match ends past the
      last inserted copy (so the scan makes progress). */
  lemma ScanStep(str: string, from: string, to: string, r: string, start: int, lastEnd: int, contains: bool, p: nat)
    requires Scanning(str, from, to, r, start, lastEnd, contains)
    requires Find(r, from, start) == Some(p)
    ensures p + |from| > lastEnd
    ensures Scanning(str, from, to, r[..p] + to + r[p + |from|..], if contains then p + |to| else p, p + |to|, contains)
  {
    if !contains && start != lastEnd {
      MatchEndsPastCopy(r, from, to, start, p);
    }
    var rest := r[p + |from|..];
    var r' := r[..p] + to + rest;
    if contains {
      assert r'[..p + |to|] == r[..p] + to && r'[p + |to|..] == rest;
      ReplaceStepSkipping(r, from, to, start, p);
    } else {
      assert r'[..p] == r[..p] && r'[p..] == to + rest && r'[p..p + |to|] == to;
      if NoSharedChar(from, to) {
        assert from[0] !in to;
        ReplaceStepResuming(r, from, to, start, p);
      }
    }
  }

  /** When no match is left, the scan's text is the replace-all of `str`
      in the standard cases. */
  lemma ScanDone(str: string, from: string, to: string, r: string, start: int, lastEnd: int, contains: bool)
    requires Scanning(str, from, to, r, start, lastEnd, contains)
    requires Find(r, from, start).None?
    ensures (contains || NoSharedChar(from, to)) ==> r == ReplaceAll(str, from, to)
  {
    if contains || NoSharedChar(from, to) {
      ReplaceAllNoMatch(r, from, to, start);
      assert r[..start] + r[start..] == r;
    }
  }

  /** A match found at or after a copy of `to` (which does not contain
      `from`) cannot lie inside that copy. */
  lemma MatchEndsPastCopy(r: string, from: string, to: string, start: nat, p: nat)
    requires !Occurs(to, from) && start + |to| <= |r| && r[start..start + |to|] == to
    requires start <= p && IsAt(r, from, p)
    ensures p + |from| > start + |to|
  {
    if p + |from| <= start + |to| {
      forall k | 0 <= k < |from| ensures to[p - start + k] == from[k] {
        assert to[p - start + k] == r[p + k];
        assert r[p..p + |from|][k] == r[p + k];
      }
      assert to[p - start..p - start + |from|] == from;
      assert IsAt(to, from, p - start);
    }
  }

  /** `sets` and `sizes` record, for each sentence, the set of its
      tab-separated words and their number. */
  ghost predicate WordTables(sents: seq<string>, sets: seq<set<string>>, sizes: seq<nat>)
  {
    |sets| == |sents| && |sizes| == |sents|
    && forall i :: 0 <= i < |sents| ==> sizes[i] == |Split(sents[i], '\t')| && sets[i] == Tokens(sents[i])
  }

  /** Every recorded word count is positive. */
  ghost predicate AllPositive(sizes: seq<nat>)
  {
    forall i :: 0 <= i < |sizes| ==> sizes[i] >= 1
  }

  /** Every sentence has at least one word, so recorded counts are positive
      and no sentence has more distinct words than words. */
  lemma WordTablesPositive(sents: seq<string>, sets: seq<set<string>>, sizes: seq<nat>)
    requires WordTables(sents, sets, sizes)
    ensures AllPositive(sizes)
    ensures forall i :: 0 <= i < |sents| ==> 1 <= |sets[i]| <= sizes[i]
  {
    forall i | 0 <= i < |sents| ensures 1 <= |sets[i]| <= sizes[i] {
      TokensBounds(sents[i]);
    }
  }

  /** The similarity of sentences `a` and `b` given the word tables: the
      number of words they share divided by the sum of the logs of their
      word counts; 0 for an index out of range, tables of different lengths,
      or a denominator within Eps of zero. */
  function Similarity(sets: seq<set<string>>, sizes: seq<nat>, ln: nat -> real, a: nat, b: nat): (r: real)
    ensures a >= |sets| || b >= |sets| || |sets| != |sizes| ==> r == 0.0
    ensures LogLike(ln) && AllPositive(sizes) ==> r >= 0.0
    ensures r != 0.0 ==> a < |sets| && b < |sets| && sets[a] * sets[b] != {}
  {
    if |sets| <= a || |sets| <= b || |sets| != |sizes| then 0.0
    else
      var common := |sets[a] * sets[b]|;
      var denominator := ln(sizes[a]) + ln(sizes[b]);
      if Abs(denominator) < Eps then 0.0
      else common as real / denominator
  }

  /** Similarity does not depend on the order of its arguments. */
  lemma SimilaritySymmetric(sets: seq<set<string>>, sizes: seq<nat>, ln: nat -> real, a: nat, b: nat)
    ensures Similarity(sets, sizes, ln, a, b) == Similarity(sets, sizes, ln, b, a)
  {
    if a < |sets| && b < |sets| {
      assert sets[a] * sets[b] == sets[b] * sets[a];
    }
  }

  /** Two one-word sentences are never similar: log 1 + log 1 is zero. */
  lemma OneWordSentencesUnrelated(sets: seq<set<string>>, sizes: seq<nat>, ln: nat -> real, a: nat, b: nat)
    requires LogLike(ln) && a < |sizes| && b < |sizes|
    requires sizes[a] == 1 && sizes[b] == 1
    ensures Similarity(sets, sizes, ln, a, b) == 0.0
  {
  }

  /** The matrix filling is done for every pair (p, q), p < q, with p < i,
      or p == i and q < j: those entries, and their transposes, hold the
      similarity; the others, and the diagonal, are still 0. */
  ghost predicate PartlyFilled(sets: seq<set<string>>, sizes: seq<nat>, ln: nat -> real,
                               m: seq<seq<real>>, n: nat, i: int, j: int)
  {
    IsSquare(m, n)
    && (forall p :: 0 <= p < n ==> m[p][p] == 0.0)
    && forall p, q :: 0 <= p < q < n ==>
         m[p][q] == m[q][p]
         && m[p][q] == (if p < i || (p == i && q < j) then Similarity(sets, sizes, ln, p, q) else 0.0)
  }

  /** Filling entry (i, j) and its transpose advances the fill by one pair. */
  lemma FillStep(sets: seq<set<string>>, sizes: seq<nat>, ln: nat -> real, m: seq<seq<real>>, n: nat, i: nat, j: nat)
    requires PartlyFilled(sets, sizes, ln, m, n, i, j) && i < j < n
    ensures var s := Similarity(sets, sizes, ln, i, j);
            var m1 := m[i := m[i][j := s]];
            PartlyFilled(sets, sizes, ln, m1[j := m1[j][i := s]], n, i, j + 1)
  {
    var s := Similarity(sets, sizes, ln, i, j);
    var m1 := m[i := m[i][j := s]];
    var m2 := m1[j := m1[j][i := s]];
    forall p, q | 0 <= p < n && 0 <= q < n
      ensures m2[p][q] == (if (p == i && q == j) || (p == j && q == i) then s else m[p][q])
    {
    }
    assert IsSquare(m2, n);
    forall p, q | 0 <= p < q < n
      ensures m2[p][q] == m2[q][p]
      ensures m2[p][q] == (if p < i || (p == i && q < j + 1) then Similarity(sets, sizes, ln, p, q) else 0.0)
    {
      if p != i || q != j {
        assert m2[p][q] == m[p][q] && m2[q][p] == m[q][p];
      }
    }
    assert forall p :: 0 <= p < n ==> m2[p][p] == 0.0;
    assert PartlyFilled(sets, sizes, ln, m2, n, i, j + 1);
  }

  /** A finished row moves the fill to the start of the next row. */
  lemma FillNextRow(sets: seq<set<string>>, sizes: seq<nat>, ln: nat -> real, m: seq<seq<real>>, n: nat, i: nat)
    requires PartlyFilled(sets, sizes, ln, m, n, i, n)
    ensures PartlyFilled(sets, sizes, ln, m, n, i + 1, i + 2)
  {
  }

  /** The filled matrix holds the similarity at every off-diagonal entry. */
  lemma FilledIsSimilarity(sets: seq<set<string>>, sizes: seq<nat>, ln: nat -> real, m: seq<seq<real>>, n: nat)
    requires n >= 1 && PartlyFilled(sets, sizes, ln, m, n, n - 1, n)
    ensures IsSquare(m, n) && Symmetric(m) && ZeroDiagonal(m)
    ensures forall p, q :: 0 <= p < n && 0 <= q < n && p != q ==> m[p][q] == Similarity(sets, sizes, ln, p, q)
  {
    forall p, q | 0 <= p < n && 0 <= q < n && p != q
      ensures m[p][q] == Similarity(sets, sizes, ln, p, q)
    {
      if q < p {
        SimilaritySymmetric(sets, sizes, ln, q, p);
      }
    }
  }

  /** The graph over `sents`: the word tables, a square symmetric matrix
      with a zero diagonal whose other entries are the similarities, and
      the off-diagonal row sums. */
  ghost predicate IsGraph(sents: seq<string>, sets: seq<set<string>>, sizes: seq<nat>, ln: nat -> real,
                          adj: seq<seq<real>>, out: seq<real>)
  {
    var n := |sents|;
    WordTables(sents, sets, sizes)
    && IsSquare(adj, n) && Symmetric(adj) && ZeroDiagonal(adj)
    && (forall i, j :: 0 <= i < n && 0 <= j < n && i != j ==> adj[i][j] == Similarity(sets, sizes, ln, i, j))
    && |out| == n
    && (forall i :: 0 <= i < n ==> out[i] == OutWeight(adj[i], i))
  }

  /** The graph is present: a non-empty matrix with a non-empty first row
      and a non-empty out-weight table. */
  predicate GraphPresent(adj: seq<seq<real>>, out: seq<real>)
  {
    |adj| > 0 && |adj[0]| > 0 && |out| > 0
  }

  /** A built graph has the shape the iteration needs, and is present
      when there is at least one sentence. */
  lemma GraphIsShaped(sents: seq<string>, sets: seq<set<string>>, sizes: seq<nat>, ln: nat -> real,
                      adj: seq<seq<real>>, out: seq<real>)
    requires IsGraph(sents, sets, sizes, ln, adj, out)
    ensures Shaped(adj, out, |sents|)
    ensures sents != [] ==> GraphPresent(adj, out)
  {
  }

  /** With a log-like `ln` and 0 <= d <= 1, every score computed on a built
      graph is at least 1 - d. */
  lemma ScoresAboveFloor(sents: seq<string>, sets: seq<set<string>>, sizes: seq<nat>, ln: nat -> real,
                         adj: seq<seq<real>>, out: seq<real>, d: real, tol: real, maxIter: int)
    requires IsGraph(sents, sets, sizes, ln, adj, out) && LogLike(ln) && 0.0 <= d <= 1.0
    ensures Shaped(adj, out, |sents|)
    ensures forall i :: 0 <= i < |sents| ==> Rank(adj, out, d, tol, Ones(|sents|), maxIter)[i] >= 1.0 - d
  {
    var n := |sents|;
    WordTablesPositive(sents, sets, sizes);
    assert WeightsNonNegative(adj, n);
    RankAboveFloor(adj, out, d, tol, Ones(n), maxIter);
  }

  /** A built graph with a log-like `ln` is a non-negative weighted graph:
      every weight and every out-weight is non-negative, and each out-weight
      is the full row sum, the diagonal being zero. */
  lemma GraphNonNegative(sents: seq<string>, sets: seq<set<string>>, sizes: seq<nat>, ln: nat -> real,
                         adj: seq<seq<real>>, out: seq<real>)
    requires IsGraph(sents, sets, sizes, ln, adj, out) && LogLike(ln)
    ensures IsSquare(adj, |adj|) && NonNegative(adj)
    ensures forall i :: 0 <= i < |out| ==> out[i] >= 0.0 && out[i] == SumUpTo(adj[i], |adj[i]|)
  {
    var n := |sents|;
    WordTablesPositive(sents, sets, sizes);
    forall i | 0 <= i < n ensures out[i] >= 0.0 && out[i] == SumUpTo(adj[i], |adj[i]|) {
      assert forall j :: 0 <= j < n ==> adj[i][j] >= 0.0;
      OutWeightNonNegative(adj[i], i, n);
      OutWeightIsRowSum(adj[i], i, n);
    }
  }

  /** A sentence that shares no word with any other sentence ends at exactly
      the floor 1 - d once a round has run. */
  lemma IsolatedSentenceGetsFloor(sents: seq<string>, sets: seq<set<string>>, sizes: seq<nat>, ln: nat -> real,
                                  adj: seq<seq<real>>, out: seq<real>, d: real, tol: real, maxIter: int, i: nat)
    requires IsGraph(sents, sets, sizes, ln, adj, out) && i < |sents| && maxIter >= 1
    requires forall j :: 0 <= j < |sents| && j != i ==> sets[j] * sets[i] == {}
    ensures Shaped(adj, out, |sents|)
    ensures Rank(adj, out, d, tol, Ones(|sents|), maxIter)[i] == 1.0 - d
  {
    GraphIsShaped(sents, sets, sizes, ln, adj, out);
    IsolatedNodeGetsFloor(adj, out, d, tol, Ones(|sents|), maxIter, i);
  }

  /** The n x n matrix of pairwise similarities, filled for each pair
      i < j and mirrored to (j, i), with a zero diagonal. */
  method SimilarityMatrix(sets: seq<set<string>>, sizes: seq<nat>, ln: nat -> real, kDim: nat) returns (adj: seq<seq<real>>)
    requires kDim >= 1
    ensures IsSquare(adj, kDim) && Symmetric(adj) && ZeroDiagonal(adj)
    ensures forall p, q :: 0 <= p < kDim && 0 <= q < kDim && p != q ==>
              adj[p][q] == Similarity(sets, sizes, ln, p, q)
  {
    adj := seq(kDim, _ => seq(kDim, _ => 0.0));
    var i := 0;
    while i < kDim - 1
      invariant 0 <= i <= kDim - 1
      invariant PartlyFilled(sets, sizes, ln, adj, kDim, i, i + 1)
    {
      var j := i + 1;
      while j < kDim
        invariant i + 1 <= j <= kDim
        invariant PartlyFilled(sets, sizes, ln, adj, kDim, i, j)
      {
        var similarity := Similarity(sets, sizes, ln, i, j);
        FillStep(sets, sizes, ln, adj, kDim, i, j);
        adj := adj[i := adj[i][j := similarity]];
        adj := adj[j := adj[j][i := similarity]];
        j := j + 1;
      }
      FillNextRow(sets, sizes, ln, adj, kDim, i);
      i := i + 1;
    }
    FilledIsSimilarity(sets, sizes, ln, adj, kDim);
  }

  /** Each node's out-weight: the sum of its row without the diagonal. */
  method OutWeights(adj: seq<seq<real>>, kDim: nat) returns (outSum: seq<real>)
    requires IsSquare(adj, kDim)
    ensures |outSum| == kDim && forall p :: 0 <= p < kDim ==> outSum[p] == OutWeight(adj[p], p)
  {
    outSum := seq(kDim, _ => 0.0);
    for i := 0 to kDim
      invariant |outSum| == kDim
      invariant forall p :: 0 <= p < i ==> outSum[p] == OutWeight(adj[p], p)
      invariant forall p :: i <= p < kDim ==> outSum[p] == 0.0
    {
      for j := 0 to kDim
        invariant |outSum| == kDim
        invariant forall p :: 0 <= p < i ==> outSum[p] == OutWeight(adj[p], p)
        invariant outSum[i] == SumExceptUpTo(adj[i], i, j)
        invariant forall p :: i < p < kDim ==> outSum[p] == 0.0
      {
        if i == j {
          continue;
        }
        outSum := outSum[i := outSum[i] + adj[i][j]];
      }
    }
  }

  class TextRanker {
    /** The damping factor of the iteration. */
    var d: real
    /** The largest number of rounds. */
    var maxIter: int
    /** The tolerance below which the iteration stops early. */
    var tol: real
    /** The lower-casing collaborator applied to the truncated input. */
    const lower: string -> string
    /** The natural logarithm of a word count. */
    const ln: nat -> real
    /** The sentences of the last input. */
    var sentences: seq<string>
    /** The similarity weights between sentences. */
    var adjacency: seq<seq<real>>
    /** Each sentence's total weight to the other sentences. */
    var outWeightSum: seq<real>
    /** The score of each sentence. */
    var scores: seq<real>
    /** The distinct words of each sentence. */
    var wordSets: seq<set<string>>
    /** The number of words of each sentence. */
    var wordSizes: seq<nat>

    /** The default parameters: d = 0.85, at most 100 rounds, tolerance 1e-5. */
    constructor Default(lower: string -> string, ln: nat -> real)
      ensures d == 0.85 && maxIter == 100 && tol == 0.00001
      ensures this.lower == lower && this.ln == ln
      ensures sentences == [] && adjacency == [] && outWeightSum == [] && scores == []
      ensures wordSets == [] && wordSizes == []
    {
      d := 0.85;
      maxIter := 100;
      tol := 0.00001;
      this.lower := lower;
      this.ln := ln;
      sentences := [];
      adjacency := [];
      outWeightSum := [];
      scores := [];
      wordSets := [];
      wordSizes := [];
    }

    /** Caller-chosen parameters, stored as given. */
    constructor (d: real, maxIter: int, tol: real, lower: string -> string, ln: nat -> real)
      ensures this.d == d && this.maxIter == maxIter && this.tol == tol
      ensures this.lower == lower && this.ln == ln
      ensures sentences == [] && adjacency == [] && outWeightSum == [] && scores == []
      ensures wordSets == [] && wordSizes == []
    {
      this.d := d;
      this.maxIter := maxIter;
      this.tol := tol;
      this.lower := lower;
      this.ln := ln;
      sentences := [];
      adjacency := [];
      outWeightSum := [];
      scores := [];
      wordSets := [];
      wordSizes := [];
    }

    /** The input cut to MaxTextLen, lower-cased, with every punctuation
        mark rewritten to the terminator. */
    function Normalized(input: string): string
    {
      PunctuationsReplaceable();
      ReplaceEach(lower(Truncate(input)), Punctuations, Terminator)
    }

    /** The truncated, lower-cased input with the first `i` punctuation marks rewritten. */
    function NormalizedUpTo(input: string, i: nat): string
      requires i <= |Punctuations|
    {
      PunctuationsReplaceable();
      ReplaceEach(lower(Truncate(input)), Punctuations[..i], Terminator)
    }

    /** Rewriting the next mark is a replace-all in one of the two cases
        where the scanning replacement agrees with it. */
    lemma NormalizeStep(input: string, i: nat)
      requires i < |Punctuations|
      ensures Punctuations[i] != []
      ensures Occurs(Terminator, Punctuations[i]) || NoSharedChar(Punctuations[i], Terminator)
      ensures NormalizedUpTo(input, i + 1) == ReplaceAll(NormalizedUpTo(input, i), Punctuations[i], Terminator)
    {
      PunctuationsReplaceable();
      if Punctuations[i] == Terminator {
        assert IsAt(Terminator, Punctuations[i], 0);
      }
      assert Punctuations[..i + 1][..i] == Punctuations[..i];
    }

    lemma NormalizedAll(input: string)
      ensures NormalizedUpTo(input, |Punctuations|) == Normalized(input)
    {
      assert Punctuations[..|Punctuations|] == Punctuations;
    }

    /** The distinct long segments of the normalised input: the candidates
        from which the sentences are drawn. */
    ghost function Candidates(input: string): set<string>
    {
      set x | x in Split(Normalized(input), '.') && |x| > MinSentenceLen
    }

    /** `out` holds distinct candidates, as many as there are candidates but
        no more than MaxSentencesNum. */
    ghost predicate IsSentenceList(out: seq<string>, input: string)
    {
      NoDup(out)
      && (forall k :: 0 <= k < |out| ==> out[k] in Candidates(input))
      && |out| == (if |Candidates(input)| < MaxSentencesNum then |Candidates(input)| else MaxSentencesNum)
    }

    /** A sentence contains no sentence-ending mark. */
    lemma CandidateHasNoPunctuation(input: string, s: string, k: nat)
      requires s in Candidates(input) && k < |Punctuations|
      ensures |s| > MinSentenceLen
      ensures !Occurs(s, Punctuations[k])
    {
      PunctuationsReplaceable();
      var text := Normalized(input);
      var pieces := Split(text, '.');
      var i :| 0 <= i < |pieces| && pieces[i] == s;
      var off := SplitPieceIsAt(text, '.', i);
      if Punctuations[k] == Terminator {
        forall q ensures !IsAt(s, Punctuations[k], q) {
          if 0 <= q && q + 1 <= |s| {
            assert s[q] != '.';
            assert s[q..q + 1] != Terminator;
          }
        }
      } else {
        ReplaceEachRemovesAll(lower(Truncate(input)), Punctuations, Terminator, k);
        if Occurs(s, Punctuations[k]) {
          OccursInWhole(text, s, off, Punctuations[k]);
          assert false;
        }
      }
    }

    /** When lower-casing keeps the length, no sentence is longer than MaxTextLen. */
    lemma CandidateLengthBounded(input: string, s: string)
      requires s in Candidates(input)
      requires |lower(Truncate(input))| == |Truncate(input)|
      ensures |s| <= MaxTextLen
    {
      PunctuationsNoShorter();
      var text := Normalized(input);
      ReplaceEachNoLonger(lower(Truncate(input)), Punctuations, Terminator);
      var pieces := Split(text, '.');
      var i :| 0 <= i < |pieces| && pieces[i] == s;
      var off := SplitPieceIsAt(text, '.', i);
    }

    /** Replaces occurrences of `from` in `str` by `to`, scanning left to
        right. After a replacement the scan resumes where the replacement
        starts, or after it when `to` contains `from`. */
    method StringReplaceAll(str: string, from: string, to: string) returns (r: string)
      ensures from == [] ==> r == str
      ensures from != [] && !Occurs(str, from) ==> r == str
      ensures from != [] && (Occurs(to, from) || NoSharedChar(from, to)) ==> r == ReplaceAll(str, from, to)
      ensures from == to ==> r == str
    {
      r := str;
      if from == [] {
        return;
      }
      var isToContainFrom := Find(to, from, 0).Some?;
      OccursFromFind(to, from);
      var startPos := 0;
      ghost var lastEnd := 0;
      assert r[..0] + r[0..] == str;
      var found := Find(r, from, startPos);
      ghost var absent := found.None?;
      while found.Some?
        invariant Scanning(str, from, to, r, startPos, lastEnd, isToContainFrom)
        invariant found == Find(r, from, startPos)
        invariant absent ==> r == str && found.None?
        decreases |r| - lastEnd
      {
        var p := found.value;
        ScanStep(str, from, to, r, startPos, lastEnd, isToContainFrom, p);
        r := r[..p] + to + r[p + |from|..];
        lastEnd := p + |to|;
        startPos := p;
        if isToContainFrom {
          startPos := startPos + |to|;
        }
        found := Find(r, from, startPos);
      }
      OccursFromFind(str, from);
      ScanDone(str, from, to, r, startPos, lastEnd, isToContainFrom);
      if from == to {
        assert IsAt(to, from, 0);
        ReplaceAllIdentity(str, from);
      }
    }

    /** The distinct strings of `inputs`, each once, in an unspecified order. */
    method RemoveDuplicates(inputs: seq<string>) returns (outputs: seq<string>)
      ensures NoDup(outputs)
      ensures forall x :: x in outputs <==> x in inputs
      ensures |outputs| == |set x | x in inputs|
    {
      var s: set<string> := {};
      for i := 0 to |inputs|
        invariant s == set x | x in inputs[..i]
      {
        s := s + {inputs[i]};
        assert inputs[..i + 1] == inputs[..i] + [inputs[i]];
      }
      assert inputs[..|inputs|] == inputs;
      outputs := [];
      var rest := s;
      while rest != {}
        invariant rest <= s
        invariant forall x :: x in outputs <==> x in s - rest
        invariant NoDup(outputs)
        invariant |outputs| + |rest| == |s|
        decreases |rest|
      {
        var x :| x in rest;
        assert x !in outputs;
        outputs := outputs + [x];
        rest := rest - {x};
      }
    }

    /** The sentences of `input`: cut to MaxTextLen, lower-cased, every
        punctuation mark rewritten to ".", split at ".", segments of at most
        MinSentenceLen bytes dropped, duplicates removed, and at most
        MaxSentencesNum kept. An empty input yields one empty string and
        failure. */
    method ExtractSentences(input: string) returns (ok: bool, outputs: seq<string>)
      ensures ok == (input != [])
      ensures !ok ==> outputs == [""]
      ensures ok ==> IsSentenceList(outputs, input)
    {
      if input == [] {
        return false, [""];
      }
      var tempInput := if |input| > MaxTextLen then input[..MaxTextLen] else input;
      tempInput := lower(tempInput);
      for i := 0 to |Punctuations|
        invariant tempInput == NormalizedUpTo(input, i)
      {
        var punc := Punctuations[i];
        NormalizeStep(input, i);
        tempInput := StringReplaceAll(tempInput, punc, Terminator);
      }
      NormalizedAll(input);
      var tempOutput := Split(tempInput, '.');
      var tempOutput2: seq<string> := [];
      for i := 0 to |tempOutput|
        invariant tempOutput2 == LongSegments(tempOutput[..i])
      {
        if |tempOutput[i]| > MinSentenceLen {
          tempOutput2 := tempOutput2 + [tempOutput[i]];
        }
        assert tempOutput[..i + 1][..i] == tempOutput[..i];
      }
      assert tempOutput[..|tempOutput|] == tempOutput;
      outputs := RemoveDuplicates(tempOutput2);
      ghost var unique := outputs;
      if |outputs| > MaxSentencesNum {
        outputs := outputs[..MaxSentencesNum];
      }
      UniqueSegmentsFormSentenceList(input, tempOutput2, unique);
      ok := true;
    }

    /** The distinct long segments of the normalised text, capped at
        MaxSentencesNum, form a sentence list. */
    lemma UniqueSegmentsFormSentenceList(input: string, segs: seq<string>, unique: seq<string>)
      requires segs == LongSegments(Split(Normalized(input), '.'))
      requires NoDup(unique) && (forall x :: x in unique <==> x in segs)
      requires |unique| == |set x | x in segs|
      ensures IsSentenceList(if |unique| > MaxSentencesNum then unique[..MaxSentencesNum] else unique, input)
    {
      LongSegmentsKeepsLong(Split(Normalized(input), '.'));
      assert (set x | x in segs) == Candidates(input);
      CappedIsSentenceList(unique, input);
    }

    /** Distinct candidates, all of them, capped at MaxSentencesNum, form a
        sentence list. */
    lemma CappedIsSentenceList(list: seq<string>, input: string)
      requires NoDup(list) && (forall k :: 0 <= k < |list| ==> list[k] in Candidates(input))
      requires |list| == |Candidates(input)|
      ensures IsSentenceList(if |list| > MaxSentencesNum then list[..MaxSentencesNum] else list, input)
    {
    }

    /** Records, for every sentence, its number of tab-separated words and
        the set of those words. Fails on an empty list and leaves the
        previous tables. */
    method InitWordSet(sents: seq<string>) returns (ok: bool)
      modifies this`wordSets, this`wordSizes
      ensures ok == (sents != [])
      ensures !ok ==> wordSets == old(wordSets) && wordSizes == old(wordSizes)
      ensures ok ==> WordTables(sents, wordSets, wordSizes)
    {
      var kDim := |sents|;
      if sents == [] {
        return false;
      }
      wordSets := seq(kDim, _ => {});
      wordSizes := seq(kDim, _ => 0);
      for i := 0 to kDim
        invariant |wordSets| == kDim && |wordSizes| == kDim
        invariant forall k :: 0 <= k < i ==>
                    wordSizes[k] == |Split(sents[k], '\t')| && wordSets[k] == Tokens(sents[k])
      {
        var aWords := Split(sents[i], '\t');
        wordSizes := wordSizes[i := |aWords|];
        var aWordSet := set w | w in aWords;
        wordSets := wordSets[i := aWordSet];
      }
      ok := true;
    }

    /** Builds the similarity graph of `sents`. Fails on an empty list and
        changes nothing. */
    method BuildGraph(sents: seq<string>) returns (ok: bool)
      modifies this`adjacency, this`outWeightSum, this`wordSets, this`wordSizes
      ensures ok == (sents != [])
      ensures !ok ==> unchanged(this)
      ensures ok ==> IsGraph(sents, wordSets, wordSizes, ln, adjacency, outWeightSum)
    {
      if sents == [] {
        return false;
      }
      var kDim := |sents|;
      var _ := InitWordSet(sents);
      var adj := SimilarityMatrix(wordSets, wordSizes, ln, kDim);
      var outSum := OutWeights(adj, kDim);
      adjacency := adj;
      outWeightSum := outSum;
      ok := true;
    }

    /** Runs the iteration from all-ones scores for the current sentences:
        at most maxIter synchronous rounds, stopping after the first round
        whose largest change is below tol. Fails, keeping the old scores,
        when the graph is absent. */
    method CalcSentenceScores() returns (ok: bool)
      requires GraphPresent(adjacency, outWeightSum) ==> Shaped(adjacency, outWeightSum, |sentences|)
      modifies this`scores
      ensures ok == GraphPresent(adjacency, outWeightSum)
      ensures !ok ==> scores == old(scores)
      ensures ok ==> scores == Rank(adjacency, outWeightSum, d, tol, Ones(|sentences|), maxIter)
    {
      if adjacency == [] || adjacency[0] == [] || outWeightSum == [] {
        return false;
      }
      ok := true;
      var kDim := |sentences|;
      scores := Ones(kDim);
      ghost var goal := Rank(adjacency, outWeightSum, d, tol, scores, maxIter);
      var iterNum := 0;
      while iterNum < maxIter
        invariant |scores| == kDim
        invariant goal == Rank(adjacency, outWeightSum, d, tol, scores, maxIter - iterNum)
        decreases maxIter - iterNum
      {
        var newScores, maxDelta := ScoreRound(adjacency, outWeightSum, d, scores);
        scores := newScores;
        if maxDelta < tol {
          break;
        }
        iterNum := iterNum + 1;
      }
    }

    /** The top-K sentences of `input` by score: sentences are extracted,
        the graph is built and the scores computed (all three stages run
        even when an earlier one fails), then the indices are ordered by
        descending score and the sentences of the first min(topK, N) are
        returned. Fails with no output on an empty input, a topK below 1,
        or when no sentence survives extraction. `ids` are the chosen
        sentence indices. */
    method ExtractKeySentences(input: string, topK: int) returns (ok: bool, outputs: seq<string>, ghost ids: seq<int>)
      modifies this`sentences, this`adjacency, this`outWeightSum, this`scores, this`wordSets, this`wordSizes
      ensures d == old(d) && maxIter == old(maxIter) && tol == old(tol)
      ensures input == [] || topK < 1 ==> !ok && outputs == [] && unchanged(this)
      ensures input != [] && topK >= 1 ==> IsSentenceList(sentences, input) && ok == (sentences != [])
      ensures !ok ==> outputs == []
      ensures input != [] && topK >= 1 && !ok ==>
                adjacency == old(adjacency) && outWeightSum == old(outWeightSum) &&
                wordSets == old(wordSets) && wordSizes == old(wordSizes) &&
                scores == (if GraphPresent(old(adjacency), old(outWeightSum)) then [] else old(scores))
      ensures ok ==> IsGraph(sentences, wordSets, wordSizes, ln, adjacency, outWeightSum)
      ensures ok ==> scores == Rank(adjacency, outWeightSum, d, tol, Ones(|sentences|), maxIter)
      ensures ok ==> |outputs| == if topK < |sentences| then topK else |sentences|
      ensures ok ==> IsTopK(ids, scores, topK)
      ensures ok ==> |outputs| == |ids| && forall k :: 0 <= k < |ids| ==> 0 <= ids[k] < |sentences| && outputs[k] == sentences[ids[k]]
      ensures ok && LogLike(ln) && 0.0 <= d <= 1.0 ==> forall i :: 0 <= i < |scores| ==> scores[i] >= 1.0 - d
    {
      outputs := [];
      ids := [];
      if input == [] || topK < 1 {
        return false, [], [];
      }
      var ok1, extracted := ExtractSentences(input);
      sentences := extracted;
      var ok2 := BuildGraph(sentences);
      if ok2 {
        GraphIsShaped(sentences, wordSets, wordSizes, ln, adjacency, outWeightSum);
      }
      var ok3 := CalcSentenceScores();
      var ret := ok1 && ok2 && ok3;
      if !ret {
        return false, [], [];
      }
      outputs, ids := TopSentences(sentences, scores, topK);
      ok := true;
      if LogLike(ln) && 0.0 <= d <= 1.0 {
        ScoresAboveFloor(sentences, wordSets, wordSizes, ln, adjacency, outWeightSum, d, tol, maxIter);
      }
    }

  }
}
