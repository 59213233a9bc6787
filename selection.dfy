/** Top-K selection: (index, score) pairs, the comparator handed to
    std::sort, a sort by descending score, and what its first K entries are. */
module Selection {
  import opened Text

  /** The comparator: `a` goes before `b` when its score is higher. Only the
      scores are compared, so pairs with equal scores are unordered. */
  function PairComp(a: (int, real), b: (int, real)): bool
  {
    a.1 > b.1
  }

  /** PairComp is a strict weak order whose incomparable pairs are exactly
      the pairs with equal scores, as std::sort requires. */
  lemma PairCompIsStrictWeakOrder()
    ensures forall a: (int, real) :: !PairComp(a, a)
    ensures forall a: (int, real), b: (int, real), c: (int, real) ::
              PairComp(a, b) && PairComp(b, c) ==> PairComp(a, c)
    ensures forall a: (int, real), b: (int, real) ::
              (!PairComp(a, b) && !PairComp(b, a)) <==> a.1 == b.1
  {
  }

  /** No later pair goes before an earlier one. */
  ghost predicate SortedByComp(s: seq<(int, real)>)
  {
    forall i, j :: 0 <= i < j < |s| ==> !PairComp(s[j], s[i])
  }

  /** A pair that no pair of a sorted sequence goes before can lead it. */
  lemma PrependKeepsSorted(x: (int, real), r: seq<(int, real)>)
    requires SortedByComp(r)
    requires forall i :: 0 <= i < |r| ==> !PairComp(r[i], x)
    ensures SortedByComp([x] + r)
  {
    var t := [x] + r;
    forall i, j | 0 <= i < j < |t| ensures !PairComp(t[j], t[i]) {
      if i > 0 {
        assert t[i] == r[i - 1] && t[j] == r[j - 1];
      } else {
        assert t[j] == r[j - 1];
      }
    }
  }

  /** `p` placed into a sorted sequence ahead of every pair it does not go after. */
  function Insert(p: (int, real), s: seq<(int, real)>): (r: seq<(int, real)>)
    requires SortedByComp(s)
    ensures SortedByComp(r)
    ensures multiset(r) == multiset(s) + multiset{p}
    decreases |s|
  {
    if s == [] then [p]
    else if !PairComp(s[0], p) then
      PrependKeepsSorted(p, s);
      [p] + s
    else
      var rest := Insert(p, s[1..]);
      assert s == [s[0]] + s[1..];
      assert forall i :: 0 <= i < |rest| ==> !PairComp(rest[i], s[0]) by {
        forall i | 0 <= i < |rest| ensures !PairComp(rest[i], s[0]) {
          assert rest[i] in multiset(rest);
          if rest[i] != p {
            assert rest[i] in multiset(s[1..]);
            var k :| 0 <= k < |s[1..]| && s[1..][k] == rest[i];
            assert s[k + 1] == rest[i];
          }
        }
      }
      PrependKeepsSorted(s[0], rest);
      [s[0]] + rest
  }

  /** Stands for std::sort(pairs, PairComp): a permutation of the pairs in
      non-increasing score order. */
  function SortByScore(ps: seq<(int, real)>): (r: seq<(int, real)>)
    ensures SortedByComp(r)
    ensures multiset(r) == multiset(ps)
    decreases |ps|
  {
    if ps == [] then []
    else
      assert ps == [ps[0]] + ps[1..];
      Insert(ps[0], SortByScore(ps[1..]))
  }

  /** The pairs (i, scores[i]) in index order, as the selection loop builds them. */
  function Pairs(scores: seq<real>): (r: seq<(int, real)>)
    ensures |r| == |scores| && forall i :: 0 <= i < |r| ==> r[i] == (i, scores[i])
  {
    seq(|scores|, i requires 0 <= i < |scores| => (i, scores[i]))
  }

  /** Builds the pairs (i, scores[i]) one index at a time. */
  method PairUp(scores: seq<real>) returns (ps: seq<(int, real)>)
    ensures ps == Pairs(scores)
  {
    ps := [];
    for i := 0 to |scores|
      invariant ps == Pairs(scores[..i])
    {
      ps := ps + [(i, scores[i])];
    }
    assert scores[..|scores|] == scores;
  }

  /** The indices of the first `n` pairs. */
  function FirstIds(ps: seq<(int, real)>, n: nat): (r: seq<int>)
    requires n <= |ps|
    ensures |r| == n && forall m :: 0 <= m < n ==> r[m] == ps[m].0
  {
    seq(n, m requires 0 <= m < n => ps[m].0)
  }

  /** `ids` picks min(k, |scores|) distinct sentences in non-increasing score
      order, and no sentence left out scores higher than one picked. */
  ghost predicate IsTopK(ids: seq<int>, scores: seq<real>, k: int)
  {
    |ids| == (if k < |scores| then k else |scores|)
    && (forall m :: 0 <= m < |ids| ==> 0 <= ids[m] < |scores|)
    && NoDup(ids)
    && (forall m, l :: 0 <= m < l < |ids| ==> scores[ids[m]] >= scores[ids[l]])
    && (forall m, j :: 0 <= m < |ids| && 0 <= j < |scores| && j !in ids ==> scores[j] <= scores[ids[m]])
  }

  lemma {:induction false} NoDupCountAtMostOne<T>(a: seq<T>, x: T)
    requires NoDup(a)
    ensures multiset(a)[x] <= 1
    decreases |a|
  {
    if a != [] {
      var n := |a| - 1;
      assert a == a[..n] + [a[n]];
      NoDupCountAtMostOne(a[..n], x);
      if a[n] == x {
        assert x !in a[..n];
      }
    }
  }

  /** A permutation of a duplicate-free sequence is duplicate-free. */
  lemma PermutationKeepsNoDup<T>(a: seq<T>, b: seq<T>)
    requires multiset(a) == multiset(b) && NoDup(a)
    ensures NoDup(b)
  {
    forall i, j | 0 <= i < j < |b| ensures b[i] != b[j] {
      var x := b[i];
      NoDupCountAtMostOne(a, x);
      assert b == b[..j] + [b[j]] + b[j + 1..];
      assert x in b[..j];
      assert multiset(b)[x] == multiset(b[..j])[x] + multiset([b[j]])[x] + multiset(b[j + 1..])[x];
    }
  }

  /** A permutation of the pairs holds N pairs, each an index in range with
      the score at that index. */
  lemma PermutedPairsInRange(scores: seq<real>, sorted: seq<(int, real)>)
    requires multiset(sorted) == multiset(Pairs(scores))
    ensures |sorted| == |scores|
    ensures forall m :: 0 <= m < |sorted| ==> 0 <= sorted[m].0 < |scores| && sorted[m].1 == scores[sorted[m].0]
  {
    var pairs := Pairs(scores);
    assert |sorted| == |multiset(sorted)| == |multiset(pairs)| == |scores|;
    forall m | 0 <= m < |sorted|
      ensures 0 <= sorted[m].0 < |scores| && sorted[m].1 == scores[sorted[m].0]
    {
      assert sorted[m] in multiset(pairs);
      var i :| 0 <= i < |pairs| && pairs[i] == sorted[m];
    }
  }

  /** The first `n` indices of a permutation of the pairs are distinct. */
  lemma FirstIdsDistinct(scores: seq<real>, sorted: seq<(int, real)>, n: nat)
    requires multiset(sorted) == multiset(Pairs(scores)) && n <= |sorted|
    ensures NoDup(FirstIds(sorted, n))
  {
    var pairs := Pairs(scores);
    var ids := FirstIds(sorted, n);
    PermutedPairsInRange(scores, sorted);
    assert NoDup(pairs);
    PermutationKeepsNoDup(pairs, sorted);
    forall m, l | 0 <= m < l < n ensures ids[m] != ids[l] {
      assert sorted[m] != sorted[l];
    }
  }

  /** In a sorted permutation of the pairs, an index that is not among the
      first `n` scores no higher than any of them. */
  lemma LeftOutScoreNoHigher(scores: seq<real>, sorted: seq<(int, real)>, n: nat)
    requires multiset(sorted) == multiset(Pairs(scores)) && SortedByComp(sorted) && n <= |sorted|
    requires forall m :: 0 <= m < |sorted| ==> 0 <= sorted[m].0 < |scores| && sorted[m].1 == scores[sorted[m].0]
    ensures forall m, j :: 0 <= m < n && 0 <= j < |scores| && j !in FirstIds(sorted, n) ==>
              scores[j] <= scores[sorted[m].0]
  {
    var pairs := Pairs(scores);
    var ids := FirstIds(sorted, n);
    forall m, j | 0 <= m < n && 0 <= j < |scores| && j !in ids
      ensures scores[j] <= scores[sorted[m].0]
    {
      assert pairs[j] in multiset(sorted);
      var p :| 0 <= p < |sorted| && sorted[p] == pairs[j];
      assert sorted[p].0 == j;
      assert p >= n;
      assert !PairComp(sorted[p], sorted[m]);
    }
  }

  /** The first min(k, N) indices of a sorted permutation of the pairs are
      the top k sentences. */
  lemma SortedPrefixIsTopK(scores: seq<real>, sorted: seq<(int, real)>, k: nat)
    requires multiset(sorted) == multiset(Pairs(scores)) && SortedByComp(sorted)
    ensures |sorted| == |scores|
    ensures IsTopK(FirstIds(sorted, if k < |sorted| then k else |sorted|), scores, k)
  {
    PermutedPairsInRange(scores, sorted);
    var n := if k < |sorted| then k else |sorted|;
    var ids := FirstIds(sorted, n);
    FirstIdsDistinct(scores, sorted, n);
    LeftOutScoreNoHigher(scores, sorted, n);
    forall m, l | 0 <= m < l < n ensures scores[ids[m]] >= scores[ids[l]] {
      assert !PairComp(sorted[l], sorted[m]);
    }
  }

  /** Orders the (index, score) pairs by descending score and returns the
      sentences of the first min(topK, N) of them, with their indices. */
  method TopSentences(sentences: seq<string>, scores: seq<real>, topK: int) returns (outputs: seq<string>, ghost ids: seq<int>)
    requires |scores| == |sentences| && topK >= 1
    ensures |outputs| == if topK < |sentences| then topK else |sentences|
    ensures forall k :: 0 <= k < |outputs| ==> outputs[k] in sentences
    ensures IsTopK(ids, scores, topK)
    ensures |outputs| == |ids| && forall k :: 0 <= k < |ids| ==> 0 <= ids[k] < |sentences| && outputs[k] == sentences[ids[k]]
  {
    var kDim := |sentences|;
    var visitPairs := PairUp(scores);
    visitPairs := SortByScore(visitPairs);
    PermutedPairsInRange(scores, visitPairs);
    var n := if topK < kDim then topK else kDim;
    outputs := SentencesOf(sentences, visitPairs, n);
    ids := FirstIds(visitPairs, n);
    SortedPrefixIsTopK(scores, visitPairs, topK);
  }

  /** The sentences named by the first `n` pairs, taken in order. */
  method SentencesOf(sentences: seq<string>, ps: seq<(int, real)>, n: nat) returns (outputs: seq<string>)
    requires n <= |ps| && forall m :: 0 <= m < |ps| ==> 0 <= ps[m].0 < |sentences|
    ensures |outputs| == n && forall k :: 0 <= k < n ==> outputs[k] == sentences[ps[k].0]
  {
    outputs := [];
    var i := 0;
    while i < n
      invariant 0 <= i <= n && |outputs| == i
      invariant forall k :: 0 <= k < i ==> outputs[k] == sentences[ps[k].0]
    {
      outputs := outputs + [sentences[ps[i].0]];
      i := i + 1;
    }
  }
}
