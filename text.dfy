/** Byte strings and the string operations the ranker relies on: searching
    (std::string::find), replace-all, a single-delimiter split and its inverse.
    A `string` here is a sequence of bytes: each `char` is read as one byte. */
module Text {

  datatype Option<T> = None | Some(value: T)

  /** `pat` occurs in `s` starting at offset `q`. */
  predicate IsAt(s: string, pat: string, q: int)
  {
    0 <= q && q + |pat| <= |s| && s[q..q + |pat|] == pat
  }

  /** `pat` occurs somewhere in `s`. */
  ghost predicate Occurs(s: string, pat: string)
  {
    exists q :: IsAt(s, pat, q)
  }

  /** No byte of `a` is a byte of `b`. */
  predicate NoSharedChar(a: string, b: string)
  {
    forall i :: 0 <= i < |a| ==> a[i] !in b
  }

  /** No value appears twice. */
  ghost predicate NoDup<T>(s: seq<T>)
  {
    forall i, j :: 0 <= i < j < |s| ==> s[i] != s[j]
  }

  /** The position of the first occurrence of `pat` at or after `start`,
      as std::string::find(pat, start) reports it (None stands for npos). */
  function Find(s: string, pat: string, start: nat): (r: Option<nat>)
    ensures r.Some? ==> start <= r.value && IsAt(s, pat, r.value)
    ensures r.Some? ==> forall q :: start <= q < r.value ==> !IsAt(s, pat, q)
    ensures r.None? ==> forall q :: start <= q ==> !IsAt(s, pat, q)
    decreases |s| - start
  {
    if start + |pat| > |s| then None
    else if s[start..start + |pat|] == pat then Some(start)
    else Find(s, pat, start + 1)
  }

  lemma OccursFromFind(s: string, pat: string)
    ensures Find(s, pat, 0).Some? <==> Occurs(s, pat)
  {
    var r := Find(s, pat, 0);
    if r.Some? {
      assert IsAt(s, pat, r.value);
    }
  }

  /** Leftmost, non-overlapping replacement of every occurrence of `from` by
      `to`, scanning resumes after the inserted text. This is the reference
      meaning of a replace-all. */
  function ReplaceAll(s: string, from: string, to: string): string
    requires from != []
    decreases |s|
  {
    if |s| < |from| then s
    else if s[..|from|] == from then to + ReplaceAll(s[|from|..], from, to)
    else [s[0]] + ReplaceAll(s[1..], from, to)
  }

  /** Replacing a string by itself changes nothing. */
  lemma {:induction false} ReplaceAllIdentity(s: string, p: string)
    requires p != []
    ensures ReplaceAll(s, p, p) == s
    decreases |s|
  {
    if |s| < |p| {
    } else if s[..|p|] == p {
      ReplaceAllIdentity(s[|p|..], p);
      assert s == p + s[|p|..];
    } else {
      ReplaceAllIdentity(s[1..], p);
      assert s == [s[0]] + s[1..];
    }
  }

  /** Replacing never lengthens the text when `to` is no longer than `from`. */
  lemma {:induction false} ReplaceAllNoLonger(s: string, from: string, to: string)
    requires from != [] && |to| <= |from|
    ensures |ReplaceAll(s, from, to)| <= |s|
    decreases |s|
  {
    if |s| < |from| {
    } else if s[..|from|] == from {
      ReplaceAllNoLonger(s[|from|..], from, to);
    } else {
      ReplaceAllNoLonger(s[1..], from, to);
    }
  }

  /** With no match at or after `start`, the tail is left as it is. */
  lemma {:induction false} ReplaceAllNoMatch(s: string, from: string, to: string, start: nat)
    requires from != [] && start <= |s|
    requires forall q :: start <= q ==> !IsAt(s, from, q)
    ensures ReplaceAll(s[start..], from, to) == s[start..]
    decreases |s| - start
  {
    var t := s[start..];
    if |t| < |from| {
    } else {
      assert !IsAt(s, from, start);
      assert t[..|from|] == s[start..start + |from|];
      assert t[1..] == s[start + 1..];
      ReplaceAllNoMatch(s, from, to, start + 1);
    }
  }

  /** The first match at or after `start`, at `p`, is where the replace-all of
      the tail inserts its first `to`. */
  lemma {:induction false} ReplaceAllFirstMatch(s: string, from: string, to: string, start: nat, p: nat)
    requires from != [] && start <= p
    requires IsAt(s, from, p)
    requires forall q :: start <= q < p ==> !IsAt(s, from, q)
    ensures ReplaceAll(s[start..], from, to) == s[start..p] + to + ReplaceAll(s[p + |from|..], from, to)
    decreases p - start
  {
    var t := s[start..];
    assert t[..|from|] == s[start..start + |from|];
    if p == start {
      assert t[|from|..] == s[p + |from|..];
    } else {
      assert !IsAt(s, from, start);
      assert t[1..] == s[start + 1..];
      ReplaceAllFirstMatch(s, from, to, start + 1, p);
      assert s[start..p] == [s[start]] + s[start + 1..p];
    }
  }

  /** A prefix `w` in which `from` cannot start passes through unchanged. */
  lemma {:induction false} ReplaceAllSkipsPrefix(w: string, t: string, from: string, to: string)
    requires from != [] && from[0] !in w
    ensures ReplaceAll(w + t, from, to) == w + ReplaceAll(t, from, to)
    decreases |w|
  {
    if w == [] {
      assert w + t == t;
    } else if |w + t| < |from| {
    } else {
      assert (w + t)[0] == w[0] != from[0];
      assert (w + t)[1..] == w[1..] + t;
      ReplaceAllSkipsPrefix(w[1..], t, from, to);
    }
  }

  /** When no byte of the result's first `m` bytes comes from `to`, those
      bytes are the first `m` bytes of the input. */
  lemma {:induction false} ReplaceAllUntouchedPrefix(t: string, from: string, to: string, m: nat)
    requires from != [] && to != []
    requires m <= |ReplaceAll(t, from, to)|
    requires forall i :: 0 <= i < m ==> ReplaceAll(t, from, to)[i] !in to
    ensures m <= |t| && ReplaceAll(t, from, to)[..m] == t[..m]
    decreases |t|
  {
    var r := ReplaceAll(t, from, to);
    if |t| < |from| {
    } else if t[..|from|] == from {
      assert r[0] == to[0];
    } else if m > 0 {
      forall i | 0 <= i < m - 1 ensures ReplaceAll(t[1..], from, to)[i] !in to {
        assert r[i + 1] == ReplaceAll(t[1..], from, to)[i];
      }
      ReplaceAllUntouchedPrefix(t[1..], from, to, m - 1);
      assert r[..m] == [t[0]] + ReplaceAll(t[1..], from, to)[..m - 1];
      assert t[..m] == [t[0]] + t[1..][..m - 1];
    }
  }

  /** Absence of `pat` in a text carries over to each of its suffixes. */
  lemma SuffixKeepsAbsent(s: string, k: nat, pat: string)
    requires k <= |s|
    ensures !Occurs(s, pat) ==> !Occurs(s[k..], pat)
  {
    if !Occurs(s, pat) {
      forall q ensures !IsAt(s[k..], pat, q) {
        if 0 <= q && q + |pat| <= |s| - k {
          assert s[k..][q..q + |pat|] == s[k + q..k + q + |pat|];
          assert !IsAt(s, pat, k + q);
        }
      }
    }
  }

  /** `pat` cannot start inside a prefix `w` none of whose bytes is its
      first byte, so it occurs in `w + rest` only if it occurs in `rest`. */
  lemma AbsentAfterForeignPrefix(w: string, rest: string, pat: string)
    requires pat != [] && pat[0] !in w && !Occurs(rest, pat)
    ensures !Occurs(w + rest, pat)
  {
    var r := w + rest;
    forall q ensures !IsAt(r, pat, q) {
      if 0 <= q < |w| {
        assert r[q] == w[q];
      } else if q >= |w| && q + |pat| <= |r| {
        assert r[q..q + |pat|] == rest[q - |w|..q - |w| + |pat|];
        assert !IsAt(rest, pat, q - |w|);
      }
    }
  }

  /** The step of ReplaceAllAvoids where the text does not start with `from`:
      an occurrence at the front of the result would be one at the front of
      the text. */
  lemma AbsentAfterKeptByte(s: string, from: string, to: string, pat: string)
    requires from != [] && to != [] && pat != [] && NoSharedChar(pat, to)
    requires |s| >= |from| && s[..|from|] != from
    requires pat == from || !Occurs(s, pat)
    requires !Occurs(ReplaceAll(s[1..], from, to), pat)
    ensures !Occurs([s[0]] + ReplaceAll(s[1..], from, to), pat)
  {
    var rest := ReplaceAll(s[1..], from, to);
    var r := [s[0]] + rest;
    forall q ensures !IsAt(r, pat, q) {
      if q == 0 && |pat| <= |r| {
        var m := |pat| - 1;
        assert r[..|pat|] == [s[0]] + rest[..m];
        if rest[..m] == pat[1..] {
          forall i | 0 <= i < m ensures rest[i] !in to {
            assert rest[i] == pat[i + 1];
          }
          ReplaceAllUntouchedPrefix(s[1..], from, to, m);
          assert s[..|pat|] == [s[0]] + s[1..][..m];
          assert !IsAt(s, pat, 0);
        }
      } else if q >= 1 && q + |pat| <= |r| {
        assert r[q..q + |pat|] == rest[q - 1..q - 1 + |pat|];
        assert !IsAt(rest, pat, q - 1);
      }
    }
  }

  /** A replace-all whose `to` shares no byte with `pat` leaves no occurrence
      of `pat` behind, when `pat` is the replaced string itself or did not
      occur in the text before. */
  lemma {:induction false} ReplaceAllAvoids(s: string, from: string, to: string, pat: string)
    requires from != [] && to != [] && pat != [] && NoSharedChar(pat, to)
    requires pat == from || !Occurs(s, pat)
    ensures !Occurs(ReplaceAll(s, from, to), pat)
    decreases |s|
  {
    assert pat[0] !in to;
    if |s| < |from| {
    } else if s[..|from|] == from {
      SuffixKeepsAbsent(s, |from|, pat);
      ReplaceAllAvoids(s[|from|..], from, to, pat);
      AbsentAfterForeignPrefix(to, ReplaceAll(s[|from|..], from, to), pat);
    } else {
      SuffixKeepsAbsent(s, 1, pat);
      ReplaceAllAvoids(s[1..], from, to, pat);
      AbsentAfterKeptByte(s, from, to, pat);
    }
  }

  /** Replace-all applied for each pattern of `ps` in turn. */
  function ReplaceEach(s: string, ps: seq<string>, to: string): string
    requires forall k :: 0 <= k < |ps| ==> ps[k] != []
  {
    if ps == [] then s
    else ReplaceAll(ReplaceEach(s, ps[..|ps| - 1], to), ps[|ps| - 1], to)
  }

  /** After replacing each pattern by a one-byte `to` that none of them holds
      (except `to` itself), no pattern other than `to` is left in the text. */
  lemma {:induction false} ReplaceEachRemovesAll(s: string, ps: seq<string>, to: string, k: nat)
    requires |to| == 1
    requires forall i :: 0 <= i < |ps| ==> ps[i] != [] && (ps[i] == to || NoSharedChar(ps[i], to))
    requires k < |ps| && ps[k] != to
    ensures !Occurs(ReplaceEach(s, ps, to), ps[k])
    decreases |ps|
  {
    var n := |ps| - 1;
    var before := ReplaceEach(s, ps[..n], to);
    assert forall i :: 0 <= i < n ==> ps[..n][i] == ps[i];
    if k == n {
      ReplaceAllAvoids(before, ps[n], to, ps[n]);
    } else {
      ReplaceEachRemovesAll(s, ps[..n], to, k);
      assert ps[..n][k] == ps[k];
      if ps[n] == to {
        ReplaceAllIdentity(before, to);
      } else {
        assert to[0] !in ps[k];
        ReplaceAllAvoids(before, ps[n], to, ps[k]);
      }
    }
  }

  /** Replacing each pattern by a `to` no longer than it never lengthens the text. */
  lemma {:induction false} ReplaceEachNoLonger(s: string, ps: seq<string>, to: string)
    requires forall i :: 0 <= i < |ps| ==> ps[i] != [] && |to| <= |ps[i]|
    ensures |ReplaceEach(s, ps, to)| <= |s|
    decreases |ps|
  {
    if ps != [] {
      var n := |ps| - 1;
      assert forall i :: 0 <= i < n ==> ps[..n][i] == ps[i];
      ReplaceEachNoLonger(s, ps[..n], to);
      ReplaceAllNoLonger(ReplaceEach(s, ps[..n], to), ps[n], to);
    }
  }

  /** The pieces of `s` between consecutive occurrences of the delimiter `d`,
      empty pieces included (a single-delimiter split). */
  function Split(s: string, d: char): (r: seq<string>)
    ensures |r| >= 1
    ensures forall k :: 0 <= k < |r| ==> d !in r[k]
    decreases |s|
  {
    if s == [] then [[]]
    else
      var rest := Split(s[1..], d);
      if s[0] == d then [[]] + rest
      else [[s[0]] + rest[0]] + rest[1..]
  }

  /** The pieces glued back together with `d` between them. */
  function Join(ps: seq<string>, d: char): string
    requires |ps| >= 1
  {
    if |ps| == 1 then ps[0] else ps[0] + [d] + Join(ps[1..], d)
  }

  /** Joining the pieces of a split gives back the text. */
  lemma {:induction false} JoinSplit(s: string, d: char)
    ensures Join(Split(s, d), d) == s
    decreases |s|
  {
    if s != [] {
      var rest := Split(s[1..], d);
      JoinSplit(s[1..], d);
      if s[0] == d {
        assert ([[]] + rest)[1..] == rest;
      } else {
        var r := [[s[0]] + rest[0]] + rest[1..];
        assert r[1..] == rest[1..];
        if |rest| > 1 {
          assert rest == [rest[0]] + rest[1..];
        }
      }
    }
  }

  /** Splitting a join of delimiter-free pieces gives back the pieces. */
  lemma {:induction false} SplitJoin(ps: seq<string>, d: char)
    requires |ps| >= 1
    requires forall k :: 0 <= k < |ps| ==> d !in ps[k]
    ensures Split(Join(ps, d), d) == ps
    decreases |ps|, |ps[0]|
  {
    if ps[0] == [] {
      if |ps| > 1 {
        SplitJoin(ps[1..], d);
        var j := Join(ps, d);
        assert j == [d] + Join(ps[1..], d);
        assert j[1..] == Join(ps[1..], d);
        assert ps == [[]] + ps[1..];
      }
    } else {
      var c := ps[0][0];
      var ps' := [ps[0][1..]] + ps[1..];
      assert ps'[1..] == ps[1..];
      SplitJoin(ps', d);
      assert ps == [[c] + ps'[0]] + ps'[1..] by {
        assert ps[0] == [c] + ps[0][1..];
      }
      JoinPrependChar(c, ps', d);
      var j := Join(ps, d);
      assert j == [c] + Join(ps', d);
      assert j[1..] == Join(ps', d);
    }
  }

  /** A character put in front of the first piece leads the join. */
  lemma JoinPrependChar(c: char, ps: seq<string>, d: char)
    requires |ps| >= 1
    ensures Join([[c] + ps[0]] + ps[1..], d) == [c] + Join(ps, d)
  {
    var qs := [[c] + ps[0]] + ps[1..];
    if |ps| > 1 {
      assert qs[1..] == ps[1..];
    }
  }

  /** Every piece of a split stands in the text at some offset. */
  lemma {:induction false} SplitPieceIsAt(s: string, d: char, k: nat) returns (off: nat)
    requires k < |Split(s, d)|
    ensures IsAt(s, Split(s, d)[k], off)
    decreases |s|
  {
    if k == 0 {
      FirstPieceIsPrefix(s, d);
      off := 0;
    } else {
      var piece := Split(s, d)[k];
      var o := SplitPieceIsAt(s[1..], d, if s[0] == d then k - 1 else k);
      assert s[1..][o..o + |piece|] == s[o + 1..o + 1 + |piece|];
      off := o + 1;
    }
  }

  /** The first piece of a split is a prefix of the text. */
  lemma {:induction false} FirstPieceIsPrefix(s: string, d: char)
    ensures IsAt(s, Split(s, d)[0], 0)
    decreases |s|
  {
    if s != [] && s[0] != d {
      var rest := Split(s[1..], d);
      FirstPieceIsPrefix(s[1..], d);
      assert s[..1 + |rest[0]|] == [s[0]] + s[1..][..|rest[0]|];
    }
  }

  /** An occurrence inside a piece that stands in a text is an occurrence in the text. */
  lemma OccursInWhole(s: string, piece: string, off: nat, pat: string)
    requires IsAt(s, piece, off) && Occurs(piece, pat)
    ensures Occurs(s, pat)
  {
    var q :| IsAt(piece, pat, q);
    forall k | 0 <= k < |pat| ensures s[off + q..off + q + |pat|][k] == pat[k] {
      assert pat[k] == piece[q + k];
      assert piece[q + k] == s[off + q + k];
    }
    assert IsAt(s, pat, off + q);
  }

  /** The distinct values of a sequence are no more than its length. */
  lemma {:induction false} DistinctAtMostLength<T>(xs: seq<T>)
    ensures |set x | x in xs| <= |xs|
    decreases |xs|
  {
    if xs != [] {
      var n := |xs| - 1;
      DistinctAtMostLength(xs[..n]);
      assert (set x | x in xs) == (set x | x in xs[..n]) + {xs[n]} by {
        assert xs == xs[..n] + [xs[n]];
      }
    }
  }
}
