/** The list logic both search variants end with: the `(score, filepath)`
    pairs, the `score > 0` filter, Python's stable
    `sort(key=lambda x: x[0], reverse=True)`, the `[:max_photos]` slice and
    the projection onto filepaths. */
module Ranking {

  /** One `(total_score, filepath)` pair of `photo_scores`. */
  datatype Candidate = Candidate(score: real, path: string)

  /** `[photo for photo in photo_scores if photo[0] > 0]` */
  function Positive(cs: seq<Candidate>): (r: seq<Candidate>)
    ensures |r| <= |cs|
    ensures forall c :: c in r <==> c in cs && c.score > 0.0
    ensures multiset(r) <= multiset(cs)
  {
    if cs == [] then []
    else
      assert cs == [cs[0]] + cs[1..];
      (if cs[0].score > 0.0 then [cs[0]] else []) + Positive(cs[1..])
  }

  /** Scores never increase from left to right. */
  predicate SortedByScore(cs: seq<Candidate>) {
    forall i, j :: 0 <= i < j < |cs| ==> cs[i].score >= cs[j].score
  }

  /** The candidates whose score is `v`, in their order in `cs`. */
  function WithScore(cs: seq<Candidate>, v: real): seq<Candidate> {
    if cs == [] then []
    else (if cs[0].score == v then [cs[0]] else []) + WithScore(cs[1..], v)
  }

  lemma WithScoreCons(c: Candidate, cs: seq<Candidate>, v: real)
    ensures WithScore([c] + cs, v) == (if c.score == v then [c] else []) + WithScore(cs, v)
  {
    assert ([c] + cs)[1..] == cs;
  }

  /** Places `c` in front of the first candidate that does not score more,
      so it stays ahead of the equal scores that follow it. */
  function Insert(c: Candidate, cs: seq<Candidate>): (r: seq<Candidate>)
    requires SortedByScore(cs)
    ensures SortedByScore(r)
    ensures multiset(r) == multiset(cs) + multiset{c}
    ensures forall v :: WithScore(r, v) == if c.score == v then [c] + WithScore(cs, v) else WithScore(cs, v)
  {
    if cs == [] || cs[0].score <= c.score then
      InsertFront(c, cs);
      [c] + cs
    else
      var rest := Insert(c, cs[1..]);
      InsertBehind(c, cs, rest);
      [cs[0]] + rest
  }

  /** A candidate placed ahead of a list it scores at least as high as
      keeps the list sorted. */
  lemma SortedCons(x: Candidate, rest: seq<Candidate>)
    requires SortedByScore(rest)
    requires forall y :: y in rest ==> x.score >= y.score
    ensures SortedByScore([x] + rest)
  {
    var r := [x] + rest;
    forall i, j | 0 <= i < j < |r| ensures r[i].score >= r[j].score {
      assert r[j] == rest[j - 1];
      if i > 0 {
        assert r[i] == rest[i - 1];
      } else {
        assert rest[j - 1] in rest;
      }
    }
  }

  lemma InsertFront(c: Candidate, cs: seq<Candidate>)
    requires SortedByScore(cs)
    requires cs == [] || cs[0].score <= c.score
    ensures SortedByScore([c] + cs)
    ensures multiset([c] + cs) == multiset(cs) + multiset{c}
    ensures forall v :: WithScore([c] + cs, v) == if c.score == v then [c] + WithScore(cs, v) else WithScore(cs, v)
  {
    forall y | y in cs ensures c.score >= y.score {
      var j :| 0 <= j < |cs| && cs[j] == y;
      assert cs[0].score >= cs[j].score;
    }
    SortedCons(c, cs);
    forall v ensures WithScore([c] + cs, v) == if c.score == v then [c] + WithScore(cs, v) else WithScore(cs, v) {
      WithScoreCons(c, cs, v);
    }
  }

  lemma InsertBehind(c: Candidate, cs: seq<Candidate>, rest: seq<Candidate>)
    requires cs != [] && cs[0].score > c.score && SortedByScore(cs)
    requires SortedByScore(rest)
    requires multiset(rest) == multiset(cs[1..]) + multiset{c}
    requires forall v :: WithScore(rest, v) == if c.score == v then [c] + WithScore(cs[1..], v) else WithScore(cs[1..], v)
    ensures SortedByScore([cs[0]] + rest)
    ensures multiset([cs[0]] + rest) == multiset(cs) + multiset{c}
    ensures forall v :: WithScore([cs[0]] + rest, v) == if c.score == v then [c] + WithScore(cs, v) else WithScore(cs, v)
  {
    InsertBehindSorted(c, cs, rest);
    assert cs == [cs[0]] + cs[1..];
    forall v ensures WithScore([cs[0]] + rest, v) == (if c.score == v then [c] + WithScore(cs, v) else WithScore(cs, v)) {
      InsertBehindWithScore(c, cs, rest, v);
    }
  }

  lemma InsertBehindSorted(c: Candidate, cs: seq<Candidate>, rest: seq<Candidate>)
    requires cs != [] && cs[0].score > c.score && SortedByScore(cs)
    requires SortedByScore(rest)
    requires multiset(rest) == multiset(cs[1..]) + multiset{c}
    ensures SortedByScore([cs[0]] + rest)
  {
    forall y | y in rest ensures cs[0].score >= y.score {
      assert y in multiset(rest);
      if y != c {
        assert y in multiset(cs[1..]);
        var j :| 0 <= j < |cs[1..]| && cs[1..][j] == y;
        assert cs[0].score >= cs[j + 1].score;
      }
    }
    SortedCons(cs[0], rest);
  }

  lemma InsertBehindWithScore(c: Candidate, cs: seq<Candidate>, rest: seq<Candidate>, v: real)
    requires cs != [] && cs[0].score > c.score
    requires WithScore(rest, v) == if c.score == v then [c] + WithScore(cs[1..], v) else WithScore(cs[1..], v)
    ensures WithScore([cs[0]] + rest, v) == if c.score == v then [c] + WithScore(cs, v) else WithScore(cs, v)
  {
    var head: seq<Candidate> := if cs[0].score == v then [cs[0]] else [];
    WithScoreCons(cs[0], rest, v);
    WithScoreCons(cs[0], cs[1..], v);
    assert cs == [cs[0]] + cs[1..];
    assert WithScore(cs, v) == head + WithScore(cs[1..], v);
    if c.score == v {
      assert head == [];
      assert WithScore([cs[0]] + rest, v) == WithScore(rest, v);
      assert WithScore(cs, v) == WithScore(cs[1..], v);
    }
  }

  /** `sort(key=score, reverse=True)`: scores in non-increasing order, the
      same candidates, and among equal scores the input order (the sort is
      stable). */
  function SortByScore(cs: seq<Candidate>): (r: seq<Candidate>)
    ensures SortedByScore(r)
    ensures multiset(r) == multiset(cs)
    ensures forall v :: WithScore(r, v) == WithScore(cs, v)
  {
    if cs == [] then []
    else
      var rest := SortByScore(cs[1..]);
      assert cs == [cs[0]] + cs[1..];
      forall v ensures WithScore(cs, v) == (if cs[0].score == v then [cs[0]] + WithScore(cs[1..], v) else WithScore(cs[1..], v)) {
        WithScoreCons(cs[0], cs[1..], v);
      }
      Insert(cs[0], rest)
  }

  /** Python's `s[:m]`, negative `m` counting from the end. */
  function Slice<T>(s: seq<T>, m: int): (r: seq<T>)
    ensures |r| == if m >= 0 then (if m <= |s| then m else |s|) else (if |s| + m >= 0 then |s| + m else 0)
    ensures r == s[..|r|]
  {
    if m >= 0 then (if m <= |s| then s[..m] else s)
    else if |s| + m >= 0 then s[..|s| + m]
    else []
  }

  /** `photo_scores` filtered, sorted and sliced. */
  function Top(cs: seq<Candidate>, maxPhotos: int): (r: seq<Candidate>)
    ensures forall c :: c in r ==> c in cs && c.score > 0.0
    ensures SortedByScore(r)
    ensures maxPhotos >= 0 ==> |r| <= maxPhotos
    ensures |r| == (var n := |Positive(cs)|; if maxPhotos >= 0 then (if maxPhotos <= n then maxPhotos else n) else (if n + maxPhotos >= 0 then n + maxPhotos else 0))
  {
    var sorted := SortByScore(Positive(cs));
    var r := Slice(sorted, maxPhotos);
    assert forall c :: c in r ==> c in multiset(sorted);
    r
  }

  /** `[photo[1] for photo in best_photos]` */
  function Paths(cs: seq<Candidate>): (r: seq<string>)
    ensures |r| == |cs| && forall i :: 0 <= i < |cs| ==> r[i] == cs[i].path
  {
    if cs == [] then [] else [cs[0].path] + Paths(cs[1..])
  }

  predicate IsPrefix<T(==)>(a: seq<T>, b: seq<T>) {
    |a| <= |b| && a == b[..|a|]
  }

  lemma {:induction false} WithScoreOfPrefix(cs: seq<Candidate>, k: nat, v: real)
    requires k <= |cs|
    ensures IsPrefix(WithScore(cs[..k], v), WithScore(cs, v))
    decreases k
  {
    if k > 0 {
      WithScoreOfPrefix(cs[1..], k - 1, v);
      assert cs[..k] == [cs[0]] + cs[1..][..k - 1];
      WithScoreCons(cs[0], cs[1..][..k - 1], v);
      WithScoreCons(cs[0], cs[1..], v);
      assert cs == [cs[0]] + cs[1..];
    }
  }

  lemma PositiveCons(c: Candidate, cs: seq<Candidate>)
    ensures Positive([c] + cs) == (if c.score > 0.0 then [c] else []) + Positive(cs)
  {
    assert ([c] + cs)[1..] == cs;
  }

  lemma {:induction false} WithScoreOfPositive(cs: seq<Candidate>, v: real)
    ensures WithScore(Positive(cs), v) == if v > 0.0 then WithScore(cs, v) else []
  {
    if cs != [] {
      var c, rest := cs[0], cs[1..];
      var p := Positive(rest);
      WithScoreOfPositive(rest, v);
      assert cs == [c] + rest;
      PositiveCons(c, rest);
      WithScoreCons(c, rest, v);
      if c.score > 0.0 {
        WithScoreCons(c, p, v);
      } else {
        assert Positive(cs) == p;
      }
    }
  }

  /** Ties keep input order: among the candidates of any one score, those
      kept are the first ones of that score in `photo_scores`. */
  lemma TopStable(cs: seq<Candidate>, maxPhotos: int, v: real)
    ensures IsPrefix(WithScore(Top(cs, maxPhotos), v), WithScore(cs, v))
  {
    var sorted := SortByScore(Positive(cs));
    var r := Top(cs, maxPhotos);
    assert r == sorted[..|r|];
    WithScoreOfPrefix(sorted, |r|, v);
    WithScoreOfPositive(cs, v);
  }

  /** A positive candidate that was cut off scores no more than any kept one. */
  lemma TopKeepsBest(cs: seq<Candidate>, maxPhotos: int, c: Candidate)
    requires c in cs && c.score > 0.0 && c !in Top(cs, maxPhotos)
    ensures forall x :: x in Top(cs, maxPhotos) ==> x.score >= c.score
  {
    var sorted := SortByScore(Positive(cs));
    var r := Top(cs, maxPhotos);
    assert r == sorted[..|r|];
    assert c in multiset(sorted);
    var i :| 0 <= i < |sorted| && sorted[i] == c;
    assert i >= |r|;
  }

  /** Every path returned is that of a candidate that scored above zero. */
  lemma PathInTop(cs: seq<Candidate>, maxPhotos: int, p: string)
    requires p in Paths(Top(cs, maxPhotos))
    ensures exists i :: 0 <= i < |cs| && cs[i].path == p && cs[i].score > 0.0
  {
    var top := Top(cs, maxPhotos);
    var ps := Paths(top);
    var k :| 0 <= k < |ps| && ps[k] == p;
    assert top[k] in top;
    var i :| 0 <= i < |cs| && cs[i] == top[k];
  }

  lemma PositiveEmpty(cs: seq<Candidate>)
    ensures Positive(cs) == [] <==> forall c :: c in cs ==> c.score <= 0.0
  {
    if Positive(cs) != [] {
      assert Positive(cs)[0] in Positive(cs);
    }
  }

  /** Nothing is returned exactly when nothing scores above zero or the
      slice is empty. */
  lemma TopEmpty(cs: seq<Candidate>, maxPhotos: int)
    ensures Top(cs, maxPhotos) == [] <==>
      (forall c :: c in cs ==> c.score <= 0.0) || maxPhotos == 0 || maxPhotos + |Positive(cs)| <= 0
  {
    PositiveEmpty(cs);
    var r := Top(cs, maxPhotos);
    assert r == [] <==> |r| == 0;
  }

  /** When fewer than `maxPhotos` candidates are kept, every positive
      candidate is kept. */
  lemma TopUnderFull(cs: seq<Candidate>, maxPhotos: int)
    requires 0 <= |Top(cs, maxPhotos)| < maxPhotos
    ensures forall c :: c in cs && c.score > 0.0 ==> c in Top(cs, maxPhotos)
  {
    var sorted := SortByScore(Positive(cs));
    var r := Top(cs, maxPhotos);
    assert r == sorted[..|r|] == sorted;
    forall c | c in cs && c.score > 0.0 ensures c in r {
      assert c in multiset(sorted);
    }
  }

  /** A candidate's score multiplied by `k`. */
  function Scaled(c: Candidate, k: real): Candidate {
    Candidate(k * c.score, c.path)
  }

  lemma ScaledOrder(c: Candidate, d: Candidate, k: real)
    requires k > 0.0
    ensures Scaled(c, k).score > 0.0 <==> c.score > 0.0
    ensures Scaled(c, k).score <= Scaled(d, k).score <==> c.score <= d.score
  {
    if c.score > 0.0 {
      assert k * c.score > 0.0;
    }
    if k * c.score > 0.0 {
      assert c.score > 0.0;
    }
    if c.score <= d.score {
      assert k * (d.score - c.score) >= 0.0;
    }
    if k * c.score <= k * d.score {
      assert k * (d.score - c.score) >= 0.0;
    }
  }

  /** Every score multiplied by `k`, as when one variant of the search
      weighs each matching tag by a constant and the other counts it once. */
  function Scale(cs: seq<Candidate>, k: real): (r: seq<Candidate>)
    ensures |r| == |cs| && forall i :: 0 <= i < |cs| ==> r[i] == Scaled(cs[i], k)
  {
    if cs == [] then [] else [Scaled(cs[0], k)] + Scale(cs[1..], k)
  }

  lemma ScaleConcat(a: seq<Candidate>, b: seq<Candidate>, k: real)
    ensures Scale(a + b, k) == Scale(a, k) + Scale(b, k)
  {
    var x, y := Scale(a + b, k), Scale(a, k) + Scale(b, k);
    assert |x| == |y|;
    forall i | 0 <= i < |x| ensures x[i] == y[i] {
      if i < |a| {
        assert (a + b)[i] == a[i];
      } else {
        assert (a + b)[i] == b[i - |a|];
      }
    }
  }

  lemma {:induction false} PositiveScale(cs: seq<Candidate>, k: real)
    requires k > 0.0
    ensures Positive(Scale(cs, k)) == Scale(Positive(cs), k)
  {
    if cs != [] {
      var c, rest := cs[0], cs[1..];
      var d, scaledRest := Scaled(c, k), Scale(rest, k);
      assert cs == [c] + rest;
      assert Scale(cs, k) == [d] + scaledRest;
      PositiveCons(d, scaledRest);
      PositiveScale(rest, k);
      PositiveCons(c, rest);
      ScaledOrder(c, c, k);
      var head: seq<Candidate> := if c.score > 0.0 then [c] else [];
      var scaledHead: seq<Candidate> := if d.score > 0.0 then [d] else [];
      assert Scale(head, k) == scaledHead;
      ScaleConcat(head, Positive(rest), k);
    }
  }

  lemma ScaleSorted(cs: seq<Candidate>, k: real)
    requires k > 0.0 && SortedByScore(cs)
    ensures SortedByScore(Scale(cs, k))
  {
    forall i, j | 0 <= i < j < |cs| ensures Scale(cs, k)[i].score >= Scale(cs, k)[j].score {
      ScaledOrder(cs[j], cs[i], k);
    }
  }

  lemma {:induction false} InsertScale(c: Candidate, cs: seq<Candidate>, k: real)
    requires k > 0.0 && SortedByScore(cs)
    ensures SortedByScore(Scale(cs, k))
    ensures Insert(Scaled(c, k), Scale(cs, k)) == Scale(Insert(c, cs), k)
    decreases |cs|
  {
    ScaleSorted(cs, k);
    var sc, scs := Scaled(c, k), Scale(cs, k);
    if cs != [] {
      ScaledOrder(cs[0], c, k);
      assert scs[0] == Scaled(cs[0], k);
      if cs[0].score <= c.score {
        assert Insert(c, cs) == [c] + cs;
        assert Insert(sc, scs) == [sc] + scs;
        ScaleConcat([c], cs, k);
      } else {
        var rest := Insert(c, cs[1..]);
        assert Insert(c, cs) == [cs[0]] + rest;
        assert Insert(sc, scs) == [scs[0]] + Insert(sc, scs[1..]);
        InsertScale(c, cs[1..], k);
        assert scs[1..] == Scale(cs[1..], k);
        ScaleConcat([cs[0]], rest, k);
      }
    }
  }

  lemma {:induction false} SortByScoreScale(cs: seq<Candidate>, k: real)
    requires k > 0.0
    ensures SortByScore(Scale(cs, k)) == Scale(SortByScore(cs), k)
  {
    if cs != [] {
      var scs := Scale(cs, k);
      SortByScoreScale(cs[1..], k);
      assert scs[0] == Scaled(cs[0], k) && scs[1..] == Scale(cs[1..], k);
      InsertScale(cs[0], SortByScore(cs[1..]), k);
    }
  }

  lemma SliceScale(cs: seq<Candidate>, k: real, m: int)
    ensures Slice(Scale(cs, k), m) == Scale(Slice(cs, m), k)
  {
    var a, b := Slice(Scale(cs, k), m), Scale(Slice(cs, m), k);
    assert |a| == |b|;
    forall i | 0 <= i < |a| ensures a[i] == b[i] {
    }
  }

  /** Multiplying every score by the same positive constant keeps the
      same candidates in the same order. */
  lemma TopScale(cs: seq<Candidate>, k: real, m: int)
    requires k > 0.0
    ensures Top(Scale(cs, k), m) == Scale(Top(cs, m), k)
    ensures Paths(Top(Scale(cs, k), m)) == Paths(Top(cs, m))
  {
    PositiveScale(cs, k);
    SortByScoreScale(Positive(cs), k);
    SliceScale(SortByScore(Positive(cs)), k, m);
    var a, b := Paths(Top(Scale(cs, k), m)), Paths(Top(cs, m));
    assert |a| == |b|;
  }
}
