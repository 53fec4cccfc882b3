/** The scoring and ranking steps the two `recommend` variants share:
    collaborative and popularity scores, min-max normalisation, the alpha
    blend, removal of seen items, and the sorted, truncated, title-joined
    result. A score series is a sequence of (item_id, score) entries in
    index order, as a pandas Series is. */
module Scoring {
  import opened Tables

  /** One entry of a score series indexed by item_id. */
  datatype Scored = Scored(item: int, score: real)

  /** One output row: item_id, score and the left-joined title, absent when
      no catalogue row matches. */
  datatype Reco = Reco(item: int, score: real, title: Option<string>)

  /** The guard added to the denominator of the min-max scaling (1e-8). */
  const Epsilon: real := 0.00000001

  function Items(s: seq<Scored>): seq<int>
  {
    seq(|s|, k requires 0 <= k < |s| => s[k].item)
  }

  function ScoreOf(e: Scored): real { e.score }

  function RecoScore(r: Reco): real { r.score }

  predicate InUnitRange(s: seq<Scored>)
  {
    forall k :: 0 <= k < |s| ==> 0.0 <= s[k].score < 1.0
  }

  // ---------------------------------------------------------------------
  // Similarities and collaborative scores

  /** cosine(target row, row u) for every matrix row u, indexed like the rows. */
  function Similarities(m: Matrix, t: nat, cosine: (seq<real>, seq<real>) -> real): (sims: seq<real>)
    requires m.WellFormed() && t < |m.users|
    ensures |sims| == |m.users|
  {
    seq(|m.users|, u requires 0 <= u < |m.users| => cosine(m.cells[t], m.cells[u]))
  }

  /** Sum over the first n rows u of cells[u][j] * sims[u]. */
  function ColumnDot(cells: seq<seq<real>>, sims: seq<real>, j: nat, n: nat): real
    requires n <= |cells| && n <= |sims|
    requires forall u :: 0 <= u < |cells| ==> j < |cells[u]|
  {
    if n == 0 then 0.0 else ColumnDot(cells, sims, j, n - 1) + cells[n - 1][j] * sims[n - 1]
  }

  /** The transposed matrix times the similarity vector, indexed by the
      matrix columns. */
  function Collaborative(m: Matrix, sims: seq<real>): (r: seq<Scored>)
    requires m.WellFormed() && |sims| == |m.users|
    ensures Items(r) == m.items
  {
    seq(|m.items|, j requires 0 <= j < |m.items| =>
      Scored(m.items[j], ColumnDot(m.cells, sims, j, |m.users|)))
  }

  /** Every row takes part, the target's own row included: when only the
      target t has a non-zero similarity (1.0, as against itself), the
      collaborative score of each item is the target's own rating of it. */
  lemma {:induction false} CollaborativeSelfOnly(m: Matrix, sims: seq<real>, t: nat)
    requires m.WellFormed() && |sims| == |m.users| && t < |sims|
    requires sims[t] == 1.0
    requires forall u :: 0 <= u < |sims| && u != t ==> sims[u] == 0.0
    ensures forall j :: 0 <= j < |m.items| ==> Collaborative(m, sims)[j].score == m.cells[t][j]
  {
    forall j | 0 <= j < |m.items|
      ensures Collaborative(m, sims)[j].score == m.cells[t][j]
    {
      SelfOnlyPrefix(m, sims, t, j, |m.users|);
    }
  }

  lemma {:induction false} SelfOnlyPrefix(m: Matrix, sims: seq<real>, t: nat, j: nat, n: nat)
    requires m.WellFormed() && |sims| == |m.users| && t < |sims| && j < |m.items| && n <= |sims|
    requires sims[t] == 1.0
    requires forall u :: 0 <= u < |sims| && u != t ==> sims[u] == 0.0
    ensures ColumnDot(m.cells, sims, j, n) == if n <= t then 0.0 else m.cells[t][j]
  {
    if n > 0 {
      SelfOnlyPrefix(m, sims, t, j, n - 1);
    }
  }

  // ---------------------------------------------------------------------
  // Popularity: the mean raw rating per item

  function RatingSum(rs: seq<Rating>, item: int): real
  {
    if rs == [] then 0.0
    else (if rs[0].item == item then rs[0].rating else 0.0) + RatingSum(rs[1..], item)
  }

  function RatingCount(rs: seq<Rating>, item: int): nat
  {
    if rs == [] then 0
    else (if rs[0].item == item then 1 else 0) + RatingCount(rs[1..], item)
  }

  lemma {:induction false} CountPositive(rs: seq<Rating>, item: int)
    requires item in ItemIds(rs)
    ensures RatingCount(rs, item) > 0
  {
    if rs[0].item != item {
      assert ItemIds(rs) == [rs[0].item] + ItemIds(rs[1..]);
      CountPositive(rs[1..], item);
    }
  }

  function Mean(rs: seq<Rating>, item: int): real
    requires RatingCount(rs, item) > 0
  {
    RatingSum(rs, item) / RatingCount(rs, item) as real
  }

  /** groupby(item_id)[rating].mean(): one entry per distinct rated item, in
      sorted order, holding the mean of the raw ratings of that item. */
  function Popularity(rs: seq<Rating>): (r: seq<Scored>)
    ensures Items(r) == SortedDistinct(ItemIds(rs))
    ensures forall k :: 0 <= k < |r| ==>
              RatingCount(rs, r[k].item) > 0 && r[k].score == Mean(rs, r[k].item)
  {
    var ids := SortedDistinct(ItemIds(rs));
    assert forall k :: 0 <= k < |ids| ==> RatingCount(rs, ids[k]) > 0 by {
      forall k | 0 <= k < |ids| ensures RatingCount(rs, ids[k]) > 0 {
        CountPositive(rs, ids[k]);
      }
    }
    seq(|ids|, k requires 0 <= k < |ids| => Scored(ids[k], Mean(rs, ids[k])))
  }

  lemma {:induction false} SumAtLeast(rs: seq<Rating>, item: int, lo: real)
    requires forall k :: 0 <= k < |rs| && rs[k].item == item ==> lo <= rs[k].rating
    ensures lo * RatingCount(rs, item) as real <= RatingSum(rs, item)
  {
    if rs != [] {
      var tail := rs[1..];
      assert forall k :: 0 <= k < |tail| ==> tail[k] == rs[k + 1];
      SumAtLeast(tail, item, lo);
      SumStep(rs, item, lo);
    }
  }

  lemma {:induction false} SumAtMost(rs: seq<Rating>, item: int, hi: real)
    requires forall k :: 0 <= k < |rs| && rs[k].item == item ==> rs[k].rating <= hi
    ensures RatingSum(rs, item) <= hi * RatingCount(rs, item) as real
  {
    if rs != [] {
      var tail := rs[1..];
      assert forall k :: 0 <= k < |tail| ==> tail[k] == rs[k + 1];
      SumAtMost(tail, item, hi);
      SumStep(rs, item, hi);
    }
  }

  /** One record more: the count grows by one and the sum by the rating when
      the record is for the item; otherwise neither changes. */
  lemma SumStep(rs: seq<Rating>, item: int, a: real)
    requires rs != []
    ensures rs[0].item == item ==>
              && RatingSum(rs, item) == rs[0].rating + RatingSum(rs[1..], item)
              && a * RatingCount(rs, item) as real == a * RatingCount(rs[1..], item) as real + a
    ensures rs[0].item != item ==>
              && RatingSum(rs, item) == RatingSum(rs[1..], item)
              && RatingCount(rs, item) == RatingCount(rs[1..], item)
  {
    ScaleStep(a, RatingCount(rs[1..], item) as real);
  }

  lemma ScaleStep(a: real, c: real)
    ensures a * (c + 1.0) == a * c + a
  {
  }

  /** Only recorded ratings count: when every rating of the item lies in
      [lo, hi], so does its popularity, whatever zeros the dense matrix holds. */
  lemma MeanWithinRatings(rs: seq<Rating>, item: int, lo: real, hi: real)
    requires RatingCount(rs, item) > 0
    requires forall k :: 0 <= k < |rs| && rs[k].item == item ==> lo <= rs[k].rating <= hi
    ensures lo <= Mean(rs, item) <= hi
  {
    SumAtLeast(rs, item, lo);
    SumAtMost(rs, item, hi);
    QuotientBetween(lo, hi, RatingSum(rs, item), RatingCount(rs, item) as real);
  }

  lemma QuotientBetween(lo: real, hi: real, sum: real, c: real)
    requires c > 0.0 && lo * c <= sum <= hi * c
    ensures lo <= sum / c <= hi
  {
    var q := sum / c;
    assert q * c == sum;
    assert (q - lo) * c == sum - lo * c;
    assert (hi - q) * c == hi * c - sum;
    Product(q - lo, c);
    Product(hi - q, c);
  }

  // ---------------------------------------------------------------------
  // Min-max normalisation

  function MinScore(s: seq<Scored>): (r: real)
    requires |s| > 0
    ensures forall k :: 0 <= k < |s| ==> r <= s[k].score
    ensures exists k :: 0 <= k < |s| && s[k].score == r
  {
    if |s| == 1 then s[0].score
    else
      var rest := MinScore(s[1..]);
      assert forall k :: 1 <= k < |s| ==> s[k] == s[1..][k - 1];
      if s[0].score <= rest then s[0].score else rest
  }

  function MaxScore(s: seq<Scored>): (r: real)
    requires |s| > 0
    ensures forall k :: 0 <= k < |s| ==> s[k].score <= r
    ensures exists k :: 0 <= k < |s| && s[k].score == r
  {
    if |s| == 1 then s[0].score
    else
      var rest := MaxScore(s[1..]);
      assert forall k :: 1 <= k < |s| ==> s[k] == s[1..][k - 1];
      if s[0].score >= rest then s[0].score else rest
  }

  /** (x - min) / (max - min + 1e-8) over the series; an empty series stays empty. */
  function Norm(s: seq<Scored>): (r: seq<Scored>)
    ensures Items(r) == Items(s)
  {
    if |s| == 0 then []
    else Rescale(s, MinScore(s), MaxScore(s) - MinScore(s) + Epsilon)
  }

  /** Every score shifted down by mn and divided by the spread d. */
  function Rescale(s: seq<Scored>, mn: real, d: real): (r: seq<Scored>)
    requires d > 0.0
    ensures Items(r) == Items(s)
  {
    if s == [] then []
    else
      var rest := Rescale(s[1..], mn, d);
      assert Items([Scored(s[0].item, (s[0].score - mn) / d)] + rest) == [s[0].item] + Items(rest);
      assert Items(s) == [s[0].item] + Items(s[1..]);
      [Scored(s[0].item, (s[0].score - mn) / d)] + rest
  }

  /** The sign of a product of two reals. */
  lemma Product(x: real, y: real)
    ensures x >= 0.0 && y >= 0.0 ==> x * y >= 0.0
    ensures x > 0.0 && y > 0.0 ==> x * y > 0.0
    ensures x < 0.0 && y > 0.0 ==> x * y < 0.0
    ensures x == 0.0 ==> x * y == 0.0
  {
  }

  /** Dividing by a positive d keeps the order of two reals. */
  lemma QuotientOrder(a: real, b: real, d: real)
    requires d > 0.0
    ensures a <= b <==> a / d <= b / d
  {
    var qa, qb := a / d, b / d;
    assert qa * d == a && qb * d == b;
    assert (qb - qa) * d == b - a;
    Product(qb - qa, d);
  }

  /** Dividing by a positive d maps 0 to 0 and [0, d) into [0, 1). */
  lemma QuotientUnit(a: real, d: real)
    requires d > 0.0
    ensures a / d == 0.0 <==> a == 0.0
    ensures 0.0 <= a < d ==> 0.0 <= a / d < 1.0
  {
    var qa := a / d;
    assert qa * d == a;
    Product(qa, d);
    Product(1.0 - qa, d);
    assert (1.0 - qa) * d == d - a;
  }

  /** Dividing by a positive d: what a falls short of d, over d, is what
      a / d falls short of 1. */
  lemma QuotientGap(a: real, e: real, d: real)
    requires d > 0.0 && a + e == d
    ensures 1.0 - a / d == e / d
  {
    var qa, qe := a / d, e / d;
    assert qa * d == a && qe * d == e;
    assert (1.0 - qa - qe) * d == 0.0;
    Product(1.0 - qa - qe, d);
    Product(qa + qe - 1.0, d);
  }

  lemma {:induction false} RescaleAt(s: seq<Scored>, mn: real, d: real, k: nat)
    requires d > 0.0 && k < |s|
    ensures |Rescale(s, mn, d)| == |s|
    ensures Rescale(s, mn, d)[k].score == (s[k].score - mn) / d
  {
    if k > 0 {
      RescaleAt(s[1..], mn, d, k - 1);
    } else if 1 < |s| {
      RescaleAt(s[1..], mn, d, 0);
    }
  }

  /** A rescaled value of [mn, mx] lies in [0, 1) and is 0 exactly at mn. */
  lemma RescaleUnit(s: seq<Scored>, mn: real, mx: real, k: nat)
    requires k < |s| && mn <= s[k].score <= mx
    ensures |Rescale(s, mn, mx - mn + Epsilon)| == |s|
    ensures 0.0 <= Rescale(s, mn, mx - mn + Epsilon)[k].score < 1.0
    ensures Rescale(s, mn, mx - mn + Epsilon)[k].score == 0.0 <==> s[k].score == mn
  {
    RescaleAt(s, mn, mx - mn + Epsilon, k);
    QuotientUnit(s[k].score - mn, mx - mn + Epsilon);
  }

  lemma RescaleTop(s: seq<Scored>, mn: real, mx: real, k: nat)
    requires k < |s| && mn <= s[k].score == mx
    ensures |Rescale(s, mn, mx - mn + Epsilon)| == |s|
    ensures 1.0 - Rescale(s, mn, mx - mn + Epsilon)[k].score == Epsilon / (mx - mn + Epsilon)
    ensures mx - mn >= 1.0 ==> 1.0 - Epsilon <= Rescale(s, mn, mx - mn + Epsilon)[k].score
  {
    RescaleAt(s, mn, mx - mn + Epsilon, k);
    QuotientGap(s[k].score - mn, Epsilon, mx - mn + Epsilon);
    if mx - mn >= 1.0 {
      QuotientSmall(Epsilon, mx - mn + Epsilon);
    }
  }

  /** Dividing a positive e by d >= 1 gives at most e. */
  lemma QuotientSmall(e: real, d: real)
    requires e > 0.0 && d >= 1.0
    ensures e / d <= e
  {
    var q := e / d;
    assert q * d == e;
    Product(q, d);
    Product(q, d - 1.0);
    assert e - q == q * (d - 1.0);
  }

  /** Rescaling keeps the order of two values. */
  lemma RescaleOrder(s: seq<Scored>, mn: real, d: real, a: nat, b: nat)
    requires d > 0.0 && a < |s| && b < |s|
    ensures |Rescale(s, mn, d)| == |s|
    ensures s[a].score <= s[b].score <==> Rescale(s, mn, d)[a].score <= Rescale(s, mn, d)[b].score
  {
    RescaleAt(s, mn, d, a);
    RescaleAt(s, mn, d, b);
    QuotientOrder(s[a].score - mn, s[b].score - mn, d);
  }

  /** One normalised value lies in [0, 1) and is 0 exactly at the minimum. */
  lemma NormAt(s: seq<Scored>, k: nat)
    requires k < |s|
    ensures |Norm(s)| == |s|
    ensures 0.0 <= Norm(s)[k].score < 1.0
    ensures Norm(s)[k].score == 0.0 <==> s[k].score == MinScore(s)
  {
    RescaleUnit(s, MinScore(s), MaxScore(s), k);
  }

  /** A maximal value lands within Epsilon of 1 once the spread of the
      series is 1 or more (RescaleTop gives the exact gap). */
  lemma NormAtMax(s: seq<Scored>, k: nat)
    requires k < |s| && s[k].score == MaxScore(s)
    ensures |Norm(s)| == |s|
    ensures MaxScore(s) - MinScore(s) >= 1.0 ==> 1.0 - Epsilon <= Norm(s)[k].score
  {
    RescaleTop(s, MinScore(s), MaxScore(s), k);
  }

  /** Normalisation keeps the order of two values. */
  lemma NormOrder(s: seq<Scored>, a: nat, b: nat)
    requires a < |s| && b < |s|
    ensures |Norm(s)| == |s|
    ensures s[a].score <= s[b].score <==> Norm(s)[a].score <= Norm(s)[b].score
  {
    RescaleOrder(s, MinScore(s), MaxScore(s) - MinScore(s) + Epsilon, a, b);
  }

  /** The normalisation law: every value lands in [0, 1), exactly the
      minimal values map to 0, the maximal ones land within Epsilon of 1 once
      the spread is 1 or more, and the order of the scores is kept. */
  lemma NormLaw(s: seq<Scored>)
    requires |s| > 0
    ensures |Norm(s)| == |s|
    ensures InUnitRange(Norm(s))
    ensures forall k :: 0 <= k < |s| ==> (Norm(s)[k].score == 0.0 <==> s[k].score == MinScore(s))
    ensures MaxScore(s) - MinScore(s) >= 1.0 ==>
              forall k :: 0 <= k < |s| && s[k].score == MaxScore(s) ==> 1.0 - Epsilon <= Norm(s)[k].score
    ensures forall a, b :: 0 <= a < |s| && 0 <= b < |s| ==>
              (s[a].score <= s[b].score <==> Norm(s)[a].score <= Norm(s)[b].score)
  {
    NormAt(s, 0);
    forall k | 0 <= k < |s|
      ensures 0.0 <= Norm(s)[k].score < 1.0
      ensures Norm(s)[k].score == 0.0 <==> s[k].score == MinScore(s)
    {
      NormAt(s, k);
    }
    forall k | 0 <= k < |s| && s[k].score == MaxScore(s)
      ensures MaxScore(s) - MinScore(s) >= 1.0 ==> 1.0 - Epsilon <= Norm(s)[k].score
    {
      NormAtMax(s, k);
    }
    forall a, b | 0 <= a < |s| && 0 <= b < |s|
      ensures s[a].score <= s[b].score <==> Norm(s)[a].score <= Norm(s)[b].score
    {
      NormOrder(s, a, b);
    }
  }

  // ---------------------------------------------------------------------
  // Alignment onto another index, and the blend

  function LookupScore(s: seq<Scored>, item: int): Option<real>
  {
    if s == [] then None
    else if s[0].item == item then Some(s[0].score)
    else LookupScore(s[1..], item)
  }

  lemma {:induction false} LookupFound(s: seq<Scored>, j: nat)
    requires j < |s| && StrictlyIncreasing(Items(s))
    ensures LookupScore(s, s[j].item) == Some(s[j].score)
  {
    if j > 0 {
      assert s[0].item == Items(s)[0] < Items(s)[j] == s[j].item;
      assert Items(s[1..]) == Items(s)[1..];
      LookupFound(s[1..], j - 1);
    }
  }

  lemma {:induction false} LookupMissing(s: seq<Scored>, item: int)
    requires item !in Items(s)
    ensures LookupScore(s, item) == None
  {
    if s != [] {
      assert Items(s)[0] == s[0].item;
      assert Items(s[1..]) == Items(s)[1..];
      LookupMissing(s[1..], item);
    }
  }

  /** reindex(index).fillna(0.0): the series laid onto another index, 0.0
      where the item is absent. */
  function Reindex(s: seq<Scored>, index: seq<int>): (r: seq<Scored>)
    ensures Items(r) == index
    ensures forall k :: 0 <= k < |index| && index[k] !in Items(s) ==> r[k].score == 0.0
    ensures StrictlyIncreasing(Items(s)) ==>
              forall k, j :: 0 <= k < |index| && 0 <= j < |s| && s[j].item == index[k] ==>
                r[k].score == s[j].score
  {
    var r := seq(|index|, k requires 0 <= k < |index| =>
      Scored(index[k], match LookupScore(s, index[k]) case Some(v) => v case None => 0.0));
    assert forall k :: 0 <= k < |index| && index[k] !in Items(s) ==> r[k].score == 0.0 by {
      forall k | 0 <= k < |index| && index[k] !in Items(s) ensures r[k].score == 0.0 {
        LookupMissing(s, index[k]);
      }
    }
    assert StrictlyIncreasing(Items(s)) ==>
             forall k, j :: 0 <= k < |index| && 0 <= j < |s| && s[j].item == index[k] ==>
               r[k].score == s[j].score by {
      if StrictlyIncreasing(Items(s)) {
        forall k, j | 0 <= k < |index| && 0 <= j < |s| && s[j].item == index[k]
          ensures r[k].score == s[j].score
        {
          LookupFound(s, j);
        }
      }
    }
    r
  }

  /** Reindexing a series onto its own (distinct) index changes nothing. */
  lemma ReindexOntoOwnIndex(s: seq<Scored>)
    requires StrictlyIncreasing(Items(s))
    ensures Reindex(s, Items(s)) == s
  {
    var r := Reindex(s, Items(s));
    assert |r| == |Items(r)| == |s|;
    forall k | 0 <= k < |s| ensures r[k] == s[k] {
      assert r[k].item == Items(r)[k] == s[k].item;
    }
  }

  /** alpha * collab + (1 - alpha) * pop, element by element over one index. */
  function Blend(alpha: real, c: seq<Scored>, p: seq<Scored>): (r: seq<Scored>)
    requires Items(c) == Items(p)
    ensures Items(r) == Items(c)
    ensures 0.0 <= alpha <= 1.0 && InUnitRange(c) && InUnitRange(p) ==> InUnitRange(r)
    ensures alpha == 1.0 ==> r == c
    ensures alpha == 0.0 ==> r == p
  {
    if c == [] then []
    else
      BlendStep(alpha, c, p);
      var rest := Blend(alpha, c[1..], p[1..]);
      var r := [Scored(c[0].item, Mix(alpha, c[0].score, p[0].score))] + rest;
      assert Items(r) == [c[0].item] + Items(rest);
      r
  }

  /** What one step of the blend needs about the heads and tails of the two
      series. */
  lemma BlendStep(alpha: real, c: seq<Scored>, p: seq<Scored>)
    requires Items(c) == Items(p) && c != []
    ensures |p| == |c| && p[0].item == c[0].item
    ensures Items(c[1..]) == Items(p[1..])
    ensures Items(c) == [c[0].item] + Items(c[1..])
    ensures InUnitRange(c) ==> InUnitRange(c[1..])
    ensures InUnitRange(p) ==> InUnitRange(p[1..])
    ensures 0.0 <= alpha <= 1.0 && InUnitRange(c) && InUnitRange(p) ==>
              0.0 <= Mix(alpha, c[0].score, p[0].score) < 1.0
    ensures alpha == 1.0 ==> Mix(alpha, c[0].score, p[0].score) == c[0].score
    ensures alpha == 0.0 ==> Mix(alpha, c[0].score, p[0].score) == p[0].score
    ensures c == [c[0]] + c[1..] && p == [p[0]] + p[1..]
  {
    assert |c| == |Items(c)| == |Items(p)| == |p|;
    assert Items(c)[0] == c[0].item && Items(p)[0] == p[0].item;
    assert Items(c[1..]) == Items(c)[1..] && Items(p[1..]) == Items(p)[1..];
    if 0.0 <= alpha <= 1.0 && InUnitRange(c) && InUnitRange(p) {
      ConvexCombination(alpha, c[0].score, p[0].score);
    }
    MixExtremes(alpha, c[0].score, p[0].score);
  }

  /** The blended value of one item: alpha * x + (1 - alpha) * y. */
  function Mix(alpha: real, x: real, y: real): real
  {
    alpha * x + (1.0 - alpha) * y
  }

  /** alpha = 1 keeps x, alpha = 0 keeps y. */
  lemma MixExtremes(alpha: real, x: real, y: real)
    ensures alpha == 1.0 ==> Mix(alpha, x, y) == x
    ensures alpha == 0.0 ==> Mix(alpha, x, y) == y
  {
  }

  lemma ConvexCombination(alpha: real, x: real, y: real)
    requires 0.0 <= alpha <= 1.0 && 0.0 <= x < 1.0 && 0.0 <= y < 1.0
    ensures 0.0 <= Mix(alpha, x, y) < 1.0
  {
    Product(alpha, x);
    Product(1.0 - alpha, y);
    Product(alpha, 1.0 - x);
    Product(1.0 - alpha, 1.0 - y);
    assert 1.0 - (alpha * x + (1.0 - alpha) * y) == alpha * (1.0 - x) + (1.0 - alpha) * (1.0 - y);
  }

  // ---------------------------------------------------------------------
  // Removing the items the user has rated

  /** The distinct items the user has rated. */
  function SeenItems(rs: seq<Rating>, user: int): (seen: set<int>)
    ensures seen <= AllItems(rs)
  {
    set k | 0 <= k < |rs| && rs[k].user == user :: rs[k].item
  }

  /** drop(labels=seen, errors="ignore"): the entries whose item is not seen,
      in order; a seen item absent from the index is simply skipped. */
  function DropSeen(s: seq<Scored>, seen: set<int>): (r: seq<Scored>)
    ensures forall e :: e in r <==> e in s && e.item !in seen
    ensures StrictlyIncreasing(Items(s)) ==> StrictlyIncreasing(Items(r))
    ensures forall k :: 0 <= k < |r| ==> r[k].item !in seen
  {
    if s == [] then []
    else
      var rest := DropSeen(s[1..], seen);
      assert forall e :: e in s <==> e == s[0] || e in s[1..] by {
        assert s == [s[0]] + s[1..];
      }
      assert StrictlyIncreasing(Items(s)) ==>
               StrictlyIncreasing(Items(s[1..])) && forall e :: e in rest ==> s[0].item < e.item by {
        if StrictlyIncreasing(Items(s)) {
          TailAbove(s, rest);
        }
      }
      if s[0].item in seen then rest
      else
        assert StrictlyIncreasing(Items(s)) ==> StrictlyIncreasing(Items([s[0]] + rest)) by {
          if StrictlyIncreasing(Items(s)) {
            ConsItems(s[0], rest);
          }
        }
        [s[0]] + rest
  }

  /** Under a strictly increasing index, the tail's index is strictly
      increasing and every entry taken from the tail lies above the head. */
  lemma TailAbove(s: seq<Scored>, rest: seq<Scored>)
    requires s != [] && StrictlyIncreasing(Items(s))
    requires forall e :: e in rest ==> e in s[1..]
    ensures StrictlyIncreasing(Items(s[1..]))
    ensures forall e :: e in rest ==> s[0].item < e.item
  {
    assert Items(s[1..]) == Items(s)[1..];
    HeadBelowTail(Items(s));
    forall e | e in rest ensures s[0].item < e.item {
      var k :| 0 <= k < |s| - 1 && s[1..][k] == e;
      assert Items(s)[0] < Items(s)[k + 1] == e.item;
    }
  }

  /** An entry below every entry of a strictly increasing index may be put in
      front of it. */
  lemma ConsItems(e: Scored, rest: seq<Scored>)
    requires StrictlyIncreasing(Items(rest)) && forall x :: x in rest ==> e.item < x.item
    ensures StrictlyIncreasing(Items([e] + rest))
  {
    assert Items([e] + rest) == [e.item] + Items(rest);
    forall y | y in Items(rest) ensures e.item < y {
      var k :| 0 <= k < |rest| && Items(rest)[k] == y;
      assert rest[k] in rest;
    }
    ConsIncreasing(e.item, Items(rest));
  }

  function ItemSet(s: seq<Scored>): set<int>
  {
    set e | e in s :: e.item
  }

  /** With a distinct index, as many entries remain as there are unseen items. */
  lemma UnseenCount(s: seq<Scored>, seen: set<int>)
    requires StrictlyIncreasing(Items(s))
    ensures ItemSet(DropSeen(s, seen)) == ItemSet(s) - seen
    ensures |DropSeen(s, seen)| == |ItemSet(s) - seen|
  {
    var r := DropSeen(s, seen);
    ItemSetIsIndexSet(r);
    DistinctCard(Items(r));
  }

  lemma ItemSetIsIndexSet(s: seq<Scored>)
    ensures ItemSet(s) == set x | x in Items(s)
  {
    forall x | x in Items(s) ensures x in ItemSet(s) {
      var k :| 0 <= k < |Items(s)| && Items(s)[k] == x;
      assert s[k] in s;
    }
    forall x | x in ItemSet(s) ensures x in Items(s) {
      var e :| e in s && e.item == x;
      var k :| 0 <= k < |s| && s[k] == e;
      assert Items(s)[k] == x;
    }
  }

  // ---------------------------------------------------------------------
  // Sorting, truncation and the title join

  predicate SortedDesc<T>(s: seq<T>, key: T -> real)
  {
    forall i, j :: 0 <= i < j < |s| ==> key(s[i]) >= key(s[j])
  }

  lemma SortedTail<T>(s: seq<T>, key: T -> real)
    requires SortedDesc(s, key) && s != []
    ensures SortedDesc(s[1..], key)
  {
    forall i, j | 0 <= i < j < |s[1..]| ensures key(s[1..][i]) >= key(s[1..][j]) {
      assert s[1..][i] == s[i + 1] && s[1..][j] == s[j + 1];
    }
  }

  lemma ConsSorted<T>(x: T, s: seq<T>, key: T -> real)
    requires SortedDesc(s, key) && (s != [] ==> key(x) >= key(s[0]))
    ensures SortedDesc([x] + s, key)
  {
    forall i, j | 0 <= i < j < |[x] + s| ensures key(([x] + s)[i]) >= key(([x] + s)[j]) {
      assert ([x] + s)[j] == s[j - 1];
      if i > 0 {
        assert ([x] + s)[i] == s[i - 1];
      }
    }
  }

  lemma AppendSorted<T>(a: seq<T>, b: seq<T>, key: T -> real)
    requires SortedDesc(a, key) && SortedDesc(b, key)
    requires forall x, y :: x in a && y in b ==> key(x) >= key(y)
    ensures SortedDesc(a + b, key)
  {
    forall i, j | 0 <= i < j < |a + b| ensures key((a + b)[i]) >= key((a + b)[j]) {
      if j < |a| {
        assert (a + b)[i] == a[i] && (a + b)[j] == a[j];
      } else if i < |a| {
        assert (a + b)[i] == a[i] && a[i] in a;
        assert (a + b)[j] == b[j - |a|] && b[j - |a|] in b;
      } else {
        assert (a + b)[i] == b[i - |a|] && (a + b)[j] == b[j - |a|];
      }
    }
  }

  lemma SameMembers<T>(a: seq<T>, b: seq<T>)
    requires multiset(a) == multiset(b)
    ensures forall x :: x in a <==> x in b
  {
    forall x ensures x in a <==> x in b {
      assert x in a <==> x in multiset(a);
      assert x in b <==> x in multiset(b);
    }
  }

  function InsertDesc<T>(x: T, s: seq<T>, key: T -> real): (r: seq<T>)
    requires SortedDesc(s, key)
    ensures SortedDesc(r, key)
    ensures multiset(r) == multiset(s) + multiset{x}
    ensures r[0] == x || (s != [] && r[0] == s[0])
  {
    if s == [] then [x]
    else if key(x) >= key(s[0]) then
      ConsSorted(x, s, key);
      [x] + s
    else
      SortedTail(s, key);
      var rest := InsertDesc(x, s[1..], key);
      assert s == [s[0]] + s[1..];
      ConsSorted(s[0], rest, key);
      [s[0]] + rest
  }

  /** sort_values(ascending=False): sorted by key, descending, and a
      permutation of the input. */
  function SortDesc<T>(s: seq<T>, key: T -> real): (r: seq<T>)
    ensures SortedDesc(r, key)
    ensures multiset(r) == multiset(s)
  {
    if s == [] then []
    else
      assert s == [s[0]] + s[1..];
      InsertDesc(s[0], SortDesc(s[1..], key), key)
  }

  /** Sorting an already sorted list leaves it as it is. */
  lemma {:induction false} SortDescOfSorted<T>(s: seq<T>, key: T -> real)
    requires SortedDesc(s, key)
    ensures SortDesc(s, key) == s
  {
    if s != [] {
      SortedTail(s, key);
      SortDescOfSorted(s[1..], key);
      assert s[1..] == [] || key(s[0]) >= key(s[1..][0]);
      assert InsertDesc(s[0], s[1..], key) == [s[0]] + s[1..];
      assert s == [s[0]] + s[1..];
    }
  }

  /** No item occurs twice in a series. */
  predicate DistinctItems(s: seq<Scored>)
  {
    forall i, j :: 0 <= i < j < |s| ==> s[i].item != s[j].item
  }

  lemma ConsDistinct(y: Scored, t: seq<Scored>)
    ensures DistinctItems([y] + t) <==> DistinctItems(t) && forall x :: x in t ==> x.item != y.item
  {
    var r := [y] + t;
    if DistinctItems(r) {
      forall i, j | 0 <= i < j < |t| ensures t[i].item != t[j].item {
        assert r[i + 1] == t[i] && r[j + 1] == t[j];
      }
      forall x | x in t ensures x.item != y.item {
        var k :| 0 <= k < |t| && t[k] == x;
        assert r[0] == y && r[k + 1] == x;
      }
    }
    if DistinctItems(t) && forall x :: x in t ==> x.item != y.item {
      forall i, j | 0 <= i < j < |r| ensures r[i].item != r[j].item {
        assert r[j] == t[j - 1] && t[j - 1] in t;
        if i > 0 {
          assert r[i] == t[i - 1];
        }
      }
    }
  }

  /** Inserting an entry whose item is new keeps the items distinct. */
  lemma {:induction false} InsertDistinct(x: Scored, s: seq<Scored>)
    requires SortedDesc(s, ScoreOf) && DistinctItems(s)
    requires forall y :: y in s ==> y.item != x.item
    ensures DistinctItems(InsertDesc(x, s, ScoreOf))
  {
    if s == [] {
    } else if ScoreOf(x) >= ScoreOf(s[0]) {
      ConsDistinct(x, s);
    } else {
      assert s == [s[0]] + s[1..];
      ConsDistinct(s[0], s[1..]);
      SortedTail(s, ScoreOf);
      InsertDistinct(x, s[1..]);
      var rest := InsertDesc(x, s[1..], ScoreOf);
      forall z | z in rest ensures z.item != s[0].item {
        assert z in multiset(rest);
      }
      ConsDistinct(s[0], rest);
    }
  }

  /** Sorting keeps the items distinct. */
  lemma {:induction false} SortDistinct(s: seq<Scored>)
    requires DistinctItems(s)
    ensures DistinctItems(SortDesc(s, ScoreOf))
  {
    if s != [] {
      assert s == [s[0]] + s[1..];
      ConsDistinct(s[0], s[1..]);
      SortDistinct(s[1..]);
      var sorted := SortDesc(s[1..], ScoreOf);
      SameMembers(sorted, s[1..]);
      InsertDistinct(s[0], sorted);
    }
  }

  /** head(n): the first n entries, or all but the last -n when n < 0. */
  function Head<T>(s: seq<T>, n: int): (r: seq<T>)
    ensures |r| <= |s| && r == s[..|r|]
    ensures n >= 0 ==> |r| == if n < |s| then n else |s|
    ensures n < 0 ==> |r| == if |s| + n > 0 then |s| + n else 0
  {
    if n >= 0 then (if n < |s| then s[..n] else s)
    else if |s| + n > 0 then s[..|s| + n] else []
  }

  /** The catalogue titles recorded for an item, in catalogue order. */
  function TitlesOf(catalogue: seq<ItemRecord>, item: int): (r: seq<string>)
    ensures forall t :: t in r <==> ItemRecord(item, t) in catalogue
    ensures r == [] <==> forall k :: 0 <= k < |catalogue| ==> catalogue[k].item != item
  {
    if catalogue == [] then []
    else
      assert catalogue == [catalogue[0]] + catalogue[1..];
      (if catalogue[0].item == item then [catalogue[0].title] else []) + TitlesOf(catalogue[1..], item)
  }

  predicate UniqueItems(catalogue: seq<ItemRecord>)
  {
    forall i, j :: 0 <= i < j < |catalogue| ==> catalogue[i].item != catalogue[j].item
  }

  lemma {:induction false} UniqueTitle(catalogue: seq<ItemRecord>, item: int)
    requires UniqueItems(catalogue)
    ensures |TitlesOf(catalogue, item)| <= 1
  {
    if catalogue != [] {
      var tail := catalogue[1..];
      assert UniqueItems(tail) by {
        forall i, j | 0 <= i < j < |tail| ensures tail[i].item != tail[j].item {
          assert tail[i] == catalogue[i + 1] && tail[j] == catalogue[j + 1];
        }
      }
      UniqueTitle(tail, item);
      if catalogue[0].item == item {
        forall k | 0 <= k < |tail| ensures tail[k].item != item {
          assert tail[k] == catalogue[k + 1];
        }
      }
    }
  }

  /** A joined row carries a title exactly when the catalogue lists one for
      its item, and only a title the catalogue lists. */
  predicate TitleMatches(x: Reco, catalogue: seq<ItemRecord>)
  {
    && (x.title == None <==> TitlesOf(catalogue, x.item) == [])
    && (x.title.Some? ==> ItemRecord(x.item, x.title.value) in catalogue)
  }

  /** The rows a left join on item_id makes of one entry: one per matching
      catalogue row, or one row with no title when nothing matches. */
  function JoinRow(e: Scored, catalogue: seq<ItemRecord>): (r: seq<Reco>)
    ensures |r| >= 1
    ensures forall x :: x in r ==> x.item == e.item && x.score == e.score && TitleMatches(x, catalogue)
    ensures UniqueItems(catalogue) ==> |r| == 1
  {
    var ts := TitlesOf(catalogue, e.item);
    assert UniqueItems(catalogue) ==> |ts| <= 1 by {
      if UniqueItems(catalogue) {
        UniqueTitle(catalogue, e.item);
      }
    }
    if ts == [] then [Reco(e.item, e.score, None)]
    else
      assert ts[0] in ts;
      seq(|ts|, k requires 0 <= k < |ts| => Reco(e.item, e.score, Some(ts[k])))
  }

  /** merge(catalogue, on="item_id", how="left"): the joined rows of each
      entry, in the order of the entries. */
  function LeftJoin(top: seq<Scored>, catalogue: seq<ItemRecord>): seq<Reco>
  {
    if top == [] then [] else JoinRow(top[0], catalogue) + LeftJoin(top[1..], catalogue)
  }

  /** Every joined row comes from an entry, with its item, its score and a
      matching title. */
  lemma {:induction false} LeftJoinRows(top: seq<Scored>, catalogue: seq<ItemRecord>)
    ensures forall x :: x in LeftJoin(top, catalogue) ==>
              Scored(x.item, x.score) in top && TitleMatches(x, catalogue)
  {
    if top != [] {
      LeftJoinRows(top[1..], catalogue);
      var row := JoinRow(top[0], catalogue);
      var rest := LeftJoin(top[1..], catalogue);
      assert LeftJoin(top, catalogue) == row + rest;
      forall x: Reco | x in row + rest
        ensures Scored(x.item, x.score) in top && TitleMatches(x, catalogue)
      {
        if x in row {
          assert Scored(x.item, x.score) == top[0];
        } else {
          var k :| 0 <= k < |top[1..]| && top[1..][k] == Scored(x.item, x.score);
          assert top[k + 1] == Scored(x.item, x.score);
        }
      }
    }
  }

  /** Every entry gives at least one joined row. */
  lemma {:induction false} LeftJoinCovers(top: seq<Scored>, catalogue: seq<ItemRecord>)
    ensures forall e :: e in top ==>
              exists x :: x in LeftJoin(top, catalogue) && x.item == e.item && x.score == e.score
  {
    if top != [] {
      LeftJoinCovers(top[1..], catalogue);
      assert top == [top[0]] + top[1..];
      var row := JoinRow(top[0], catalogue);
      var rest := LeftJoin(top[1..], catalogue);
      assert row[0] in row + rest;
      forall e: Scored | e in top
        ensures exists x :: x in row + rest && x.item == e.item && x.score == e.score
      {
        if e != top[0] {
          assert e in top[1..];
          var x :| x in rest && x.item == e.item && x.score == e.score;
          assert x in row + rest;
        }
      }
    }
  }

  /** The left join keeps the order of its left side: sorted entries give
      sorted rows. */
  lemma {:induction false} LeftJoinSorted(top: seq<Scored>, catalogue: seq<ItemRecord>)
    requires SortedDesc(top, ScoreOf)
    ensures SortedDesc(LeftJoin(top, catalogue), RecoScore)
  {
    if top != [] {
      SortedTail(top, ScoreOf);
      LeftJoinSorted(top[1..], catalogue);
      LeftJoinRows(top[1..], catalogue);
      var row := JoinRow(top[0], catalogue);
      var rest := LeftJoin(top[1..], catalogue);
      forall y | y in rest ensures RecoScore(y) <= top[0].score {
        var k :| 0 <= k < |top[1..]| && top[1..][k] == Scored(y.item, y.score);
        assert ScoreOf(top[0]) >= ScoreOf(top[k + 1]);
      }
      AppendSorted(row, rest, RecoScore);
    }
  }

  /** With unique catalogue ids the join is one row per entry, in place. */
  lemma {:induction false} LeftJoinUnique(top: seq<Scored>, catalogue: seq<ItemRecord>)
    requires UniqueItems(catalogue)
    ensures |LeftJoin(top, catalogue)| == |top|
    ensures forall k :: 0 <= k < |top| ==>
              LeftJoin(top, catalogue)[k].item == top[k].item &&
              LeftJoin(top, catalogue)[k].score == top[k].score
  {
    if top != [] {
      LeftJoinUnique(top[1..], catalogue);
      var row := JoinRow(top[0], catalogue);
      assert row[0] in row;
    }
  }

  /** sort_values(ascending=False).head(topk), then the left join, then a
      final descending sort on score. */
  function Rank(hybrid: seq<Scored>, topk: int, catalogue: seq<ItemRecord>): (r: seq<Reco>)
    ensures SortedDesc(r, RecoScore)
  {
    SortDesc(LeftJoin(Head(SortDesc(hybrid, ScoreOf), topk), catalogue), RecoScore)
  }

  function RecoItems(rows: seq<Reco>): set<int>
  {
    set x | x in rows :: x.item
  }

  /** The left join keeps the order of the sorted top entries, so the final
      sort leaves the joined rows where they are. */
  lemma FinalSortKeepsJoinOrder(hybrid: seq<Scored>, topk: int, catalogue: seq<ItemRecord>)
    ensures Rank(hybrid, topk, catalogue) ==
            LeftJoin(Head(SortDesc(hybrid, ScoreOf), topk), catalogue)
  {
    var sorted := SortDesc(hybrid, ScoreOf);
    var top := Head(sorted, topk);
    assert SortedDesc(top, ScoreOf) by {
      forall i, j | 0 <= i < j < |top| ensures ScoreOf(top[i]) >= ScoreOf(top[j]) {
        assert top[i] == sorted[i] && top[j] == sorted[j];
      }
    }
    LeftJoinSorted(top, catalogue);
    SortDescOfSorted(LeftJoin(top, catalogue), RecoScore);
  }

  /** Only entries of the input come out, each with its own score and a title
      exactly when the catalogue has one. */
  lemma RankRows(hybrid: seq<Scored>, topk: int, catalogue: seq<ItemRecord>)
    ensures forall x :: x in Rank(hybrid, topk, catalogue) ==>
              Scored(x.item, x.score) in hybrid && TitleMatches(x, catalogue)
  {
    var sorted := SortDesc(hybrid, ScoreOf);
    var top := Head(sorted, topk);
    var joined := LeftJoin(top, catalogue);
    LeftJoinRows(top, catalogue);
    SameMembers(Rank(hybrid, topk, catalogue), joined);
    SameMembers(sorted, hybrid);
  }

  /** Every entry of the sorted prefix that was kept reaches the output. */
  lemma TopReachesOutput(hybrid: seq<Scored>, topk: int, catalogue: seq<ItemRecord>)
    ensures forall q :: 0 <= q < |Head(SortDesc(hybrid, ScoreOf), topk)| ==>
              SortDesc(hybrid, ScoreOf)[q].item in RecoItems(Rank(hybrid, topk, catalogue))
  {
    var sorted := SortDesc(hybrid, ScoreOf);
    var top := Head(sorted, topk);
    var joined := LeftJoin(top, catalogue);
    var result := Rank(hybrid, topk, catalogue);
    LeftJoinCovers(top, catalogue);
    SameMembers(result, joined);
    forall q | 0 <= q < |top| ensures sorted[q].item in RecoItems(result) {
      assert top[q] == sorted[q] && top[q] in top;
      var y :| y in joined && y.item == top[q].item && y.score == top[q].score;
      assert y in result;
    }
  }

  /** The top-K law: no entry that was left out scores above a kept one. */
  lemma RankTopK(hybrid: seq<Scored>, topk: int, catalogue: seq<ItemRecord>)
    ensures forall e, x :: (e in hybrid && x in Rank(hybrid, topk, catalogue) &&
                            e.item !in RecoItems(Rank(hybrid, topk, catalogue))) ==> e.score <= x.score
  {
    var result := Rank(hybrid, topk, catalogue);
    forall e, x | e in hybrid && x in result && e.item !in RecoItems(result)
      ensures e.score <= x.score
    {
      RankTopKAt(hybrid, topk, catalogue, e, x);
    }
  }

  lemma RankTopKAt(hybrid: seq<Scored>, topk: int, catalogue: seq<ItemRecord>, e: Scored, x: Reco)
    requires e in hybrid && x in Rank(hybrid, topk, catalogue)
    requires e.item !in RecoItems(Rank(hybrid, topk, catalogue))
    ensures e.score <= x.score
  {
    var sorted := SortDesc(hybrid, ScoreOf);
    var top := Head(sorted, topk);
    var result := Rank(hybrid, topk, catalogue);
    TopReachesOutput(hybrid, topk, catalogue);
    LeftJoinRows(top, catalogue);
    SameMembers(result, LeftJoin(top, catalogue));
    SameMembers(sorted, hybrid);
    assert Scored(x.item, x.score) in top;
    var q :| 0 <= q < |top| && top[q] == Scored(x.item, x.score);
    assert top[q] == sorted[q];
    PrefixDominates(sorted, |top|, RecoItems(result), e, q);
  }

  /** In a list sorted by descending score, an entry whose item is not among
      those of the first n scores at most as much as each of them. */
  lemma PrefixDominates(sorted: seq<Scored>, n: nat, covered: set<int>, e: Scored, q: nat)
    requires SortedDesc(sorted, ScoreOf) && q < n <= |sorted|
    requires forall i :: 0 <= i < n ==> sorted[i].item in covered
    requires e in sorted && e.item !in covered
    ensures e.score <= sorted[q].score
  {
    var p :| 0 <= p < |sorted| && sorted[p] == e;
    assert n <= p;
    assert ScoreOf(sorted[q]) >= ScoreOf(sorted[p]);
  }

  /** Over a series with a distinct index and a catalogue of unique item ids,
      the result has one row per selected item. */
  lemma RankDistinct(hybrid: seq<Scored>, topk: int, catalogue: seq<ItemRecord>)
    requires StrictlyIncreasing(Items(hybrid)) && UniqueItems(catalogue)
    ensures forall i, j :: 0 <= i < j < |Rank(hybrid, topk, catalogue)| ==>
              Rank(hybrid, topk, catalogue)[i].item != Rank(hybrid, topk, catalogue)[j].item
  {
    assert DistinctItems(hybrid) by {
      forall i, j | 0 <= i < j < |hybrid| ensures hybrid[i].item != hybrid[j].item {
        assert Items(hybrid)[i] < Items(hybrid)[j];
      }
    }
    SortDistinct(hybrid);
    var sorted := SortDesc(hybrid, ScoreOf);
    var top := Head(sorted, topk);
    assert DistinctItems(top) by {
      forall i, j | 0 <= i < j < |top| ensures top[i].item != top[j].item {
        assert top[i] == sorted[i] && top[j] == sorted[j];
      }
    }
    FinalSortKeepsJoinOrder(hybrid, topk, catalogue);
    LeftJoinUnique(top, catalogue);
  }

  /** With a catalogue of unique item ids and topk >= 0 there are exactly
      min(topk, |hybrid|) rows; a negative topk drops the last -topk. */
  lemma RankLength(hybrid: seq<Scored>, topk: int, catalogue: seq<ItemRecord>)
    requires UniqueItems(catalogue)
    ensures topk >= 0 ==> |Rank(hybrid, topk, catalogue)| == if topk < |hybrid| then topk else |hybrid|
    ensures topk < 0 ==> |Rank(hybrid, topk, catalogue)| == if |hybrid| + topk > 0 then |hybrid| + topk else 0
  {
    var sorted := SortDesc(hybrid, ScoreOf);
    var top := Head(sorted, topk);
    LeftJoinUnique(top, catalogue);
    assert |sorted| == |hybrid| by {
      assert |multiset(sorted)| == |multiset(hybrid)|;
    }
    assert |Rank(hybrid, topk, catalogue)| == |LeftJoin(top, catalogue)| by {
      var result := Rank(hybrid, topk, catalogue);
      assert |multiset(result)| == |multiset(LeftJoin(top, catalogue))|;
    }
  }
}
