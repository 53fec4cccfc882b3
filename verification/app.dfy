/** app.py, the request-handler variant: the matrix is a pandas pivot, an
    unknown user is reported with the observed id range, and the popularity
    scores are reindexed onto the collaborative index before the blend. */
module App {
  import opened Tables
  import opened Scoring

  /** pivot(index=user_id, columns=item_id, values=rating).fillna(0.0).
      The pivot refuses a second record for one (user, item) pair. */
  function BuildUserItemMatrix(rs: seq<Rating>): (r: Result<Matrix>)
    ensures r.Err? <==> HasDuplicatePair(rs)
    ensures r.Err? ==> r.error == DuplicateEntries
    ensures r.Ok? ==> r.value.WellFormed()
    ensures r.Ok? ==> StrictlyIncreasing(r.value.users) && forall u :: u in r.value.users <==> u in UserIds(rs)
    ensures r.Ok? ==> StrictlyIncreasing(r.value.items) && forall i :: i in r.value.items <==> i in ItemIds(rs)
    ensures r.Ok? ==>
              forall i, j, k :: (0 <= i < |r.value.users| && 0 <= j < |r.value.items| && 0 <= k < |rs| &&
                                 SamePair(rs[k], r.value.users[i], r.value.items[j])) ==>
                r.value.cells[i][j] == rs[k].rating
    ensures r.Ok? ==>
              forall i, j :: (0 <= i < |r.value.users| && 0 <= j < |r.value.items| &&
                              forall k :: 0 <= k < |rs| ==> !SamePair(rs[k], r.value.users[i], r.value.items[j])) ==>
                r.value.cells[i][j] == 0.0
  {
    if HasDuplicatePair(rs) then Err(DuplicateEntries)
    else
      var m := MatrixOf(rs);
      UniqueRecordCells(rs, m.users, m.items);
      UnrecordedCells(rs, m.users, m.items);
      Ok(m)
  }

  /** The blend of the normalised collaborative score and the normalised
      popularity reindexed onto the collaborative index (fillna(0.0) has
      nothing to fill over exact reals). */
  function Blended(m: Matrix, user: int, rs: seq<Rating>, alpha: real,
                   cosine: (seq<real>, seq<real>) -> real): (r: seq<Scored>)
    requires m.WellFormed() && user in m.users
    ensures Items(r) == m.items
  {
    var collab := Norm(Collaborative(m, Similarities(m, IndexOf(m.users, user), cosine)));
    var pop := Reindex(Norm(Popularity(rs)), Items(collab));
    Blend(alpha, collab, pop)
  }

  /** The blended scores with the user's own items dropped. */
  function Hybrid(m: Matrix, user: int, rs: seq<Rating>, alpha: real,
                  cosine: (seq<real>, seq<real>) -> real): (r: seq<Scored>)
    requires m.WellFormed() && user in m.users
    ensures forall e :: e in r <==> e in Blended(m, user, rs, alpha, cosine) && e.item !in SeenItems(rs, user)
  {
    DropSeen(Blended(m, user, rs, alpha, cosine), SeenItems(rs, user))
  }

  /** The ranked, truncated and title-joined unseen items. */
  function Ranked(m: Matrix, user: int, rs: seq<Rating>, catalogue: seq<ItemRecord>, topk: int, alpha: real,
                  cosine: (seq<real>, seq<real>) -> real): (r: seq<Reco>)
    requires m.WellFormed() && user in m.users
    ensures SortedDesc(r, RecoScore)
  {
    Rank(Hybrid(m, user, rs, alpha, cosine), topk, catalogue)
  }

  /** recommend(user_id, ratings, items, topk, alpha); the cosine similarity
      of two matrix rows is the parameter `cosine`. */
  function Recommend(user: int, rs: seq<Rating>, catalogue: seq<ItemRecord>, topk: int, alpha: real,
                     cosine: (seq<real>, seq<real>) -> real): (r: Result<seq<Reco>>)
    ensures r.Err? <==> HasDuplicatePair(rs) || user !in UserIds(rs)
    ensures HasDuplicatePair(rs) ==> r == Err(DuplicateEntries)
    ensures r.Err? && !HasDuplicatePair(rs) ==>
              && r.error.UserNotFound?
              && r.error.user == user
              && (r.error.range.None? <==> rs == [])
              && (r.error.range.Some? ==>
                    var (lo, hi) := r.error.range.value;
                    lo in UserIds(rs) && hi in UserIds(rs) &&
                    forall k :: 0 <= k < |rs| ==> lo <= rs[k].user <= hi)
  {
    match BuildUserItemMatrix(rs)
    case Err(e) => Err(e)
    case Ok(m) =>
      if user !in m.users then
        assert forall k :: 0 <= k < |rs| ==> rs[k].user in m.users by {
          forall k | 0 <= k < |rs| ensures rs[k].user in m.users {
            assert UserIds(rs)[k] == rs[k].user && UserIds(rs)[k] in UserIds(rs);
          }
        }
        assert rs != [] ==> rs[0].user in UserIds(rs);
        Err(UserNotFound(user, RangeOf(m.users)))
      else Ok(Ranked(m, user, rs, catalogue, topk, alpha, cosine))
  }

  /** The popularity series already has the collaborative index, so the
      reindex step changes nothing. */
  lemma ReindexIsIdentity(rs: seq<Rating>, user: int, cosine: (seq<real>, seq<real>) -> real)
    requires user in MatrixOf(rs).users
    ensures var m := MatrixOf(rs);
            var collab := Norm(Collaborative(m, Similarities(m, IndexOf(m.users, user), cosine)));
            Reindex(Norm(Popularity(rs)), Items(collab)) == Norm(Popularity(rs))
  {
    var pop := Norm(Popularity(rs));
    assert Items(pop) == SortedDistinct(ItemIds(rs));
    ReindexOntoOwnIndex(pop);
  }

  /** alpha = 1 ranks by the normalised collaborative score alone, alpha = 0
      by the normalised popularity alone. */
  lemma AlphaExtremes(rs: seq<Rating>, user: int, cosine: (seq<real>, seq<real>) -> real)
    requires user in MatrixOf(rs).users
    ensures var m := MatrixOf(rs);
            Hybrid(m, user, rs, 1.0, cosine) ==
            DropSeen(Norm(Collaborative(m, Similarities(m, IndexOf(m.users, user), cosine))), SeenItems(rs, user))
    ensures Hybrid(MatrixOf(rs), user, rs, 0.0, cosine) == DropSeen(Norm(Popularity(rs)), SeenItems(rs, user))
  {
    ReindexIsIdentity(rs, user, cosine);
  }

  /** With alpha in [0, 1] every blended score lies in [0, 1). */
  lemma BlendedInUnitRange(rs: seq<Rating>, user: int, alpha: real, cosine: (seq<real>, seq<real>) -> real)
    requires user in MatrixOf(rs).users && 0.0 <= alpha <= 1.0
    ensures InUnitRange(Blended(MatrixOf(rs), user, rs, alpha, cosine))
  {
    var m := MatrixOf(rs);
    var collab := Collaborative(m, Similarities(m, IndexOf(m.users, user), cosine));
    ReindexIsIdentity(rs, user, cosine);
    assert collab[0] in collab;
    NormLaw(collab);
    assert |Popularity(rs)| == |Items(Popularity(rs))| == |m.items| == |collab|;
    NormLaw(Popularity(rs));
  }

  /** The unseen part of the index: the rated items the user has not rated. */
  lemma HybridItems(rs: seq<Rating>, user: int, alpha: real, cosine: (seq<real>, seq<real>) -> real)
    requires user in MatrixOf(rs).users
    ensures var h := Hybrid(MatrixOf(rs), user, rs, alpha, cosine);
            ItemSet(h) == AllItems(rs) - SeenItems(rs, user) &&
            |h| == |AllItems(rs) - SeenItems(rs, user)|
  {
    var m := MatrixOf(rs);
    var b := Blended(m, user, rs, alpha, cosine);
    assert Items(b) == m.items;
    ItemSetIsIndexSet(b);
    ItemIndexCovers(rs);
    UnseenCount(b, SeenItems(rs, user));
  }

  /** What the ranking of a known user returns: rows sorted by descending
      score; only items of the ratings the user has not rated, each with a
      title exactly when the catalogue has one and with its hybrid score;
      scores in [0, 1) when alpha is in [0, 1]; no unseen item left out
      scores above a returned one; and, with unique catalogue ids, one row
      per selected item and, for topk >= 0, min(topk, number of unseen
      items) rows. */
  lemma RankedLaw(user: int, rs: seq<Rating>, catalogue: seq<ItemRecord>, topk: int, alpha: real,
                  cosine: (seq<real>, seq<real>) -> real)
    requires user in UserIds(rs)
    ensures var recos := Ranked(MatrixOf(rs), user, rs, catalogue, topk, alpha, cosine);
            && SortedDesc(recos, RecoScore)
            && (forall x :: x in recos ==>
                  x.item in AllItems(rs) && x.item !in SeenItems(rs, user) && TitleMatches(x, catalogue) &&
                  Scored(x.item, x.score) in Hybrid(MatrixOf(rs), user, rs, alpha, cosine))
            && (0.0 <= alpha <= 1.0 ==> forall x :: x in recos ==> 0.0 <= x.score < 1.0)
            && (forall e, x :: (e in Hybrid(MatrixOf(rs), user, rs, alpha, cosine) && x in recos &&
                                e.item !in RecoItems(recos)) ==> e.score <= x.score)
            && (UniqueItems(catalogue) ==>
                  forall i, j :: 0 <= i < j < |recos| ==> recos[i].item != recos[j].item)
            && (topk >= 0 && UniqueItems(catalogue) ==>
                  var unseen := |AllItems(rs) - SeenItems(rs, user)|;
                  |recos| == if topk < unseen then topk else unseen)
  {
    var m := MatrixOf(rs);
    var h := Hybrid(m, user, rs, alpha, cosine);
    var b := Blended(m, user, rs, alpha, cosine);
    var recos := Rank(h, topk, catalogue);
    RankRows(h, topk, catalogue);
    RankTopK(h, topk, catalogue);
    HybridItems(rs, user, alpha, cosine);
    forall x | x in recos ensures x.item in AllItems(rs) && x.item !in SeenItems(rs, user) {
      var e := Scored(x.item, x.score);
      assert e in h;
      assert x.item in ItemSet(h);
    }
    if 0.0 <= alpha <= 1.0 {
      BlendedInUnitRange(rs, user, alpha, cosine);
      forall x | x in recos ensures 0.0 <= x.score < 1.0 {
        assert Scored(x.item, x.score) in b;
      }
    }
    if UniqueItems(catalogue) {
      assert Items(b) == m.items;
      RankDistinct(h, topk, catalogue);
    }
    if topk >= 0 && UniqueItems(catalogue) {
      RankLength(h, topk, catalogue);
    }
  }

  /** A call on ratings without duplicate pairs, for a user who has rated
      something, succeeds and returns the ranking of the matrix built from
      the ratings, so every promise of RankedLaw holds of it. */
  lemma RecommendLaw(user: int, rs: seq<Rating>, catalogue: seq<ItemRecord>, topk: int, alpha: real,
                     cosine: (seq<real>, seq<real>) -> real)
    requires !HasDuplicatePair(rs) && user in UserIds(rs)
    ensures Recommend(user, rs, catalogue, topk, alpha, cosine).Ok?
    ensures var recos := Recommend(user, rs, catalogue, topk, alpha, cosine).value;
            && SortedDesc(recos, RecoScore)
            && (forall x :: x in recos ==>
                  x.item in AllItems(rs) && x.item !in SeenItems(rs, user) && TitleMatches(x, catalogue) &&
                  Scored(x.item, x.score) in Hybrid(MatrixOf(rs), user, rs, alpha, cosine))
            && (0.0 <= alpha <= 1.0 ==> forall x :: x in recos ==> 0.0 <= x.score < 1.0)
            && (forall e, x :: (e in Hybrid(MatrixOf(rs), user, rs, alpha, cosine) && x in recos &&
                                e.item !in RecoItems(recos)) ==> e.score <= x.score)
            && (UniqueItems(catalogue) ==>
                  forall i, j :: 0 <= i < j < |recos| ==> recos[i].item != recos[j].item)
            && (topk >= 0 && UniqueItems(catalogue) ==>
                  var unseen := |AllItems(rs) - SeenItems(rs, user)|;
                  |recos| == if topk < unseen then topk else unseen)
  {
    RankedLaw(user, rs, catalogue, topk, alpha, cosine);
  }

  /** A user who has rated every item gets an empty list, not an error. */
  lemma EveryItemRated(user: int, rs: seq<Rating>, catalogue: seq<ItemRecord>, topk: int, alpha: real,
                       cosine: (seq<real>, seq<real>) -> real)
    requires !HasDuplicatePair(rs) && user in UserIds(rs)
    requires AllItems(rs) <= SeenItems(rs, user)
    ensures Recommend(user, rs, catalogue, topk, alpha, cosine) == Ok([])
  {
    var h := Hybrid(MatrixOf(rs), user, rs, alpha, cosine);
    HybridItems(rs, user, alpha, cosine);
    assert |h| == 0;
    assert SortDesc(h, ScoreOf) == [];
    assert Ranked(MatrixOf(rs), user, rs, catalogue, topk, alpha, cosine) == [];
  }

  /** A user with exactly one unseen item gets exactly that item back as
      soon as topk >= 1, whatever alpha and the similarity are. */
  lemma SingleUnseenItem(user: int, rs: seq<Rating>, catalogue: seq<ItemRecord>, topk: int, alpha: real,
                         cosine: (seq<real>, seq<real>) -> real, item: int)
    requires !HasDuplicatePair(rs) && user in UserIds(rs)
    requires AllItems(rs) - SeenItems(rs, user) == {item}
    requires topk >= 1 && UniqueItems(catalogue)
    ensures var r := Recommend(user, rs, catalogue, topk, alpha, cosine);
            r.Ok? && |r.value| == 1 && r.value[0].item == item
  {
    assert |AllItems(rs) - SeenItems(rs, user)| == 1;
    RecommendLaw(user, rs, catalogue, topk, alpha, cosine);
    var recos := Recommend(user, rs, catalogue, topk, alpha, cosine).value;
    assert |recos| == 1;
    assert recos[0] in recos;
    assert recos[0].item in AllItems(rs) - SeenItems(rs, user);
  }

  /** User 1 rated only item 10; item 20 was rated 3.0 by two others. With
      topk = 1 and alpha = 0 the single row returned is item 20. */
  lemma OneUnseenItem(rs: seq<Rating>, catalogue: seq<ItemRecord>, cosine: (seq<real>, seq<real>) -> real)
    requires rs == [Rating(1, 10, 4.0, 0), Rating(2, 20, 3.0, 0), Rating(3, 20, 3.0, 0)]
    requires catalogue == [ItemRecord(10, "Toy Story (1995)"), ItemRecord(20, "GoldenEye (1995)")]
    ensures var r := Recommend(1, rs, catalogue, 1, 0.0, cosine);
            r.Ok? && |r.value| == 1 && r.value[0].item == 20
  {
    ScenarioFacts(rs);
    assert catalogue[0].item != catalogue[1].item;
    SingleUnseenItem(1, rs, catalogue, 1, 0.0, cosine, 20);
  }

  lemma ScenarioFacts(rs: seq<Rating>)
    requires rs == [Rating(1, 10, 4.0, 0), Rating(2, 20, 3.0, 0), Rating(3, 20, 3.0, 0)]
    ensures !HasDuplicatePair(rs) && 1 in UserIds(rs)
    ensures AllItems(rs) - SeenItems(rs, 1) == {20}
    ensures |AllItems(rs) - SeenItems(rs, 1)| == 1
  {
    assert UserIds(rs)[0] == 1;
    assert AllItems(rs) == {10, 20} by {
      assert rs[0].item == 10 && rs[1].item == 20;
    }
    assert SeenItems(rs, 1) == {10} by {
      assert rs[0].user == 1 && rs[1].user != 1 && rs[2].user != 1;
    }
  }
}
