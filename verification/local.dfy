/** poc_reco_llm_local.py, the command-line variant: the matrix is a table
    of 0.0 filled in place record by record, so the last record for a pair
    wins; an unknown user gets a plain error; and the two score series are
    blended without a reindex step, because both are indexed by the sorted
    distinct item ids. */
module LocalPoc {
  import opened Tables
  import opened Scoring
  import App

  /** Sorted distinct user and item ids, a 0.0 table over them, then one
      write per rating record in order. */
  method BuildUserItemMatrix(rs: seq<Rating>) returns (users: seq<int>, items: seq<int>, mat: array2<real>)
    ensures fresh(mat)
    ensures users == SortedDistinct(UserIds(rs)) && items == SortedDistinct(ItemIds(rs))
    ensures mat.Length0 == |users| && mat.Length1 == |items|
    ensures forall i, j :: 0 <= i < |users| && 0 <= j < |items| ==> mat[i, j] == CellValue(rs, users[i], items[j])
    ensures forall i, j, k :: (0 <= i < |users| && 0 <= j < |items| && 0 <= k < |rs| &&
                               SamePair(rs[k], users[i], items[j]) &&
                               forall k' :: k < k' < |rs| ==> !SamePair(rs[k'], users[i], items[j])) ==>
              mat[i, j] == rs[k].rating
    ensures forall i, j :: (0 <= i < |users| && 0 <= j < |items| &&
                            forall k :: 0 <= k < |rs| ==> !SamePair(rs[k], users[i], items[j])) ==>
              mat[i, j] == 0.0
  {
    users := SortedDistinct(UserIds(rs));
    items := SortedDistinct(ItemIds(rs));
    mat := new real[|users|, |items|]((i, j) => 0.0);
    forall k | 0 <= k < |rs| ensures rs[k].user in users && rs[k].item in items {
      assert UserIds(rs)[k] == rs[k].user && ItemIds(rs)[k] == rs[k].item;
    }
    WriteRatings(rs, users, items, mat);
    LastRecordCells(rs, users, items);
    UnrecordedCells(rs, users, items);
  }

  /** The write loop: for each record in order, the cell at its user's row
      and its item's column takes its rating. */
  method WriteRatings(rs: seq<Rating>, users: seq<int>, items: seq<int>, mat: array2<real>)
    requires StrictlyIncreasing(users) && StrictlyIncreasing(items)
    requires forall k :: 0 <= k < |rs| ==> rs[k].user in users && rs[k].item in items
    requires mat.Length0 == |users| && mat.Length1 == |items|
    requires forall i, j :: 0 <= i < |users| && 0 <= j < |items| ==> mat[i, j] == 0.0
    modifies mat
    ensures forall i, j :: 0 <= i < |users| && 0 <= j < |items| ==> mat[i, j] == CellValue(rs, users[i], items[j])
  {
    var k := 0;
    while k < |rs|
      invariant 0 <= k <= |rs|
      invariant forall i, j :: 0 <= i < |users| && 0 <= j < |items| ==>
                  mat[i, j] == CellValue(rs[..k], users[i], items[j])
    {
      var row := rs[k];
      var i := IndexOf(users, row.user);
      var j := IndexOf(items, row.item);
      mat[i, j] := row.rating;
      assert rs[..k + 1] == rs[..k] + [row];
      AppendCells(rs[..k], row, users, items, i, j);
      k := k + 1;
    }
    assert rs[..k] == rs;
  }

  /** The blend straight over the two normalised series. */
  function Blended(m: Matrix, user: int, rs: seq<Rating>, alpha: real,
                   cosine: (seq<real>, seq<real>) -> real): (r: seq<Scored>)
    requires m.WellFormed() && user in m.users && m.items == SortedDistinct(ItemIds(rs))
    ensures Items(r) == m.items
  {
    var collab := Norm(Collaborative(m, Similarities(m, IndexOf(m.users, user), cosine)));
    var pop := Norm(Popularity(rs));
    Blend(alpha, collab, pop)
  }

  /** The blended scores with the user's own items dropped. */
  function Hybrid(m: Matrix, user: int, rs: seq<Rating>, alpha: real,
                  cosine: (seq<real>, seq<real>) -> real): (r: seq<Scored>)
    requires m.WellFormed() && user in m.users && m.items == SortedDistinct(ItemIds(rs))
    ensures forall e :: e in r <==> e in Blended(m, user, rs, alpha, cosine) && e.item !in SeenItems(rs, user)
  {
    DropSeen(Blended(m, user, rs, alpha, cosine), SeenItems(rs, user))
  }

  /** recommend(user_id, ratings, items, topk, alpha) as a function of the
      inputs; the method Recommend computes it. */
  function Recommendation(user: int, rs: seq<Rating>, catalogue: seq<ItemRecord>, topk: int, alpha: real,
                          cosine: (seq<real>, seq<real>) -> real): (r: Result<seq<Reco>>)
    ensures r.Err? <==> user !in UserIds(rs)
    ensures r.Err? ==> r.error == UnknownUser(user)
  {
    var m := MatrixOf(rs);
    if user !in m.users then Err(UnknownUser(user))
    else Ok(Rank(Hybrid(m, user, rs, alpha, cosine), topk, catalogue))
  }

  /** Builds the matrix in place, fails on an unknown user before any
      scoring, then scores and ranks. */
  method Recommend(user: int, rs: seq<Rating>, catalogue: seq<ItemRecord>, topk: int, alpha: real,
                   cosine: (seq<real>, seq<real>) -> real) returns (r: Result<seq<Reco>>)
    ensures r == Recommendation(user, rs, catalogue, topk, alpha, cosine)
  {
    var users, items, mat := BuildUserItemMatrix(rs);
    if user !in users {
      return Err(UnknownUser(user));
    }
    var cells := seq(|users|, i requires 0 <= i < |users| reads mat =>
                   seq(|items|, j requires 0 <= j < |items| reads mat => mat[i, j]));
    var m := Matrix(users, items, cells);
    assert m == MatrixOf(rs) by {
      var spec := MatrixOf(rs);
      forall i | 0 <= i < |users| ensures cells[i] == spec.cells[i] {
        assert forall j :: 0 <= j < |items| ==> cells[i][j] == spec.cells[i][j];
      }
    }
    r := Ok(Rank(Hybrid(m, user, rs, alpha, cosine), topk, catalogue));
  }

  /** Both series carry the sorted distinct item ids as their index, so the
      element-wise blend is well defined without a reindex. */
  lemma SharedIndex(rs: seq<Rating>, user: int, cosine: (seq<real>, seq<real>) -> real)
    requires user in UserIds(rs)
    ensures var m := MatrixOf(rs);
            var collab := Norm(Collaborative(m, Similarities(m, IndexOf(m.users, user), cosine)));
            Items(collab) == Items(Norm(Popularity(rs))) == SortedDistinct(ItemIds(rs))
  {
  }

  /** Without the reindex step the local hybrid equals App.Hybrid over the
      same last-write-wins matrix, duplicate records included; app.py itself
      fails on duplicate pairs before scoring (see VariantsAgree for the
      ratings on which both succeed). */
  lemma HybridAgrees(rs: seq<Rating>, user: int, alpha: real, cosine: (seq<real>, seq<real>) -> real)
    requires user in UserIds(rs)
    ensures Hybrid(MatrixOf(rs), user, rs, alpha, cosine) == App.Hybrid(MatrixOf(rs), user, rs, alpha, cosine)
  {
    App.ReindexIsIdentity(rs, user, cosine);
  }

  /** On ratings without duplicate pairs the two variants fail on the same
      users and otherwise return the same rows. */
  lemma VariantsAgree(user: int, rs: seq<Rating>, catalogue: seq<ItemRecord>, topk: int, alpha: real,
                      cosine: (seq<real>, seq<real>) -> real)
    requires !HasDuplicatePair(rs)
    ensures Recommendation(user, rs, catalogue, topk, alpha, cosine).Ok? <==>
            App.Recommend(user, rs, catalogue, topk, alpha, cosine).Ok?
    ensures Recommendation(user, rs, catalogue, topk, alpha, cosine).Ok? ==>
            Recommendation(user, rs, catalogue, topk, alpha, cosine).value ==
            App.Recommend(user, rs, catalogue, topk, alpha, cosine).value
  {
    if user in UserIds(rs) {
      HybridAgrees(rs, user, alpha, cosine);
    }
  }

  /** A call for a user who has rated something succeeds (duplicate records
      allowed) and returns rows sorted by descending score; only items the
      user has not rated, with a title exactly when the catalogue has one
      and with its hybrid score; scores in [0, 1) when alpha is in [0, 1];
      no unseen item left out scores above a returned one; and, with unique
      catalogue ids, one row per selected item and, for topk >= 0,
      min(topk, unseen items) rows. */
  lemma RecommendationLaw(user: int, rs: seq<Rating>, catalogue: seq<ItemRecord>, topk: int, alpha: real,
                          cosine: (seq<real>, seq<real>) -> real)
    requires user in UserIds(rs)
    ensures Recommendation(user, rs, catalogue, topk, alpha, cosine).Ok?
    ensures var recos := Recommendation(user, rs, catalogue, topk, alpha, cosine).value;
            && SortedDesc(recos, RecoScore)
            && (forall x :: x in recos ==>
                  x.item in AllItems(rs) && x.item !in SeenItems(rs, user) && TitleMatches(x, catalogue) &&
                  Scored(x.item, x.score) in Hybrid(MatrixOf(rs), user, rs, alpha, cosine))
            && (0.0 <= alpha <= 1.0 ==> forall x :: x in recos ==> 0.0 <= x.score < 1.0)
            && (forall e, x :: (e in Hybrid(MatrixOf(rs), user, rs, alpha, cosine) && x in recos &&
                                e.item !in RecoItems(recos)) ==> e.score <= x.score)
            && (UniqueItems(catalogue) ==>
                  forall i, j :: 0 <= i < j < |recos| ==> recos[i].item != recos[j].item)
            && (topk >= 0 && UniqueItems(catalogue) ==>
                  var unseen := |AllItems(rs) - SeenItems(rs, user)|;
                  |recos| == if topk < unseen then topk else unseen)
  {
    HybridAgrees(rs, user, alpha, cosine);
    App.RankedLaw(user, rs, catalogue, topk, alpha, cosine);
  }
}
