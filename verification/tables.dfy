/** The tables both entry points work on: rating records, catalogue rows, the
    dense user x item matrix, and the sorted distinct id lists that index it. */
module Tables {

  datatype Option<T> = None | Some(value: T)

  /** One row of the rating table (user_id, item_id, rating, timestamp). */
  datatype Rating = Rating(user: int, item: int, rating: real, timestamp: int)

  /** One row of the item catalogue, reduced to the two columns that are kept. */
  datatype ItemRecord = ItemRecord(item: int, title: string)

  /** The failures the recommendation core raises. */
  datatype RecoError =
    | DuplicateEntries
      // the pivot refuses two records for one (user, item) pair
    | UserNotFound(user: int, range: Option<(int, int)>)
      // app.py: carries the min and max of the matrix rows; None when there are
      // no rows (the message then shows NaN for both)
    | UnknownUser(user: int)
      // poc_reco_llm_local.py: a plain message without the range

  datatype Result<T> = Ok(value: T) | Err(error: RecoError)

  predicate StrictlyIncreasing(s: seq<int>)
  {
    forall i, j :: 0 <= i < j < |s| ==> s[i] < s[j]
  }

  function UserIds(rs: seq<Rating>): seq<int>
  {
    seq(|rs|, k requires 0 <= k < |rs| => rs[k].user)
  }

  function ItemIds(rs: seq<Rating>): seq<int>
  {
    seq(|rs|, k requires 0 <= k < |rs| => rs[k].item)
  }

  /** Inserts x into a strictly increasing list unless it is already there. */
  function InsertSorted(s: seq<int>, x: int): (r: seq<int>)
    requires StrictlyIncreasing(s)
    ensures StrictlyIncreasing(r)
    ensures forall y :: y in r <==> y in s || y == x
  {
    if s == [] then [x]
    else if x < s[0] then
      HeadBelowTail(s);
      ConsIncreasing(x, s);
      [x] + s
    else if x == s[0] then s
    else
      HeadBelowTail(s);
      var rest := InsertSorted(s[1..], x);
      ConsIncreasing(s[0], rest);
      [s[0]] + rest
  }

  /** The head of a strictly increasing list lies below its whole tail, and
      the tail is strictly increasing too. */
  lemma HeadBelowTail(s: seq<int>)
    requires StrictlyIncreasing(s) && s != []
    ensures StrictlyIncreasing(s[1..])
    ensures forall y :: y in s[1..] ==> s[0] < y
    ensures forall y :: y in s ==> s[0] <= y
  {
    forall y | y in s[1..] ensures s[0] < y {
      var k :| 0 <= k < |s| - 1 && s[1..][k] == y;
      assert s[k + 1] == y;
    }
  }

  /** A value below every element of a strictly increasing list may be put
      in front of it. */
  lemma ConsIncreasing(x: int, s: seq<int>)
    requires StrictlyIncreasing(s) && forall y :: y in s ==> x < y
    ensures StrictlyIncreasing([x] + s)
  {
    var r := [x] + s;
    forall i, j | 0 <= i < j < |r| ensures r[i] < r[j] {
      assert r[j] == s[j - 1] && s[j - 1] in s;
      if 0 < i {
        assert r[i] == s[i - 1];
      }
    }
  }

  /** The sorted distinct values of s (numpy's sort of unique(), and the
      index pandas builds when it pivots or groups on a column). */
  function SortedDistinct(s: seq<int>): (r: seq<int>)
    ensures StrictlyIncreasing(r)
    ensures forall y :: y in r <==> y in s
  {
    if s == [] then []
    else
      assert forall y :: y in s <==> y == s[0] || y in s[1..] by {
        assert s == [s[0]] + s[1..];
      }
      InsertSorted(SortedDistinct(s[1..]), s[0])
  }

  /** The position of x in s. */
  function IndexOf(s: seq<int>, x: int): (r: nat)
    requires x in s
    ensures r < |s| && s[r] == x
  {
    if s[0] == x then 0 else 1 + IndexOf(s[1..], x)
  }

  /** min() and max() of a pandas index; None stands for the NaN an empty
      index gives. */
  function RangeOf(s: seq<int>): (r: Option<(int, int)>)
    requires StrictlyIncreasing(s)
    ensures r.None? <==> s == []
    ensures r.Some? ==> r.value.0 in s && r.value.1 in s
    ensures r.Some? ==> forall x :: x in s ==> r.value.0 <= x <= r.value.1
  {
    if s == [] then None else Some((s[0], s[|s| - 1]))
  }

  /** A strictly increasing list has as many elements as its set. */
  lemma {:induction false} DistinctCard(s: seq<int>)
    requires StrictlyIncreasing(s)
    ensures |set x | x in s| == |s|
  {
    if s != [] {
      HeadBelowTail(s);
      DistinctCard(s[1..]);
      ConsSet(s);
      assert s[0] !in (set x | x in s[1..]);
    }
  }

  lemma ConsSet(s: seq<int>)
    requires s != []
    ensures (set x | x in s) == {s[0]} + (set x | x in s[1..])
  {
    assert s == [s[0]] + s[1..];
  }

  /** The rating of the last record for (user, item), if any. */
  function LastRating(rs: seq<Rating>, user: int, item: int): Option<real>
  {
    if rs == [] then None
    else if rs[|rs| - 1].user == user && rs[|rs| - 1].item == item then Some(rs[|rs| - 1].rating)
    else LastRating(rs[..|rs| - 1], user, item)
  }

  /** The cell of the dense matrix: the last rating for the pair, else 0.0. */
  function CellValue(rs: seq<Rating>, user: int, item: int): real
  {
    match LastRating(rs, user, item)
    case Some(v) => v
    case None => 0.0
  }

  predicate SamePair(r: Rating, user: int, item: int)
  {
    r.user == user && r.item == item
  }

  /** Absent from the ratings exactly when no record has the pair. */
  lemma {:induction false} NoRecordNoRating(rs: seq<Rating>, user: int, item: int)
    ensures LastRating(rs, user, item) == None <==>
            forall k :: 0 <= k < |rs| ==> !SamePair(rs[k], user, item)
  {
    if rs != [] {
      var init := rs[..|rs| - 1];
      NoRecordNoRating(init, user, item);
      assert forall k :: 0 <= k < |init| ==> init[k] == rs[k];
    }
  }

  /** Last write wins: the record at k, with no later record for the same
      pair, is the one whose rating is kept. */
  lemma {:induction false} LastWriteWins(rs: seq<Rating>, user: int, item: int, k: nat)
    requires k < |rs| && SamePair(rs[k], user, item)
    requires forall k' :: k < k' < |rs| ==> !SamePair(rs[k'], user, item)
    ensures LastRating(rs, user, item) == Some(rs[k].rating)
    ensures CellValue(rs, user, item) == rs[k].rating
  {
    if k < |rs| - 1 {
      var init := rs[..|rs| - 1];
      assert forall j :: 0 <= j < |init| ==> init[j] == rs[j];
      LastWriteWins(init, user, item, k);
    }
  }

  /** Two records for one (user, item) pair. */
  predicate HasDuplicatePair(rs: seq<Rating>)
  {
    exists i, j :: 0 <= i < j < |rs| && rs[i].user == rs[j].user && rs[i].item == rs[j].item
  }

  /** The dense zero-filled user x item table. */
  datatype Matrix = Matrix(users: seq<int>, items: seq<int>, cells: seq<seq<real>>)
  {
    predicate WellFormed()
    {
      |cells| == |users| && forall i :: 0 <= i < |cells| ==> |cells[i]| == |items|
    }
  }

  /** The matrix both builders produce: rows are the sorted distinct user ids,
      columns the sorted distinct item ids, cells the last rating or 0.0. */
  function MatrixOf(rs: seq<Rating>): (m: Matrix)
    ensures m.WellFormed()
  {
    var users := SortedDistinct(UserIds(rs));
    var items := SortedDistinct(ItemIds(rs));
    Matrix(users, items,
           seq(|users|, i requires 0 <= i < |users| =>
             seq(|items|, j requires 0 <= j < |items| => CellValue(rs, users[i], items[j]))))
  }

  /** The distinct item ids that occur in the ratings. */
  function AllItems(rs: seq<Rating>): set<int>
  {
    set k | 0 <= k < |rs| :: rs[k].item
  }

  /** With no duplicate pairs, the cell of a recorded pair is its rating. */
  lemma UniquePairCell(rs: seq<Rating>, k: nat)
    requires !HasDuplicatePair(rs) && k < |rs|
    ensures CellValue(rs, rs[k].user, rs[k].item) == rs[k].rating
  {
    LastWriteWins(rs, rs[k].user, rs[k].item, k);
  }

  /** The cell of a pair is the rating of the last record for it. */
  lemma LastRecordCells(rs: seq<Rating>, users: seq<int>, items: seq<int>)
    ensures forall i, j, k :: (0 <= i < |users| && 0 <= j < |items| && 0 <= k < |rs| &&
                               SamePair(rs[k], users[i], items[j]) &&
                               forall k' :: k < k' < |rs| ==> !SamePair(rs[k'], users[i], items[j])) ==>
              CellValue(rs, users[i], items[j]) == rs[k].rating
  {
    forall i, j, k | 0 <= i < |users| && 0 <= j < |items| && 0 <= k < |rs| &&
                     SamePair(rs[k], users[i], items[j]) &&
                     forall k' :: k < k' < |rs| ==> !SamePair(rs[k'], users[i], items[j])
      ensures CellValue(rs, users[i], items[j]) == rs[k].rating
    {
      LastWriteWins(rs, users[i], items[j], k);
    }
  }

  /** Without duplicate pairs, the cell of a recorded pair is its rating. */
  lemma UniqueRecordCells(rs: seq<Rating>, users: seq<int>, items: seq<int>)
    requires !HasDuplicatePair(rs)
    ensures forall i, j, k :: (0 <= i < |users| && 0 <= j < |items| && 0 <= k < |rs| &&
                               SamePair(rs[k], users[i], items[j])) ==>
              CellValue(rs, users[i], items[j]) == rs[k].rating
  {
    forall i, j, k | 0 <= i < |users| && 0 <= j < |items| && 0 <= k < |rs| &&
                     SamePair(rs[k], users[i], items[j])
      ensures CellValue(rs, users[i], items[j]) == rs[k].rating
    {
      UniquePairCell(rs, k);
    }
  }

  /** The cell of a pair no record has is 0.0. */
  lemma UnrecordedCells(rs: seq<Rating>, users: seq<int>, items: seq<int>)
    ensures forall i, j :: (0 <= i < |users| && 0 <= j < |items| &&
                            forall k :: 0 <= k < |rs| ==> !SamePair(rs[k], users[i], items[j])) ==>
              CellValue(rs, users[i], items[j]) == 0.0
  {
    forall i, j | 0 <= i < |users| && 0 <= j < |items| &&
                  forall k :: 0 <= k < |rs| ==> !SamePair(rs[k], users[i], items[j])
      ensures CellValue(rs, users[i], items[j]) == 0.0
    {
      NoRecordNoRating(rs, users[i], items[j]);
    }
  }

  /** The sorted distinct item ids are exactly the items of the ratings. */
  lemma ItemIndexCovers(rs: seq<Rating>)
    ensures (set x | x in SortedDistinct(ItemIds(rs))) == AllItems(rs)
  {
    forall x ensures x in ItemIds(rs) <==> x in AllItems(rs) {
      if x in ItemIds(rs) {
        var k :| 0 <= k < |rs| && ItemIds(rs)[k] == x;
      }
      if x in AllItems(rs) {
        var k :| 0 <= k < |rs| && rs[k].item == x;
        assert ItemIds(rs)[k] == x;
      }
    }
  }

  /** Over strictly increasing axes, appending a record changes exactly the
      cell at its own row and column. */
  lemma AppendCells(rs: seq<Rating>, r: Rating, users: seq<int>, items: seq<int>, i: nat, j: nat)
    requires StrictlyIncreasing(users) && StrictlyIncreasing(items)
    requires i < |users| && j < |items| && users[i] == r.user && items[j] == r.item
    ensures forall a, b :: 0 <= a < |users| && 0 <= b < |items| ==>
              CellValue(rs + [r], users[a], items[b]) ==
              if a == i && b == j then r.rating else CellValue(rs, users[a], items[b])
  {
    forall a, b | 0 <= a < |users| && 0 <= b < |items|
      ensures CellValue(rs + [r], users[a], items[b]) ==
              if a == i && b == j then r.rating else CellValue(rs, users[a], items[b])
    {
      CellAfterAppend(rs, r, users[a], items[b]);
      if a != i {
        assert users[a] != users[i];
      } else if b != j {
        assert items[b] != items[j];
      }
    }
  }

  /** Appending a record changes the cell of its own pair only. */
  lemma CellAfterAppend(rs: seq<Rating>, r: Rating, user: int, item: int)
    ensures CellValue(rs + [r], user, item) == if SamePair(r, user, item) then r.rating else CellValue(rs, user, item)
  {
    assert (rs + [r])[..|rs|] == rs;
  }
}
