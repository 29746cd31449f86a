/** `SELECT reward, created_at FROM rewards WHERE user_id = ? ORDER BY created_at DESC`:
    one user's rewards, most recent first. Rows with equal timestamps keep table order
    (SQLite leaves their order open; this model fixes one). */
module Rewards {
  import opened Schema

  ghost predicate NewestFirst(rows: seq<RewardRow>) {
    forall i, j :: 0 <= i < j < |rows| ==> rows[i].createdAt >= rows[j].createdAt
  }

  /** Places `x` before the first row that is not newer than it. */
  function Insert(x: RewardRow, rows: seq<RewardRow>): (r: seq<RewardRow>)
    requires NewestFirst(rows)
    ensures NewestFirst(r)
    ensures multiset(r) == multiset(rows) + multiset{x}
    ensures |r| == |rows| + 1
  {
    if rows == [] || x.createdAt >= rows[0].createdAt then
      [x] + rows
    else
      var rest := Insert(x, rows[1..]);
      assert rows == [rows[0]] + rows[1..];
      assert rest[0] in multiset(rows[1..]) + multiset{x};
      [rows[0]] + rest
  }

  function SortNewestFirst(rows: seq<RewardRow>): (r: seq<RewardRow>)
    ensures NewestFirst(r)
    ensures multiset(r) == multiset(rows)
  {
    if rows == [] then []
    else
      assert rows == [rows[0]] + rows[1..];
      Insert(rows[0], SortNewestFirst(rows[1..]))
  }

  /** The rows the rewards endpoint lists for a user. */
  function Listed(rewards: seq<RewardRow>, userId: int): (r: seq<RewardRow>)
    ensures NewestFirst(r)
    ensures multiset(r) == multiset(RowsOf(rewards, RewardOwner, userId))
    ensures |r| == |RowsOf(rewards, RewardOwner, userId)|
    ensures forall x :: x in r <==> x in rewards && x.userId == userId
  {
    var mine := RowsOf(rewards, RewardOwner, userId);
    var r := SortNewestFirst(mine);
    assert |r| == |mine| by { assert |multiset(r)| == |multiset(mine)|; }
    assert forall x :: x in r <==> x in mine by {
      forall x ensures x in r <==> x in mine {
        assert x in r <==> x in multiset(r);
        assert x in mine <==> x in multiset(mine);
      }
    }
    r
  }
}
