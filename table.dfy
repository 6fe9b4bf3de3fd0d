/** The posts table: one row per post, with the columns the pipeline reads and writes. */
module Table {
  import opened Wrappers

  /** The engagement label, ordered Low < Medium < High. */
  datatype Category = Low | Medium | High

  function Rank(c: Category): nat {
    match c
    case Low => 0
    case Medium => 1
    case High => 2
  }

  /**
   * One row of the table. A missing cell (NaN) is `None`; `engagementScore`
   * holds the label, as the column of that name does.
   */
  datatype Post = Post(
    text: Option<string>,
    likes: Option<int>,
    comments: Option<int>,
    shares: Option<int>,
    totalEngagement: Option<int>,
    engagementScore: Option<Category>)

  /** The `total_engagement` column. */
  function TotalColumn(rows: seq<Post>): (col: seq<Option<int>>)
    ensures |col| == |rows|
    ensures forall i :: 0 <= i < |rows| ==> col[i] == rows[i].totalEngagement
  {
    seq(|rows|, i requires 0 <= i < |rows| => rows[i].totalEngagement)
  }
}
