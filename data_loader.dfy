/**
 * The data preparation step: missing counts filled with 0, the weighted
 * total computed for every row, and every row labelled against the 0.67
 * and 0.33 quantiles of the total column. `prepare_data` changes the
 * caller's table in place, so it is a method over an array of rows, proved
 * against the function `Prepared` of the table it was given.
 */
module DataLoader {
  import opened Wrappers
  import opened Table
  import opened EngagementFeatures

  /** The three count columns `prepare_data` fills. */
  datatype CountColumn = LikesCol | CommentsCol | SharesCol

  function Cell(p: Post, c: CountColumn): Option<int> {
    match c
    case LikesCol => p.likes
    case CommentsCol => p.comments
    case SharesCol => p.shares
  }

  /** The row with the cell of column `c` replaced by `v`; every other cell kept. */
  function SetCell(p: Post, c: CountColumn, v: Option<int>): (r: Post)
    ensures Cell(r, c) == v
    ensures forall c' :: c' != c ==> Cell(r, c') == Cell(p, c')
    ensures r.text == p.text && r.totalEngagement == p.totalEngagement
    ensures r.engagementScore == p.engagementScore
  {
    match c
    case LikesCol => p.(likes := v)
    case CommentsCol => p.(comments := v)
    case SharesCol => p.(shares := v)
  }

  /** `fillna(0)` on the cell of column `c`: a present value is kept, a missing one becomes 0; nothing else changes. */
  function FillCell(p: Post, c: CountColumn): (r: Post)
    ensures Cell(r, c) == if Cell(p, c).None? then Some(0) else Cell(p, c)
    ensures forall c' :: c' != c ==> Cell(r, c') == Cell(p, c')
    ensures r.text == p.text
    ensures r.totalEngagement == p.totalEngagement && r.engagementScore == p.engagementScore
  {
    if Cell(p, c).None? then SetCell(p, c, Some(0)) else p
  }

  /** `df[c] = df[c].fillna(0)` on a table. */
  function FillColumn(rows: seq<Post>, c: CountColumn): (out: seq<Post>)
    ensures |out| == |rows|
    ensures forall i :: 0 <= i < |rows| ==> out[i] == FillCell(rows[i], c)
  {
    seq(|rows|, i requires 0 <= i < |rows| => FillCell(rows[i], c))
  }

  /** Fills the missing cells of column `c` with 0, row by row. */
  method FillNa(table: array<Post>, c: CountColumn)
    modifies table
    ensures table[..] == FillColumn(old(table[..]), c)
  {
    for i := 0 to table.Length
      invariant forall k :: 0 <= k < i ==> table[k] == FillCell(old(table[k]), c)
      invariant forall k :: i <= k < table.Length ==> table[k] == old(table[k])
    {
      var p := table[i];
      if Cell(p, c).None? {
        table[i] := SetCell(p, c, Some(0));
      }
    }
  }

  /** `likes + comments * 2 + shares * 3` on one row; missing when a count is, as NaN propagates. */
  function TotalCell(p: Post): Option<int> {
    if p.likes.None? || p.comments.None? || p.shares.None? then None
    else Some(p.likes.value + p.comments.value * 2 + p.shares.value * 3)
  }

  /** The total of `prepare_data` is the score of `calculate_engagement_score`, row by row. */
  lemma TotalAgrees(p: Post)
    ensures TotalCell(p) == RowScore(p)
    ensures TotalCell(p).Some? <==> p.likes.Some? && p.comments.Some? && p.shares.Some?
  {
  }

  /** The table with its `total_engagement` column (re)computed. */
  function WithTotals(rows: seq<Post>): (out: seq<Post>)
    ensures |out| == |rows|
    ensures forall i :: 0 <= i < |rows| ==> out[i] == rows[i].(totalEngagement := TotalCell(rows[i]))
  {
    seq(|rows|, i requires 0 <= i < |rows| => rows[i].(totalEngagement := TotalCell(rows[i])))
  }

  /**
   * `_categorize_engagement`: the two quantiles are taken afresh from the
   * column on every call. A missing score, or a column with no value, makes
   * both comparisons false (NaN), so the label is Low.
   */
  function CategorizeRow(score: Option<int>, col: seq<Option<int>>): Category {
    var vals := Present(col);
    if score.None? || |vals| == 0 then Low
    else if score.value as real >= Quantile(vals, 0.67) then High
    else if score.value as real >= Quantile(vals, 0.33) then Medium
    else Low
  }

  /**
   * The per-row callback gives the label `categorize_engagement` gives
   * against the thresholds of `get_quantiles` for the same column.
   */
  lemma CategorizeRowAgrees(score: int, col: seq<Option<int>>)
    requires |Present(col)| > 0
    ensures CategorizeRow(Some(score), col) == Categorize(score as real, GetQuantiles(col))
  {
  }

  /** The table with every row labelled against the column `col`. */
  function WithLabels(rows: seq<Post>, col: seq<Option<int>>): (out: seq<Post>)
    ensures |out| == |rows|
    ensures forall i :: 0 <= i < |rows| ==>
      out[i] == rows[i].(engagementScore := Some(CategorizeRow(rows[i].totalEngagement, col)))
  {
    seq(|rows|, i requires 0 <= i < |rows| =>
      rows[i].(engagementScore := Some(CategorizeRow(rows[i].totalEngagement, col))))
  }

  /** The three counts filled, in the order `prepare_data` fills them. */
  function Filled(rows: seq<Post>): (out: seq<Post>)
    ensures |out| == |rows|
    ensures forall i :: 0 <= i < |out| ==> out[i].likes.Some? && out[i].comments.Some? && out[i].shares.Some?
  {
    FillColumn(FillColumn(FillColumn(rows, LikesCol), CommentsCol), SharesCol)
  }

  /**
   * The table `prepare_data` leaves behind: counts filled, totals computed,
   * then every row labelled against the completed total column.
   */
  function Prepared(rows: seq<Post>): (out: seq<Post>)
    ensures |out| == |rows|
    ensures forall i :: 0 <= i < |out| ==> out[i].totalEngagement.Some? && out[i].engagementScore.Some?
  {
    var totalled := WithTotals(Filled(rows));
    WithLabels(totalled, TotalColumn(totalled))
  }

  /** `prepare_data`: updates the given table in place. */
  method PrepareData(table: array<Post>)
    modifies table
    ensures table[..] == Prepared(old(table[..]))
  {
    FillNa(table, LikesCol);
    FillNa(table, CommentsCol);
    FillNa(table, SharesCol);
    ComputeTotals(table);
    LabelRows(table);
  }

  /** `df['total_engagement'] = likes + comments * 2 + shares * 3` on a table whose counts are filled. */
  method ComputeTotals(table: array<Post>)
    requires forall k :: 0 <= k < table.Length ==>
      table[k].likes.Some? && table[k].comments.Some? && table[k].shares.Some?
    modifies table
    ensures table[..] == WithTotals(old(table[..]))
  {
    for i := 0 to table.Length
      invariant forall k :: 0 <= k < i ==> table[k] == old(table[k]).(totalEngagement := TotalCell(old(table[k])))
      invariant forall k :: i <= k < table.Length ==> table[k] == old(table[k])
    {
      var p := table[i];
      table[i] := p.(totalEngagement := Some(p.likes.value + p.comments.value * 2 + p.shares.value * 3));
    }
  }

  /**
   * `df['engagement_score'] = df['total_engagement'].apply(...)`: every
   * label is computed from the completed total column before the label
   * column is assigned.
   */
  method LabelRows(table: array<Post>)
    modifies table
    ensures table[..] == WithLabels(old(table[..]), TotalColumn(old(table[..])))
  {
    var labels: seq<Category> := [];
    for i := 0 to table.Length
      invariant |labels| == i
      invariant forall k :: 0 <= k < i ==>
        labels[k] == CategorizeRow(table[k].totalEngagement, TotalColumn(table[..]))
    {
      labels := labels + [CategorizeRow(table[i].totalEngagement, TotalColumn(table[..]))];
    }

    ghost var totals := table[..];
    for i := 0 to table.Length
      invariant forall k :: 0 <= k < i ==> table[k] == totals[k].(engagementScore := Some(labels[k]))
      invariant forall k :: i <= k < table.Length ==> table[k] == totals[k]
    {
      table[i] := table[i].(engagementScore := Some(labels[i]));
    }
  }

  /** Row `i` after the three fills: text kept, present counts kept, missing counts 0. */
  lemma FilledRow(rows: seq<Post>, i: nat)
    requires i < |rows|
    ensures |Filled(rows)| == |rows|
    ensures var p, r := Filled(rows)[i], rows[i];
      && p.text == r.text
      && p.likes == (if r.likes.None? then Some(0) else r.likes)
      && p.comments == (if r.comments.None? then Some(0) else r.comments)
      && p.shares == (if r.shares.None? then Some(0) else r.shares)
  {
    var a := FillCell(rows[i], LikesCol);
    var b := FillCell(a, CommentsCol);
    assert Cell(b, LikesCol) == Cell(a, LikesCol);
    assert Cell(FillCell(b, SharesCol), LikesCol) == Cell(b, LikesCol);
    assert Cell(FillCell(b, SharesCol), CommentsCol) == Cell(b, CommentsCol);
  }

  /**
   * After `prepare_data` the table has the same rows in the same order,
   * each with its text; a count that was present is unchanged and a missing
   * one is 0.
   */
  lemma PreparedCounts(rows: seq<Post>, i: nat)
    requires i < |rows|
    ensures |Prepared(rows)| == |rows|
    ensures var p, r := Prepared(rows)[i], rows[i];
      && p.text == r.text
      && p.likes == (if r.likes.None? then Some(0) else r.likes)
      && p.comments == (if r.comments.None? then Some(0) else r.comments)
      && p.shares == (if r.shares.None? then Some(0) else r.shares)
  {
    FilledRow(rows, i);
  }

  /** Every prepared row carries the engagement score of its filled counts. */
  lemma PreparedTotals(rows: seq<Post>, i: nat)
    requires i < |rows|
    ensures |Prepared(rows)| == |rows|
    ensures var p := Prepared(rows)[i];
      && p.likes.Some? && p.comments.Some? && p.shares.Some?
      && p.totalEngagement == Some(Score(p.likes.value, p.comments.value, p.shares.value))
  {
    FilledRow(rows, i);
  }

  /** Labelling leaves the total column as it was. */
  lemma LabelsKeepTotals(rows: seq<Post>, col: seq<Option<int>>)
    ensures TotalColumn(WithLabels(rows, col)) == TotalColumn(rows)
  {
    var a, b := TotalColumn(WithLabels(rows, col)), TotalColumn(rows);
    assert |a| == |b|;
    forall k | 0 <= k < |a| ensures a[k] == b[k] {
    }
  }

  /** The total column after the totals step has a value in every row. */
  lemma TotalsPresent(rows: seq<Post>, i: nat)
    requires i < |rows|
    ensures var col := TotalColumn(WithTotals(Filled(rows)));
      && col[i].Some? && col[i].value in Present(col)
  {
    FilledRow(rows, i);
  }

  /**
   * The per-row recomputation of the quantiles is one global computation:
   * every label is what `categorize_engagement` gives for the row's total
   * against `get_quantiles` of the final total column.
   */
  lemma PreparedLabels(rows: seq<Post>, i: nat)
    requires i < |rows|
    ensures var out := Prepared(rows);
      && |out| == |rows|
      && |Present(TotalColumn(out))| > 0
      && out[i].totalEngagement.Some?
      && out[i].engagementScore ==
        Some(Categorize(out[i].totalEngagement.value as real, GetQuantiles(TotalColumn(out))))
  {
    var totalled := WithTotals(Filled(rows));
    LabelsKeepTotals(totalled, TotalColumn(totalled));
    TotalsPresent(rows, i);
    var out := Prepared(rows);
    CategorizeRowAgrees(out[i].totalEngagement.value, TotalColumn(out));
  }

  /** A row with a larger total never gets a lower label. */
  lemma PreparedMonotone(rows: seq<Post>, i: nat, j: nat)
    requires i < |rows| && j < |rows|
    requires Prepared(rows)[i].totalEngagement.value <= Prepared(rows)[j].totalEngagement.value
    ensures Rank(Prepared(rows)[i].engagementScore.value) <= Rank(Prepared(rows)[j].engagementScore.value)
  {
    PreparedLabels(rows, i);
    PreparedLabels(rows, j);
    var out := Prepared(rows);
    CategorizeMonotone(out[i].totalEngagement.value as real, out[j].totalEngagement.value as real,
      GetQuantiles(TotalColumn(out)));
  }

  /** A row with the largest total of the table is labelled High. */
  lemma PreparedMaxHigh(rows: seq<Post>, i: nat)
    requires i < |rows|
    requires forall j :: 0 <= j < |rows| ==>
      Prepared(rows)[j].totalEngagement.value <= Prepared(rows)[i].totalEngagement.value
    ensures Prepared(rows)[i].engagementScore == Some(High)
  {
    PreparedLabels(rows, i);
    var out := Prepared(rows);
    var col := TotalColumn(out);
    var x := out[i].totalEngagement.value;
    assert col[i] == Some(x);
    forall y | Some(y) in col ensures y <= x {
      var j :| 0 <= j < |col| && col[j] == Some(y);
    }
    MaxIsHigh(col, x);
  }
}
