/**
 * The engagement feature extractor: the weighted engagement score, the
 * three-way label against quantile thresholds, the quantile thresholds
 * themselves and the `+1`-smoothed engagement ratios.
 */
module EngagementFeatures {
  import opened Wrappers
  import opened Table

  /** `calculate_engagement_score`: the counts weighted 1 (likes), 2 (comments) and 3 (shares), summed. */
  function Score(likes: int, comments: int, shares: int): int {
    likes * 1 + comments * 2 + shares * 3
  }

  /** More likes, comments or shares never lower the score, and counts that are not negative give a score that is not negative. */
  lemma ScoreMonotone(l: int, c: int, s: int, l': int, c': int, s': int)
    requires l <= l' && c <= c' && s <= s'
    ensures Score(l, c, s) <= Score(l', c', s')
    ensures 0 <= l && 0 <= c && 0 <= s ==> 0 <= Score(l, c, s)
  {
  }

  lemma ScoreExample()
    ensures Score(100, 10, 5) == 135
  {
  }

  /** The `high` and `medium` thresholds of `get_quantiles`. */
  datatype Thresholds = Thresholds(high: real, medium: real)

  /** `categorize_engagement`: the first threshold the score reaches decides; ties go up. */
  function Categorize(score: real, t: Thresholds): (c: Category)
    ensures c == High <==> score >= t.high
    ensures c == Medium <==> t.medium <= score < t.high
    ensures c == Low <==> score < t.high && score < t.medium
  {
    if score >= t.high then High
    else if score >= t.medium then Medium
    else Low
  }

  /** A larger score never gets a lower label, whatever the thresholds. */
  lemma CategorizeMonotone(a: real, b: real, t: Thresholds)
    requires a <= b
    ensures Rank(Categorize(a, t)) <= Rank(Categorize(b, t))
  {
  }

  predicate Sorted(s: seq<int>) {
    forall i, j :: 0 <= i <= j < |s| ==> s[i] <= s[j]
  }

  /** `x` put into its place in the sorted `s`: the result starts with the smaller of `x` and the old head. */
  function Insert(x: int, s: seq<int>): (r: seq<int>)
    requires Sorted(s)
    ensures |r| == |s| + 1
    ensures r[0] == if s == [] || x <= s[0] then x else s[0]
    ensures Sorted(r)
    ensures multiset(r) == multiset(s) + multiset{x}
  {
    if s == [] || x <= s[0] then
      SortedCons(x, s);
      [x] + s
    else
      var rest := Insert(x, s[1..]);
      assert s == [s[0]] + s[1..];
      SortedCons(s[0], rest);
      [s[0]] + rest
  }

  /** A sorted sequence stays sorted under a head no larger than its first element. */
  lemma SortedCons(h: int, rest: seq<int>)
    requires Sorted(rest)
    requires rest == [] || h <= rest[0]
    ensures Sorted([h] + rest)
  {
    var r := [h] + rest;
    forall i, j | 0 <= i <= j < |r| ensures r[i] <= r[j] {
      if i > 0 {
        assert r[i] == rest[i - 1] && r[j] == rest[j - 1];
      } else if j > 0 {
        assert r[j] == rest[j - 1] && rest[0] <= rest[j - 1];
      }
    }
  }

  /** The column in ascending order, as the quantile computation sees it. */
  function Sort(s: seq<int>): (r: seq<int>)
    ensures Sorted(r)
    ensures multiset(r) == multiset(s)
    ensures |r| == |s|
  {
    if s == [] then []
    else
      assert s == [s[0]] + s[1..];
      Insert(s[0], Sort(s[1..]))
  }

  /** The smallest value of a non-empty column. */
  function Min(s: seq<int>): (m: int)
    requires |s| > 0
    ensures m in s
    ensures forall x :: x in s ==> m <= x
  {
    if |s| == 1 then s[0]
    else
      assert s == [s[0]] + s[1..];
      var m := Min(s[1..]);
      if s[0] <= m then s[0] else m
  }

  /** The largest value of a non-empty column. */
  function Max(s: seq<int>): (m: int)
    requires |s| > 0
    ensures m in s
    ensures forall x :: x in s ==> x <= m
  {
    if |s| == 1 then s[0]
    else
      assert s == [s[0]] + s[1..];
      var m := Max(s[1..]);
      if s[0] >= m then s[0] else m
  }

  /**
   * `Series.quantile(q)` with linear interpolation: on the sorted column,
   * the value at position `(n - 1) * q`, interpolated between its two
   * neighbouring entries.
   */
  function Quantile(col: seq<int>, q: real): real
    requires |col| > 0 && 0.0 <= q <= 1.0
  {
    Interpolate(Sort(col), Position(|col| - 1, q))
  }

  /** The value at position `pos` of a sorted sequence, between its entries `pos.Floor` and the next. */
  function Interpolate(s: seq<int>, pos: real): real
    requires Sorted(s) && 0.0 <= pos <= (|s| - 1) as real
  {
    var lo := Floor(pos, |s| - 1);
    var hi := if lo + 1 < |s| then lo + 1 else |s| - 1;
    Lerp(s[lo], s[hi], pos - lo as real)
  }

  /** `(n - 1) * q`, which lies in [0, n - 1]. */
  function Position(top: nat, q: real): (pos: real)
    requires 0.0 <= q <= 1.0
    ensures 0.0 <= pos <= top as real
  {
    top as real * q
  }

  /** A larger `q` gives a position no further left. */
  lemma PositionMonotone(top: nat, q: real, q': real)
    requires 0.0 <= q <= q' <= 1.0
    ensures Position(top, q) <= Position(top, q')
  {
    assert top as real * (q' - q) >= 0.0;
  }

  /** The integer part of a position in [0, top]. */
  function Floor(pos: real, top: nat): (lo: nat)
    requires 0.0 <= pos <= top as real
    ensures lo <= top
    ensures lo as real <= pos < lo as real + 1.0
  {
    pos.Floor
  }

  /** The point a fraction `f` of the way from `a` to `b`. */
  function Lerp(a: int, b: int, f: real): (r: real)
    requires a <= b && 0.0 <= f <= 1.0
    ensures a as real <= r <= b as real
  {
    assert (b - a) as real * f <= (b - a) as real;
    a as real + (b - a) as real * f
  }

  /** Moving further along the segment never moves back. */
  lemma LerpMonotone(a: int, b: int, f: real, f': real)
    requires a <= b && 0.0 <= f <= f' <= 1.0
    ensures Lerp(a, b, f) <= Lerp(a, b, f')
  {
    assert (b - a) as real * (f' - f) >= 0.0;
  }

  /** The sorted column starts at its minimum and ends at its maximum. */
  lemma SortEnds(col: seq<int>)
    requires |col| > 0
    ensures Sort(col)[0] == Min(col)
    ensures Sort(col)[|col| - 1] == Max(col)
  {
    var s := Sort(col);
    InSorted(s, col, Min(col));
    InSorted(s, col, Max(col));
    InSorted(col, s, s[0]);
    InSorted(col, s, s[|s| - 1]);
  }

  /** A value of one sequence is a value of any sequence with the same multiset. */
  lemma InSorted(s: seq<int>, col: seq<int>, x: int)
    requires multiset(s) == multiset(col) && x in col
    ensures x in s
  {
    assert x in multiset(col);
  }

  /** Every quantile lies between the smallest and the largest value of the column. */
  lemma QuantileBounds(col: seq<int>, q: real)
    requires |col| > 0 && 0.0 <= q <= 1.0
    ensures Min(col) as real <= Quantile(col, q) <= Max(col) as real
  {
    SortEnds(col);
    InterpolateBounds(Sort(col), Position(|col| - 1, q));
  }

  /** Interpolation stays between the first and the last entry. */
  lemma InterpolateBounds(s: seq<int>, pos: real)
    requires Sorted(s) && 0.0 <= pos <= (|s| - 1) as real
    ensures s[0] as real <= Interpolate(s, pos) <= s[|s| - 1] as real
  {
  }

  /** At a whole-numbered position there is nothing to interpolate: the quantile is that entry of the sorted column. */
  lemma QuantileAtEntry(col: seq<int>, q: real, k: nat)
    requires |col| > 0 && 0.0 <= q <= 1.0
    requires Position(|col| - 1, q) == k as real
    ensures k < |col|
    ensures Quantile(col, q) == Sort(col)[k] as real
  {
    InterpolateAtEntry(Sort(col), k);
  }

  /** Interpolating at a whole position `k` gives entry `k`. */
  lemma InterpolateAtEntry(s: seq<int>, k: nat)
    requires Sorted(s) && k < |s|
    ensures Interpolate(s, k as real) == s[k] as real
  {
    var hi := if k + 1 < |s| then k + 1 else |s| - 1;
    assert Floor(k as real, |s| - 1) == k;
    LerpStart(s[k], s[hi]);
  }

  /** The 0 quantile is the minimum and the 1 quantile the maximum. */
  lemma QuantileEnds(col: seq<int>)
    requires |col| > 0
    ensures Quantile(col, 0.0) == Min(col) as real
    ensures Quantile(col, 1.0) == Max(col) as real
  {
    SortEnds(col);
    QuantileAtEntry(col, 0.0, 0);
    QuantileAtEntry(col, 1.0, |col| - 1);
  }

  /** No way along the segment is its start. */
  lemma LerpStart(a: int, b: int)
    requires a <= b
    ensures Lerp(a, b, 0.0) == a as real
  {
  }

  /** A higher quantile is never smaller. */
  lemma QuantileMonotone(col: seq<int>, q: real, q': real)
    requires |col| > 0 && 0.0 <= q <= q' <= 1.0
    ensures Quantile(col, q) <= Quantile(col, q')
  {
    PositionMonotone(|col| - 1, q, q');
    InterpolateMonotone(Sort(col), Position(|col| - 1, q), Position(|col| - 1, q'));
  }

  /** Interpolating further along a sorted sequence never gives less. */
  lemma InterpolateMonotone(s: seq<int>, pos: real, pos': real)
    requires Sorted(s) && 0.0 <= pos <= pos' <= (|s| - 1) as real
    ensures Interpolate(s, pos) <= Interpolate(s, pos')
  {
    var n := |s|;
    var lo, lo' := Floor(pos, n - 1), Floor(pos', n - 1);
    assert lo <= lo';
    var hi := if lo + 1 < n then lo + 1 else n - 1;
    if lo == lo' {
      LerpMonotone(s[lo], s[hi], pos - lo as real, pos' - lo as real);
    } else {
      assert hi == lo + 1 <= lo';
      assert s[hi] <= s[lo'];
    }
  }

  /** The values of the cells that are not missing, in order: what `quantile` looks at. */
  function Present(col: seq<Option<int>>): (vals: seq<int>)
    ensures |vals| <= |col|
    ensures forall x :: x in vals <==> Some(x) in col
  {
    if col == [] then []
    else
      assert col == [col[0]] + col[1..];
      (if col[0].Some? then [col[0].value] else []) + Present(col[1..])
  }

  /** Each value occurs among the present values exactly as often as it occurs in the column. */
  lemma {:induction false} PresentCounts(col: seq<Option<int>>)
    ensures forall x :: multiset(Present(col))[x] == multiset(col)[Some(x)]
  {
    if col != [] {
      var head := if col[0].Some? then [col[0].value] else [];
      var rest := Present(col[1..]);
      PresentCounts(col[1..]);
      assert Present(col) == head + rest;
      assert col == [col[0]] + col[1..];
      assert multiset(col) == multiset([col[0]]) + multiset(col[1..]);
      assert multiset(head + rest) == multiset(head) + multiset(rest);
    }
  }

  /** `get_quantiles`: the 0.67 quantile is the `high` threshold and the 0.33 quantile the `medium` one. */
  function GetQuantiles(col: seq<Option<int>>): Thresholds
    requires |Present(col)| > 0
  {
    Thresholds(Quantile(Present(col), 0.67), Quantile(Present(col), 0.33))
  }

  /** Both thresholds lie within the column's range, `high` no lower than `medium`. */
  lemma GetQuantilesSpec(col: seq<Option<int>>)
    requires |Present(col)| > 0
    ensures var t := GetQuantiles(col);
      && Min(Present(col)) as real <= t.medium <= t.high <= Max(Present(col)) as real
  {
    QuantileBounds(Present(col), 0.33);
    QuantileBounds(Present(col), 0.67);
    QuantileMonotone(Present(col), 0.33, 0.67);
  }

  /** A largest value of the column reaches the `high` threshold. */
  lemma MaxIsHigh(col: seq<Option<int>>, x: int)
    requires |Present(col)| > 0
    requires Some(x) in col
    requires forall y :: Some(y) in col ==> y <= x
    ensures Categorize(x as real, GetQuantiles(col)) == High
  {
    GetQuantilesSpec(col);
    assert x in Present(col);
    assert Max(Present(col)) in Present(col);
  }

  /** `a / (b + 1)` on two count cells; missing when a cell is missing or the divisor is zero. */
  function SmoothedRatio(a: Option<int>, b: Option<int>): Option<real> {
    if a.None? || b.None? || b.value + 1 == 0 then None
    else Some(a.value as real / (b.value + 1) as real)
  }

  /** `a + b` on two count cells; missing when either is. */
  function AddCells(a: Option<int>, b: Option<int>): Option<int> {
    if a.None? || b.None? then None else Some(a.value + b.value)
  }

  /** The score of a row, or missing when one of its counts is. */
  function RowScore(p: Post): Option<int> {
    if p.likes.None? || p.comments.None? || p.shares.None? then None
    else Some(Score(p.likes.value, p.comments.value, p.shares.value))
  }

  /** A row of the table `extract_engagement_features` returns: the input row with its total set, and four ratio columns. */
  datatype Engaged = Engaged(
    row: Post,
    commentLikeRatio: Option<real>,
    shareLikeRatio: Option<real>,
    shareCommentRatio: Option<real>,
    engagementIntensity: Option<real>)

  function EngageRow(p: Post): Engaged {
    Engaged(
      p.(totalEngagement := RowScore(p)),
      SmoothedRatio(p.comments, p.likes),
      SmoothedRatio(p.shares, p.likes),
      SmoothedRatio(p.shares, p.comments),
      SmoothedRatio(AddCells(p.comments, p.shares), p.likes))
  }

  /**
   * `extract_engagement_features`: works on a copy, so the input is left as
   * it is; one output row per input row, in order, each keeping every
   * original column and carrying the row's score as its total.
   */
  function ExtractEngagementFeatures(rows: seq<Post>): (out: seq<Engaged>)
    ensures |out| == |rows|
    ensures forall i :: 0 <= i < |out| ==> out[i] == EngageRow(rows[i])
  {
    seq(|rows|, i requires 0 <= i < |rows| => EngageRow(rows[i]))
  }

  /**
   * Each output row keeps the input's other columns and carries its score;
   * with counts present and not negative, every ratio is defined and not
   * negative, and the intensity is the sum of the comment and share ratios.
   */
  lemma EngageRowSpec(p: Post)
    ensures var e := EngageRow(p);
      && e.row.text == p.text && e.row.likes == p.likes && e.row.comments == p.comments
      && e.row.shares == p.shares && e.row.engagementScore == p.engagementScore
      && e.row.totalEngagement == RowScore(p)
    ensures var e := EngageRow(p);
      p.likes.Some? && p.comments.Some? && p.shares.Some? &&
      p.likes.value >= 0 && p.comments.value >= 0 && p.shares.value >= 0 ==>
        && e.commentLikeRatio.Some? && e.commentLikeRatio.value >= 0.0
        && e.shareLikeRatio.Some? && e.shareLikeRatio.value >= 0.0
        && e.shareCommentRatio.Some? && e.shareCommentRatio.value >= 0.0
        && e.engagementIntensity == Some(e.commentLikeRatio.value + e.shareLikeRatio.value)
  {
    if p.likes.Some? && p.comments.Some? && p.shares.Some? && p.likes.value >= 0 {
      var d := (p.likes.value + 1) as real;
      SplitQuotient(p.comments.value as real, p.shares.value as real, d);
    }
  }

  /** Division distributes over a sum. */
  lemma SplitQuotient(a: real, b: real, d: real)
    requires d > 0.0
    ensures (a + b) / d == a / d + b / d
  {
  }

  /** A row whose counts are all zero has total 0 and all four ratios 0. */
  lemma ZeroRow(p: Post)
    requires p.likes == Some(0) && p.comments == Some(0) && p.shares == Some(0)
    ensures var e := EngageRow(p);
      && e.row.totalEngagement == Some(0)
      && e.commentLikeRatio == Some(0.0) && e.shareLikeRatio == Some(0.0)
      && e.shareCommentRatio == Some(0.0) && e.engagementIntensity == Some(0.0)
  {
    assert SmoothedRatio(Some(0), Some(0)) == Some(0.0);
    assert AddCells(Some(0), Some(0)) == Some(0);
  }
}
