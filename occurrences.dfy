/**
 * What `re.findall` and `re.sub` do with the hashtag, mention and URL
 * patterns, stated position by position on the text rather than through the
 * scanner: which occurrences are found, where they start, how far they run,
 * and which characters survive their deletion.
 */
module Occurrences {
  import opened Chars
  import opened Patterns
  import opened Splitting

  // ---------------------------------------------------------------------------
  // Any pattern: where the matches of `re.findall` stand.

  /** The position where each match `re.findall(p, s[i..])` returns starts, in order. */
  function MatchStarts(p: Pattern, s: string, i: nat): seq<nat>
    requires i <= |s|
    decreases |s| - i
  {
    if i == |s| then []
    else
      var n := MatchLen(p, s, i);
      if n > 0 then [i] + MatchStarts(p, s, i + n) else MatchStarts(p, s, i + 1)
  }

  lemma StartsOnMatch(p: Pattern, s: string, i: nat)
    requires i < |s| && MatchLen(p, s, i) > 0
    ensures MatchStarts(p, s, i) == [i] + MatchStarts(p, s, i + MatchLen(p, s, i))
  {
  }

  lemma StartsOnMiss(p: Pattern, s: string, i: nat)
    requires i < |s| && MatchLen(p, s, i) == 0
    ensures MatchStarts(p, s, i) == MatchStarts(p, s, i + 1)
  {
  }

  /**
   * `r` lists slices of `s` that start at the positions `ps`, none before
   * `i`, each ending no later than the next one starts.
   */
  predicate Located(s: string, i: nat, r: seq<string>, ps: seq<nat>) {
    && |r| == |ps|
    && (forall j :: 0 <= j < |ps| ==> i <= ps[j] && ps[j] + |r[j]| <= |s| && r[j] == s[ps[j]..ps[j] + |r[j]|])
    && (forall j :: 0 <= j < |ps| - 1 ==> ps[j] + |r[j]| <= ps[j + 1])
  }

  lemma LocatedCons(s: string, i: nat, m: string, r: seq<string>, ps: seq<nat>)
    requires i + |m| <= |s| && m == s[i..i + |m|] && Located(s, i + |m|, r, ps)
    ensures Located(s, i, [m] + r, [i] + ps)
  {
    var r', ps' := [m] + r, [i] + ps;
    forall j | 0 <= j < |ps'| - 1 ensures ps'[j] + |r'[j]| <= ps'[j + 1] {
      assert ps'[j + 1] == ps[j];
      if j > 0 {
        assert ps'[j] == ps[j - 1] && r'[j] == r[j - 1];
      }
    }
    forall j | 0 < j < |ps'| ensures i <= ps'[j] && ps'[j] + |r'[j]| <= |s| && r'[j] == s[ps'[j]..ps'[j] + |r'[j]|] {
      assert ps'[j] == ps[j - 1] && r'[j] == r[j - 1];
    }
  }

  /**
   * The matches `re.findall(p, s[i..])` returns are the text at the
   * positions where they start, in increasing order and without overlap.
   */
  lemma {:induction false} MatchesLocated(p: Pattern, s: string, i: nat)
    requires i <= |s|
    ensures Located(s, i, Scan(p, s, i), MatchStarts(p, s, i))
    decreases |s| - i
  {
    if i < |s| {
      var n := MatchLen(p, s, i);
      if n > 0 {
        MatchesLocated(p, s, i + n);
        LocatedOnMatch(p, s, i);
      } else {
        MatchesLocated(p, s, i + 1);
        LocatedOnMiss(p, s, i);
      }
    }
  }

  lemma LocatedOnMatch(p: Pattern, s: string, i: nat)
    requires i < |s| && MatchLen(p, s, i) > 0
    requires var e := i + MatchLen(p, s, i); Located(s, e, Scan(p, s, e), MatchStarts(p, s, e))
    ensures Located(s, i, Scan(p, s, i), MatchStarts(p, s, i))
  {
    var e := i + MatchLen(p, s, i);
    StartsOnMatch(p, s, i);
    ScanOnMatch(p, s, i);
    LocatedCons(s, i, s[i..e], Scan(p, s, e), MatchStarts(p, s, e));
  }

  lemma LocatedOnMiss(p: Pattern, s: string, i: nat)
    requires i < |s| && MatchLen(p, s, i) == 0
    requires Located(s, i + 1, Scan(p, s, i + 1), MatchStarts(p, s, i + 1))
    ensures Located(s, i, Scan(p, s, i), MatchStarts(p, s, i))
  {
    StartsOnMiss(p, s, i);
    ScanOnMiss(p, s, i);
  }

  /** `s[d]` lies inside one of the slices `r` at positions `ps`. */
  predicate CoveredBy(d: nat, r: seq<string>, ps: seq<nat>) {
    exists j :: 0 <= j < |ps| && j < |r| && ps[j] <= d < ps[j] + |r[j]|
  }

  lemma CoveredCons(d: nat, m: string, r: seq<string>, i: nat, ps: seq<nat>)
    requires CoveredBy(d, r, ps) || i <= d < i + |m|
    ensures CoveredBy(d, [m] + r, [i] + ps)
  {
    if i <= d < i + |m| {
      assert ([i] + ps)[0] == i && ([m] + r)[0] == m;
    } else {
      var j :| 0 <= j < |ps| && j < |r| && ps[j] <= d < ps[j] + |r[j]|;
      assert ([i] + ps)[j + 1] == ps[j] && ([m] + r)[j + 1] == r[j];
    }
  }

  /** Every position where the pattern matches lies inside one of the matches `re.findall` returns. */
  lemma {:induction false} MatchCovered(p: Pattern, s: string, i: nat, d: nat)
    requires i <= d < |s| && MatchLen(p, s, d) > 0
    ensures CoveredBy(d, Scan(p, s, i), MatchStarts(p, s, i))
    decreases d - i
  {
    var n := MatchLen(p, s, i);
    if n > 0 {
      if i + n <= d {
        MatchCovered(p, s, i + n, d);
      }
      CoveredOnMatch(p, s, i, d);
    } else {
      MatchCovered(p, s, i + 1, d);
      CoveredOnMiss(p, s, i, d);
    }
  }

  lemma CoveredOnMatch(p: Pattern, s: string, i: nat, d: nat)
    requires i <= d < |s| && MatchLen(p, s, i) > 0
    requires var e := i + MatchLen(p, s, i); d < e || (e <= |s| && CoveredBy(d, Scan(p, s, e), MatchStarts(p, s, e)))
    ensures CoveredBy(d, Scan(p, s, i), MatchStarts(p, s, i))
  {
    var e := i + MatchLen(p, s, i);
    StartsOnMatch(p, s, i);
    ScanOnMatch(p, s, i);
    CoveredCons(d, s[i..e], Scan(p, s, e), i, MatchStarts(p, s, e));
  }

  lemma CoveredOnMiss(p: Pattern, s: string, i: nat, d: nat)
    requires i < |s| && MatchLen(p, s, i) == 0
    requires CoveredBy(d, Scan(p, s, i + 1), MatchStarts(p, s, i + 1))
    ensures CoveredBy(d, Scan(p, s, i), MatchStarts(p, s, i))
  {
    StartsOnMiss(p, s, i);
    ScanOnMiss(p, s, i);
  }

  /** Where the pattern matches nowhere, `re.sub` leaves the text as it is. */
  lemma {:induction false} SubUnchanged(p: Pattern, s: string, i: nat, repl: string)
    requires i <= |s|
    requires forall d :: i <= d < |s| ==> MatchLen(p, s, d) == 0
    ensures SubFrom(p, s, i, repl) == s[i..]
    decreases |s| - i
  {
    if i < |s| {
      SubUnchanged(p, s, i + 1, repl);
      assert s[i..] == [s[i]] + s[i + 1..];
    }
  }

  /** A text in which `re.findall` finds nothing comes out of `re.sub` unchanged. */
  lemma NothingFoundUnchanged(p: Pattern, s: string, repl: string)
    requires FindAll(p, s) == []
    ensures Sub(p, s, repl) == s
  {
    FindAllEmpty(p, s);
    SubUnchanged(p, s, 0, repl);
  }

  // ---------------------------------------------------------------------------
  // Patterns led by one character: `#\w+` and `@\w+`.

  /** The pattern `c[k]+`: one literal character, then a greedy run of class `k`. */
  function Led(c: char, k: char -> bool): Pattern {
    [Alt([c], k)]
  }

  /** `c` stands at `s[d]`, directly followed by a class-`k` character. */
  predicate LedAt(s: string, d: nat, c: char, k: char -> bool) {
    d + 1 < |s| && s[d] == c && k(s[d + 1])
  }

  /** `c[k]+` matches exactly where `c` is followed by a class character, and takes the whole run. */
  lemma LedMatchLen(s: string, i: nat, c: char, k: char -> bool)
    requires i <= |s|
    ensures MatchLen(Led(c, k), s, i) == if LedAt(s, i, c, k) then 1 + RunLen(s, i + 1, k) else 0
  {
    LitThenRunPositive(s, i, [c], k);
    StartsAtChar(s, i, c);
    assert FirstMatch(Led(c, k), 1, s, i) == 0;
  }

  /**
   * Reading `s[i..]` position by position: wherever `c` is directly followed
   * by a class-`k` character, the tag that starts there, `c` with the whole
   * run of class `k` after it.
   */
  function Tags(s: string, i: nat, c: char, k: char -> bool): seq<string>
    requires i <= |s|
    decreases |s| - i
  {
    if i == |s| then []
    else (if LedAt(s, i, c, k) then [s[i..i + 1 + RunLen(s, i + 1, k)]] else []) + Tags(s, i + 1, c, k)
  }

  /** The positions of `s[i..]` where a tag starts, in increasing order. */
  function LedPositions(s: string, i: nat, c: char, k: char -> bool): seq<nat>
    requires i <= |s|
    decreases |s| - i
  {
    if i == |s| then []
    else (if LedAt(s, i, c, k) then [i] else []) + LedPositions(s, i + 1, c, k)
  }

  /** A stretch without `c` starts no tag. */
  lemma {:induction false} TagsSkip(s: string, i: nat, j: nat, c: char, k: char -> bool)
    requires i <= j <= |s|
    requires forall x :: i <= x < j ==> s[x] != c
    ensures Tags(s, i, c, k) == Tags(s, j, c, k)
    ensures LedPositions(s, i, c, k) == LedPositions(s, j, c, k)
    decreases j - i
  {
    if i < j {
      TagsSkip(s, i + 1, j, c, k);
    }
  }

  /** When `c` is outside class `k`, the run of a tag holds no other tag, so reading resumes after it. */
  lemma TagsOnTag(s: string, i: nat, c: char, k: char -> bool)
    requires i < |s| && !k(c) && LedAt(s, i, c, k)
    ensures Tags(s, i, c, k) == [s[i..i + 1 + RunLen(s, i + 1, k)]] + Tags(s, i + 1 + RunLen(s, i + 1, k), c, k)
    ensures LedPositions(s, i, c, k) == [i] + LedPositions(s, i + 1 + RunLen(s, i + 1, k), c, k)
  {
    RunLenAllIn(s, i + 1, k);
    TagsSkip(s, i + 1, i + 1 + RunLen(s, i + 1, k), c, k);
  }

  /**
   * When `c` is outside class `k`, `re.findall` of `c[k]+` is the list of
   * tags: the scan loses none of them by skipping over an earlier match.
   */
  lemma {:induction false} ScanIsTags(s: string, i: nat, c: char, k: char -> bool)
    requires i <= |s| && !k(c)
    ensures Scan(Led(c, k), s, i) == Tags(s, i, c, k)
    decreases |s| - i
  {
    if i < |s| {
      LedMatchLen(s, i, c, k);
      if LedAt(s, i, c, k) {
        var n := 1 + RunLen(s, i + 1, k);
        ScanOnMatch(Led(c, k), s, i);
        ScanIsTags(s, i + n, c, k);
        TagsOnTag(s, i, c, k);
      } else {
        ScanOnMiss(Led(c, k), s, i);
        ScanIsTags(s, i + 1, c, k);
      }
    }
  }

  /** ... and its matches start exactly at the tag positions. */
  lemma {:induction false} StartsAreLedPositions(s: string, i: nat, c: char, k: char -> bool)
    requires i <= |s| && !k(c)
    ensures MatchStarts(Led(c, k), s, i) == LedPositions(s, i, c, k)
    decreases |s| - i
  {
    if i < |s| {
      LedMatchLen(s, i, c, k);
      if LedAt(s, i, c, k) {
        var n := 1 + RunLen(s, i + 1, k);
        StartsOnMatch(Led(c, k), s, i);
        StartsAreLedPositions(s, i + n, c, k);
        TagsOnTag(s, i, c, k);
      } else {
        StartsOnMiss(Led(c, k), s, i);
        StartsAreLedPositions(s, i + 1, c, k);
      }
    }
  }

  /** Every position where `c` is followed by a class-`k` character starts a tag. */
  lemma {:induction false} LedFound(s: string, i: nat, c: char, k: char -> bool, d: nat)
    requires i <= d < |s| && LedAt(s, d, c, k)
    ensures d in LedPositions(s, i, c, k)
    decreases d - i
  {
    if i < d {
      LedFound(s, i + 1, c, k, d);
    }
  }

  /** There are as many tags as tag positions. */
  lemma {:induction false} TagsCount(s: string, i: nat, c: char, k: char -> bool)
    requires i <= |s|
    ensures |Tags(s, i, c, k)| == |LedPositions(s, i, c, k)|
    decreases |s| - i
  {
    if i < |s| {
      TagsCount(s, i + 1, c, k);
    }
  }

  /**
   * `s[i..]` with every tag deleted, read position by position: a tag
   * starts where `c` is followed by a class-`k` character and goes on over
   * the class-`k` characters after it. `inTag` says whether the character
   * before `s[i]` was deleted as part of a tag.
   */
  function Untagged(s: string, i: nat, c: char, k: char -> bool, inTag: bool): string
    requires i <= |s|
    decreases |s| - i
  {
    if i == |s| then []
    else if (inTag && k(s[i])) || LedAt(s, i, c, k) then Untagged(s, i + 1, c, k, true)
    else [s[i]] + Untagged(s, i + 1, c, k, false)
  }

  /** Inside a tag, a run of class-`k` characters is deleted. */
  lemma {:induction false} UntaggedRun(s: string, i: nat, j: nat, c: char, k: char -> bool)
    requires i <= j <= |s|
    requires forall x :: i <= x < j ==> k(s[x])
    ensures Untagged(s, i, c, k, true) == Untagged(s, j, c, k, true)
    decreases j - i
  {
    if i < j {
      UntaggedRun(s, i + 1, j, c, k);
    }
  }

  /** Where `re.sub` of `c[k]+` deletes a match, the position-by-position deletion deletes the same characters. */
  lemma UntaggedOnTag(s: string, i: nat, c: char, k: char -> bool)
    requires i < |s| && LedAt(s, i, c, k)
    ensures var n := 1 + RunLen(s, i + 1, k);
      Untagged(s, i, c, k, false) == Untagged(s, i + n, c, k, false)
  {
    var n := 1 + RunLen(s, i + 1, k);
    RunLenAllIn(s, i + 1, k);
    RunLenMaximal(s, i + 1, k);
    UntaggedRun(s, i + 1, i + n, c, k);
  }

  /** `re.sub(c[k]+, '', s[i..])` is the position-by-position deletion of every tag. */
  lemma {:induction false} SubIsUntagged(s: string, i: nat, c: char, k: char -> bool)
    requires i <= |s|
    ensures SubFrom(Led(c, k), s, i, "") == Untagged(s, i, c, k, false)
    decreases |s| - i
  {
    if i < |s| {
      LedMatchLen(s, i, c, k);
      if LedAt(s, i, c, k) {
        SubIsUntagged(s, i + 1 + RunLen(s, i + 1, k), c, k);
        SubOnMatch(Led(c, k), s, i, "");
        UntaggedOnTag(s, i, c, k);
      } else {
        SubIsUntagged(s, i + 1, c, k);
        SubOnMiss(Led(c, k), s, i, "");
      }
    }
  }

  /** What follows a deleted tag starts with a character outside class `k`. */
  lemma {:induction false} UntaggedAfterTag(s: string, i: nat, c: char, k: char -> bool)
    requires i <= |s|
    ensures var t := Untagged(s, i, c, k, true);
      t == [] || !k(t[0])
    decreases |s| - i
  {
    if i < |s| {
      UntaggedAfterTag(s, i + 1, c, k);
    }
  }

  /** Outside a tag, the deletion starts with the character it stands on, or with one outside class `k`. */
  lemma UntaggedLead(s: string, i: nat, c: char, k: char -> bool)
    requires i < |s|
    ensures var t := Untagged(s, i, c, k, false);
      t == [] || t[0] == s[i] || !k(t[0])
  {
    UntaggedAfterTag(s, i + 1, c, k);
  }

  lemma LedAtCons(x: char, t: string, d: nat, c: char, k: char -> bool)
    requires 0 < d
    ensures LedAt([x] + t, d, c, k) == LedAt(t, d - 1, c, k)
  {
    var u := [x] + t;
    if d < |u| {
      assert u[d] == t[d - 1];
    }
    if d + 1 < |u| {
      assert u[d + 1] == t[d];
    }
  }

  /** No `c` of `t` is directly followed by a class-`k` character. */
  predicate NoTag(t: string, c: char, k: char -> bool) {
    forall d: nat :: d < |t| ==> !LedAt(t, d, c, k)
  }

  /** Deleting every tag leaves no tag behind: no `c` of the result is followed by a class-`k` character. */
  lemma {:induction false} UntaggedClean(s: string, i: nat, c: char, k: char -> bool, inTag: bool)
    requires i <= |s|
    ensures NoTag(Untagged(s, i, c, k, inTag), c, k)
    decreases |s| - i
  {
    if i < |s| {
      if (inTag && k(s[i])) || LedAt(s, i, c, k) {
        UntaggedClean(s, i + 1, c, k, true);
      } else {
        UntaggedClean(s, i + 1, c, k, false);
        if i + 1 < |s| {
          UntaggedLead(s, i + 1, c, k);
        }
        KeptClean(s, i, c, k, inTag);
      }
    }
  }

  lemma KeptClean(s: string, i: nat, c: char, k: char -> bool, inTag: bool)
    requires i < |s| && !((inTag && k(s[i])) || LedAt(s, i, c, k))
    requires NoTag(Untagged(s, i + 1, c, k, false), c, k)
    requires var t := Untagged(s, i + 1, c, k, false);
      i + 1 < |s| ==> t == [] || t[0] == s[i + 1] || !k(t[0])
    ensures NoTag(Untagged(s, i, c, k, inTag), c, k)
  {
    var rest := Untagged(s, i + 1, c, k, false);
    var t := [s[i]] + rest;
    assert Untagged(s, i, c, k, inTag) == t;
    forall d: nat | d < |t| ensures !LedAt(t, d, c, k) {
      if d > 0 {
        LedAtCons(s[i], rest, d, c, k);
      }
    }
  }

  // ---------------------------------------------------------------------------
  // URLs: `http\S+|www\S+`, and the cleaner's `http\S+|www\S+|https\S+`.

  /** A stretch of class characters adds its length to the run that follows it. */
  lemma {:induction false} RunLenOver(s: string, i: nat, j: nat, k: char -> bool)
    requires i <= j <= |s|
    requires forall x :: i <= x < j ==> k(s[x])
    ensures RunLen(s, i, k) == j - i + RunLen(s, j, k)
    decreases j - i
  {
    if i < j {
      RunLenOver(s, i + 1, j, k);
    }
  }

  /** A URL start is not whitespace, and neither are the three characters after it. */
  lemma UrlStartNonSpace(s: string, d: nat)
    ensures UrlAt(s, d) ==> d + 3 < |s| && forall x :: d <= x <= d + 3 ==> IsNonSpace(s[x])
  {
    if d + 4 < |s| && s[d..d + 4] == "http" {
      forall x | d <= x < d + 4 ensures IsNonSpace(s[x]) {
        assert s[x] == s[d..d + 4][x - d];
      }
    }
    if d + 3 < |s| && s[d..d + 3] == "www" {
      forall x | d <= x < d + 3 ensures IsNonSpace(s[x]) {
        assert s[x] == s[d..d + 3][x - d];
      }
    }
  }

  /** `http\S+|www\S+` matches exactly at a URL start, and takes the whole word from there on. */
  lemma UrlMatchLen(s: string, i: nat)
    requires i <= |s|
    ensures MatchLen(Url, s, i) == if UrlAt(s, i) then RunLen(s, i, IsNonSpace) else 0
  {
    UrlMatch(s, i);
    var v := Url;
    assert v[0] == Alt("http", IsNonSpace) && v[1] == Alt("www", IsNonSpace);
    LitThenRunPositive(s, i, "http", IsNonSpace);
    LitThenRunPositive(s, i, "www", IsNonSpace);
    var http := LitThenRun(s, i, "http", IsNonSpace);
    var www := LitThenRun(s, i, "www", IsNonSpace);
    assert FirstMatch(v, 2, s, i) == 0;
    assert FirstMatch(v, 1, s, i) == www;
    assert FirstMatch(v, 0, s, i) == if http > 0 then http else www;
    UrlStartNonSpace(s, i);
    if UrlAt(s, i) {
      if http > 0 {
        RunLenOver(s, i, i + 4, IsNonSpace);
      } else {
        RunLenOver(s, i, i + 3, IsNonSpace);
      }
    }
  }

  /**
   * `p` matches at `s[d]` exactly where `at` holds, which is only on a
   * class-`k` character, and then takes the whole class-`k` run from there.
   */
  predicate TakesRunAt(p: Pattern, s: string, at: (string, nat) -> bool, k: char -> bool) {
    forall d :: 0 <= d <= |s| ==> TakesRun(p, s, at, k, d)
  }

  /** ... at the one position `d`. */
  predicate TakesRun(p: Pattern, s: string, at: (string, nat) -> bool, k: char -> bool, d: nat) {
    && d <= |s|
    && (at(s, d) ==> d < |s| && k(s[d]))
    && MatchLen(p, s, d) == if at(s, d) then RunLen(s, d, k) else 0
  }

  /** Both URL patterns match at URL starts and take the rest of the word. */
  lemma UrlTakesRun(s: string)
    ensures TakesRunAt(Url, s, UrlAt, IsNonSpace)
    ensures TakesRunAt(UrlForCleaning, s, UrlAt, IsNonSpace)
  {
    forall d | 0 <= d <= |s|
      ensures TakesRun(Url, s, UrlAt, IsNonSpace, d) && TakesRun(UrlForCleaning, s, UrlAt, IsNonSpace, d)
    {
      UrlStartNonSpace(s, d);
      UrlMatchLen(s, d);
      UrlAlternativeRedundant(s, d);
    }
  }

  /**
   * Reading `s[i..]` word by word, a word being a maximal run of class `k`:
   * from the first position of each word where `at` holds, the rest of that
   * word. `seen` says that the current word already had such a position.
   */
  function RunTails(s: string, i: nat, seen: bool, at: (string, nat) -> bool, k: char -> bool): seq<string>
    requires i <= |s|
    decreases |s| - i
  {
    if i == |s| then []
    else if !k(s[i]) then RunTails(s, i + 1, false, at, k)
    else if !seen && at(s, i) then [s[i..i + RunLen(s, i, k)]] + RunTails(s, i + 1, true, at, k)
    else RunTails(s, i + 1, seen, at, k)
  }

  /** The rest of a word whose tail was taken adds nothing. */
  lemma {:induction false} TailsInWord(s: string, i: nat, j: nat, at: (string, nat) -> bool, k: char -> bool)
    requires i <= j <= |s|
    requires forall x :: i <= x < j ==> k(s[x])
    ensures RunTails(s, i, true, at, k) == RunTails(s, j, true, at, k)
    decreases j - i
  {
    if i < j {
      TailsInWord(s, i + 1, j, at, k);
    }
  }

  lemma TailsOnStart(s: string, i: nat, at: (string, nat) -> bool, k: char -> bool)
    requires i < |s| && at(s, i) && k(s[i])
    ensures RunTails(s, i, false, at, k) == [s[i..i + RunLen(s, i, k)]] + RunTails(s, i + RunLen(s, i, k), false, at, k)
  {
    var n := RunLen(s, i, k);
    RunLenAllIn(s, i, k);
    RunLenMaximal(s, i, k);
    TailsInWord(s, i + 1, i + n, at, k);
    assert RunTails(s, i + n, true, at, k) == RunTails(s, i + n, false, at, k);
  }

  /** A pattern that takes the rest of the word wherever `at` holds finds the tail of each word. */
  lemma {:induction false} ScanIsRunTails(p: Pattern, s: string, i: nat, at: (string, nat) -> bool, k: char -> bool)
    requires i <= |s| && TakesRunAt(p, s, at, k)
    ensures Scan(p, s, i) == RunTails(s, i, false, at, k)
    decreases |s| - i
  {
    if i < |s| {
      assert TakesRun(p, s, at, k, i);
      assert at(s, i) ==> RunLen(s, i, k) > 0;
      if at(s, i) {
        ScanIsRunTails(p, s, i + RunLen(s, i, k), at, k);
        TailsOnMatch(p, s, i, at, k);
      } else {
        ScanIsRunTails(p, s, i + 1, at, k);
        TailsOnMiss(p, s, i, at, k);
      }
    }
  }

  lemma TailsOnMatch(p: Pattern, s: string, i: nat, at: (string, nat) -> bool, k: char -> bool)
    requires i < |s| && TakesRun(p, s, at, k, i) && at(s, i)
    requires var e := i + RunLen(s, i, k); Scan(p, s, e) == RunTails(s, e, false, at, k)
    ensures Scan(p, s, i) == RunTails(s, i, false, at, k)
  {
    assert k(s[i]) && MatchLen(p, s, i) == RunLen(s, i, k);
    ScanOnMatch(p, s, i);
    TailsOnStart(s, i, at, k);
  }

  lemma TailsOnMiss(p: Pattern, s: string, i: nat, at: (string, nat) -> bool, k: char -> bool)
    requires i < |s| && TakesRun(p, s, at, k, i) && !at(s, i)
    requires Scan(p, s, i + 1) == RunTails(s, i + 1, false, at, k)
    ensures Scan(p, s, i) == RunTails(s, i, false, at, k)
  {
    assert MatchLen(p, s, i) == 0;
    ScanOnMiss(p, s, i);
  }

  /**
   * `s[i..]` with, in each word, everything from its first position where
   * `at` holds to the end of the word removed; characters outside class `k`
   * are always kept.
   */
  function RunCut(s: string, i: nat, seen: bool, at: (string, nat) -> bool, k: char -> bool): string
    requires i <= |s|
    decreases |s| - i
  {
    if i == |s| then []
    else if !k(s[i]) then [s[i]] + RunCut(s, i + 1, false, at, k)
    else if seen || at(s, i) then RunCut(s, i + 1, true, at, k)
    else [s[i]] + RunCut(s, i + 1, false, at, k)
  }

  lemma {:induction false} CutInWord(s: string, i: nat, j: nat, at: (string, nat) -> bool, k: char -> bool)
    requires i <= j <= |s|
    requires forall x :: i <= x < j ==> k(s[x])
    ensures RunCut(s, i, true, at, k) == RunCut(s, j, true, at, k)
    decreases j - i
  {
    if i < j {
      CutInWord(s, i + 1, j, at, k);
    }
  }

  lemma CutOnStart(s: string, i: nat, at: (string, nat) -> bool, k: char -> bool)
    requires i < |s| && at(s, i) && k(s[i])
    ensures RunCut(s, i, false, at, k) == RunCut(s, i + RunLen(s, i, k), false, at, k)
  {
    var n := RunLen(s, i, k);
    RunLenAllIn(s, i, k);
    RunLenMaximal(s, i, k);
    CutInWord(s, i + 1, i + n, at, k);
    assert RunCut(s, i + n, true, at, k) == RunCut(s, i + n, false, at, k);
  }

  /** Deleting the matches of such a pattern cuts each word at its first position where `at` holds. */
  lemma {:induction false} SubIsRunCut(p: Pattern, s: string, i: nat, at: (string, nat) -> bool, k: char -> bool)
    requires i <= |s| && TakesRunAt(p, s, at, k)
    ensures SubFrom(p, s, i, "") == RunCut(s, i, false, at, k)
    decreases |s| - i
  {
    if i < |s| {
      assert TakesRun(p, s, at, k, i);
      assert at(s, i) ==> RunLen(s, i, k) > 0;
      if at(s, i) {
        SubIsRunCut(p, s, i + RunLen(s, i, k), at, k);
        CutOnMatch(p, s, i, at, k);
      } else {
        SubIsRunCut(p, s, i + 1, at, k);
        CutOnMiss(p, s, i, at, k);
      }
    }
  }

  lemma CutOnMatch(p: Pattern, s: string, i: nat, at: (string, nat) -> bool, k: char -> bool)
    requires i < |s| && TakesRun(p, s, at, k, i) && at(s, i)
    requires var e := i + RunLen(s, i, k); SubFrom(p, s, e, "") == RunCut(s, e, false, at, k)
    ensures SubFrom(p, s, i, "") == RunCut(s, i, false, at, k)
  {
    assert k(s[i]) && MatchLen(p, s, i) == RunLen(s, i, k);
    SubOnMatch(p, s, i, "");
    CutOnStart(s, i, at, k);
  }

  lemma CutOnMiss(p: Pattern, s: string, i: nat, at: (string, nat) -> bool, k: char -> bool)
    requires i < |s| && TakesRun(p, s, at, k, i) && !at(s, i)
    requires SubFrom(p, s, i + 1, "") == RunCut(s, i + 1, false, at, k)
    ensures SubFrom(p, s, i, "") == RunCut(s, i, false, at, k)
  {
    assert MatchLen(p, s, i) == 0;
    SubOnMiss(p, s, i, "");
  }

  /** In each word, from its first URL start to the end of the word. */
  function UrlTails(s: string): seq<string> {
    RunTails(s, 0, false, UrlAt, IsNonSpace)
  }

  /** Every word cut at its first URL start; whitespace kept. */
  function UrlCut(s: string, i: nat, seen: bool): string
    requires i <= |s|
  {
    RunCut(s, i, seen, UrlAt, IsNonSpace)
  }

  /** `re.findall(r'http\S+|www\S+', s)` takes, in each word, everything from its first URL start on. */
  lemma ScanIsUrlTails(s: string)
    ensures FindAll(Url, s) == UrlTails(s)
  {
    UrlTakesRun(s);
    ScanIsRunTails(Url, s, 0, UrlAt, IsNonSpace);
  }

  /** `re.sub(r'http\S+|www\S+|https\S+', '', s)` cuts each word at its first URL start. */
  lemma SubIsUrlCut(s: string)
    ensures Sub(UrlForCleaning, s, "") == UrlCut(s, 0, false)
  {
    UrlTakesRun(s);
    SubIsRunCut(UrlForCleaning, s, 0, UrlAt, IsNonSpace);
  }

  /** After a cut URL, what is left of the word is nothing: the text ends or goes on with whitespace. */
  lemma {:induction false} CutSeenLead(s: string, i: nat)
    requires i <= |s|
    ensures var t := UrlCut(s, i, true); t == [] || IsSpace(t[0])
    decreases |s| - i
  {
    if i < |s| && !IsSpace(s[i]) {
      CutSeenLead(s, i + 1);
    }
  }

  /** The leading run of class `k` in `t` is copied from `s[i..]`. */
  predicate CopiesLead(t: string, s: string, i: nat, k: char -> bool) {
    i + RunLen(t, 0, k) <= |s| && t[..RunLen(t, 0, k)] == s[i..i + RunLen(t, 0, k)]
  }

  /** The first word of what is kept from `s[i..]` is copied from `s[i..]`. */
  lemma {:induction false} CutLead(s: string, i: nat)
    requires i <= |s|
    ensures CopiesLead(UrlCut(s, i, false), s, i, IsNonSpace)
    decreases |s| - i
  {
    var t := UrlCut(s, i, false);
    if i == |s| {
      assert RunLen(t, 0, IsNonSpace) == 0;
    } else {
      if IsSpace(s[i]) {
        assert RunLen(t, 0, IsNonSpace) == 0;
      } else if UrlAt(s, i) {
        CutSeenLead(s, i + 1);
        assert RunLen(t, 0, IsNonSpace) == 0;
      } else {
        CutLead(s, i + 1);
        KeptLead(s, i);
      }
    }
  }

  lemma KeptLead(s: string, i: nat)
    requires i < |s| && !IsSpace(s[i]) && !UrlAt(s, i)
    requires CopiesLead(UrlCut(s, i + 1, false), s, i + 1, IsNonSpace)
    ensures CopiesLead(UrlCut(s, i, false), s, i, IsNonSpace)
  {
    var rest := UrlCut(s, i + 1, false);
    assert UrlCut(s, i, false) == [s[i]] + rest;
    CopiesCons(s, i, rest, IsNonSpace);
  }

  lemma CopiesCons(s: string, i: nat, rest: string, k: char -> bool)
    requires i < |s| && k(s[i]) && CopiesLead(rest, s, i + 1, k)
    ensures CopiesLead([s[i]] + rest, s, i, k)
  {
    var t := [s[i]] + rest;
    var m := RunLen(rest, 0, k);
    assert Holds(t, rest, 1, 0);
    RunLenShift(t, rest, 1, 0, k);
    assert RunLen(t, 0, k) == 1 + m;
    assert t[..1 + m] == [s[i]] + rest[..m];
    assert s[i..i + 1 + m] == [s[i]] + s[i + 1..i + 1 + m];
  }

  /** A URL start at the head of `t` is one in `s[i..]` when `t` copies the first word of `s[i..]`. */
  lemma UrlAtCopied(t: string, s: string, i: nat)
    requires CopiesLead(t, s, i, IsNonSpace)
    ensures UrlAt(t, 0) ==> UrlAt(s, i)
  {
    UrlStartNonSpace(t, 0);
    var m := RunLen(t, 0, IsNonSpace);
    if 4 < |t| && t[0..4] == "http" && IsNonSpace(t[4]) {
      RunLenOver(t, 0, 5, IsNonSpace);
      assert s[i..i + 4] == t[..m][0..4];
      assert s[i + 4] == t[..m][4];
    }
    if 3 < |t| && t[0..3] == "www" && IsNonSpace(t[3]) {
      RunLenOver(t, 0, 4, IsNonSpace);
      assert s[i..i + 3] == t[..m][0..3];
      assert s[i + 3] == t[..m][3];
    }
  }

  lemma UrlAtCons(x: char, t: string, d: nat)
    requires 0 < d
    ensures UrlAt([x] + t, d) == UrlAt(t, d - 1)
  {
    var u := [x] + t;
    if d + 4 <= |u| {
      assert u[d..d + 4] == t[d - 1..d + 3];
    }
    if d + 3 <= |u| {
      assert u[d..d + 3] == t[d - 1..d + 2];
    }
    if d + 4 < |u| {
      assert u[d + 4] == t[d + 3];
    }
    if d + 3 < |u| {
      assert u[d + 3] == t[d + 2];
    }
  }

  /** No `http` or `www` of `t` is followed by a non-whitespace character. */
  predicate NoUrl(t: string) {
    forall d: nat :: d < |t| ==> !UrlAt(t, d)
  }

  /** Cutting every URL leaves no URL behind. */
  lemma {:induction false} UrlCutClean(s: string, i: nat, seen: bool)
    requires i <= |s|
    ensures NoUrl(UrlCut(s, i, seen))
    decreases |s| - i
  {
    if i < |s| {
      if !IsSpace(s[i]) && (seen || UrlAt(s, i)) {
        UrlCutClean(s, i + 1, true);
      } else {
        UrlCutClean(s, i + 1, false);
        CutLead(s, i);
        KeptUrlClean(s, i, seen);
      }
    }
  }

  lemma KeptUrlClean(s: string, i: nat, seen: bool)
    requires i < |s| && (IsSpace(s[i]) || !(seen || UrlAt(s, i)))
    requires NoUrl(UrlCut(s, i + 1, false))
    requires CopiesLead(UrlCut(s, i, false), s, i, IsNonSpace)
    ensures NoUrl(UrlCut(s, i, seen))
  {
    var rest := UrlCut(s, i + 1, false);
    var t := [s[i]] + rest;
    assert UrlCut(s, i, seen) == t && UrlCut(s, i, false) == t;
    UrlStartNonSpace(t, 0);
    UrlAtCopied(t, s, i);
    forall d: nat | d < |t| ensures !UrlAt(t, d) {
      if d > 0 {
        UrlAtCons(s[i], rest, d);
      }
    }
  }
}
