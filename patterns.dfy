/**
 * The handful of regular expressions the text pipeline uses, and Python's
 * `re.findall` / `re.sub` over them.
 *
 * None of the patterns can match the empty string, so both operations scan
 * left to right: at each position they try the pattern; on a match they take
 * it (every quantifier is a greedy `+` over one character class, so the match
 * is the longest) and resume after it, otherwise they move one character on.
 * A character class is passed around as its membership predicate.
 */
module Patterns {
  import opened Chars

  /** One alternative of a pattern: a literal, then one or more characters of a class. */
  datatype Alt = Alt(lit: string, cls: char -> bool)

  /**
   * Every pattern the pipeline uses is an alternation of literal-led class
   * runs, tried left to right.
   */
  type Pattern = seq<Alt>

  const Hashtag: Pattern := [Alt("#", IsWordChar)]                     // #\w+
  const Mention: Pattern := [Alt("@", IsWordChar)]                     // @\w+
  const Url: Pattern := [Alt("http", IsNonSpace), Alt("www", IsNonSpace)]  // http\S+|www\S+
  const UrlForCleaning: Pattern :=                                     // http\S+|www\S+|https\S+
    [Alt("http", IsNonSpace), Alt("www", IsNonSpace), Alt("https", IsNonSpace)]
  const Whitespace: Pattern := [Alt("", IsSpace)]                      // \s+
  const Token: Pattern := [Alt("", IsNonSpace)]                        // \S+ : what str.split() returns
  const EmojiRun: Pattern := [Alt("", IsEmoji)]                        // [<emoji ranges>]+

  /** A pattern that is a single character class under `+`. */
  predicate IsRun(p: Pattern) {
    |p| == 1 && p[0].lit == ""
  }

  /** Every character of `m` from index `from` on is in class `k`. */
  predicate AllIn(m: string, from: nat, k: char -> bool) {
    forall j :: from <= j < |m| ==> k(m[j])
  }

  /** `m` is the literal `lit` followed by one or more class-`k` characters. */
  predicate LitThenClass(m: string, lit: string, k: char -> bool) {
    |m| > |lit| && m[..|lit|] == lit && AllIn(m, |lit|, k)
  }

  /** The strings pattern `p` matches as a whole. */
  predicate InLanguage(p: Pattern, m: string) {
    exists j :: 0 <= j < |p| && LitThenClass(m, p[j].lit, p[j].cls)
  }

  /** Length of the longest run of class-`k` characters starting at `s[i]`. */
  function RunLen(s: string, i: nat, k: char -> bool): (n: nat)
    requires i <= |s|
    ensures i + n <= |s|
    decreases |s| - i
  {
    if i < |s| && k(s[i]) then 1 + RunLen(s, i + 1, k) else 0
  }

  /** The run is made of class-`k` characters. */
  lemma {:induction false} RunLenAllIn(s: string, i: nat, k: char -> bool)
    requires i <= |s|
    ensures forall j :: i <= j < i + RunLen(s, i, k) ==> k(s[j])
    decreases |s| - i
  {
    if i < |s| && k(s[i]) {
      RunLenAllIn(s, i + 1, k);
    }
  }

  /** The run is maximal: it ends at the end of `s` or before a character outside the class. */
  lemma {:induction false} RunLenMaximal(s: string, i: nat, k: char -> bool)
    requires i <= |s|
    ensures i + RunLen(s, i, k) == |s| || !k(s[i + RunLen(s, i, k)])
    decreases |s| - i
  {
    if i < |s| && k(s[i]) {
      RunLenMaximal(s, i + 1, k);
    }
  }

  /** The run found at `s[i]` is a string of class-`k` characters. */
  lemma RunAllIn(s: string, i: nat, k: char -> bool)
    requires i <= |s|
    ensures AllIn(s[i..i + RunLen(s, i, k)], 0, k)
  {
    var n := RunLen(s, i, k);
    var m := s[i..i + n];
    RunLenAllIn(s, i, k);
    forall j | 0 <= j < n ensures k(m[j]) {
      assert m[j] == s[i + j];
    }
  }

  predicate StartsAt(s: string, i: nat, lit: string) {
    i + |lit| <= |s| && s[i..i + |lit|] == lit
  }

  /** What `lit` followed by a greedy `[k]+` consumes at `s[i]`; 0 for no match. */
  function LitThenRun(s: string, i: nat, lit: string, k: char -> bool): (n: nat)
    requires i <= |s|
    ensures i + n <= |s|
  {
    if StartsAt(s, i, lit) && RunLen(s, i + |lit|, k) > 0 then |lit| + RunLen(s, i + |lit|, k) else 0
  }

  /** A literal-led match is the literal followed by class characters only. */
  lemma LitThenRunMatches(s: string, i: nat, lit: string, k: char -> bool)
    requires i <= |s| && LitThenRun(s, i, lit, k) > 0
    ensures StartsAt(s, i, lit)
    ensures LitThenClass(s[i..i + LitThenRun(s, i, lit, k)], lit, k)
  {
    var n := LitThenRun(s, i, lit, k);
    var m := s[i..i + n];
    RunLenAllIn(s, i + |lit|, k);
    assert m[..|lit|] == s[i..i + |lit|];
    forall j | |lit| <= j < n ensures k(m[j]) {
      assert m[j] == s[i + j];
    }
  }

  /** Tries `alts[from..]` in order: the first alternative that matches at `s[i]` decides; 0 when none does. */
  function FirstMatch(alts: seq<Alt>, from: nat, s: string, i: nat): (n: nat)
    requires i <= |s|
    ensures i + n <= |s|
    decreases |alts| - from
  {
    if from >= |alts| then 0
    else
      var n := LitThenRun(s, i, alts[from].lit, alts[from].cls);
      if n > 0 then n else FirstMatch(alts, from + 1, s, i)
  }

  /** A match found among the alternatives is a whole match of one of them. */
  lemma {:induction false} FirstMatchMatches(alts: seq<Alt>, from: nat, s: string, i: nat)
    requires i <= |s| && FirstMatch(alts, from, s, i) > 0
    ensures exists j :: from <= j < |alts| && LitThenClass(s[i..i + FirstMatch(alts, from, s, i)], alts[j].lit, alts[j].cls)
    decreases |alts| - from
  {
    var n := LitThenRun(s, i, alts[from].lit, alts[from].cls);
    if n > 0 {
      LitThenRunMatches(s, i, alts[from].lit, alts[from].cls);
    } else {
      FirstMatchMatches(alts, from + 1, s, i);
    }
  }

  /** Length of the match of `p` at `s[i]`; 0 for none. */
  function MatchLen(p: Pattern, s: string, i: nat): (n: nat)
    requires i <= |s|
    ensures i + n <= |s|
  {
    FirstMatch(p, 0, s, i)
  }

  /** What the pattern consumes is a string the pattern matches as a whole. */
  lemma MatchInLanguage(p: Pattern, s: string, i: nat)
    requires i <= |s| && MatchLen(p, s, i) > 0
    ensures InLanguage(p, s[i..i + MatchLen(p, s, i)])
  {
    FirstMatchMatches(p, 0, s, i);
  }

  /** A single-class pattern matches exactly the maximal run of its class. */
  lemma MatchLenRun(p: Pattern, s: string, i: nat)
    requires IsRun(p) && i <= |s|
    ensures MatchLen(p, s, i) == RunLen(s, i, p[0].cls)
  {
    assert StartsAt(s, i, p[0].lit);
    assert FirstMatch(p, 1, s, i) == 0;
  }

  /** Sum of the lengths of the strings in `ms`. */
  function TotalLength(ms: seq<string>): nat {
    if ms == [] then 0 else |ms[0]| + TotalLength(ms[1..])
  }

  lemma TotalLengthCons(m: string, rest: seq<string>)
    ensures TotalLength([m] + rest) == |m| + TotalLength(rest)
  {
    assert ([m] + rest)[1..] == rest;
  }

  /** `re.findall(p, s[i..])`. */
  function Scan(p: Pattern, s: string, i: nat): (r: seq<string>)
    requires i <= |s|
    decreases |s| - i
  {
    if i == |s| then []
    else
      var n := MatchLen(p, s, i);
      if n > 0 then [s[i..i + n]] + Scan(p, s, i + n) else Scan(p, s, i + 1)
  }

  /** The `d`-th string `re.findall` returns is a match of the pattern. */
  lemma {:induction false} ScanElementInLanguage(p: Pattern, s: string, i: nat, d: nat)
    requires i <= |s| && d < |Scan(p, s, i)|
    ensures InLanguage(p, Scan(p, s, i)[d])
    decreases |s| - i
  {
    var n := MatchLen(p, s, i);
    if n > 0 {
      var rest := Scan(p, s, i + n);
      var r := [s[i..i + n]] + rest;
      assert Scan(p, s, i) == r;
      if d == 0 {
        assert r[0] == s[i..i + n];
        MatchInLanguage(p, s, i);
      } else {
        assert r[d] == rest[d - 1];
        ScanElementInLanguage(p, s, i + n, d - 1);
      }
    } else {
      assert Scan(p, s, i) == Scan(p, s, i + 1);
      ScanElementInLanguage(p, s, i + 1, d);
    }
  }

  /** Every string `re.findall` returns is a match of the pattern. */
  lemma ScanInLanguage(p: Pattern, s: string, i: nat)
    requires i <= |s|
    ensures forall d :: 0 <= d < |Scan(p, s, i)| ==> InLanguage(p, Scan(p, s, i)[d])
  {
    forall d | 0 <= d < |Scan(p, s, i)| ensures InLanguage(p, Scan(p, s, i)[d]) {
      ScanElementInLanguage(p, s, i, d);
    }
  }

  /** At a match, `re.findall` takes it and resumes after it. */
  lemma ScanOnMatch(p: Pattern, s: string, i: nat)
    requires i < |s| && MatchLen(p, s, i) > 0
    ensures Scan(p, s, i) == [s[i..i + MatchLen(p, s, i)]] + Scan(p, s, i + MatchLen(p, s, i))
  {
  }

  /** Elsewhere it moves one character on. */
  lemma ScanOnMiss(p: Pattern, s: string, i: nat)
    requires i < |s| && MatchLen(p, s, i) == 0
    ensures Scan(p, s, i) == Scan(p, s, i + 1)
  {
  }

  /** `re.findall(p, s)`: the non-overlapping matches, left to right. */
  function FindAll(p: Pattern, s: string): seq<string> {
    Scan(p, s, 0)
  }

  /** Strings of `n` characters or more fill at least `n` times their number. */
  lemma {:induction false} TotalLengthAtLeast(r: seq<string>, n: nat)
    requires forall d :: 0 <= d < |r| ==> |r[d]| >= n
    ensures n * |r| <= TotalLength(r)
  {
    if r != [] {
      assert forall d :: 0 <= d < |r[1..]| ==> r[1..][d] == r[d + 1];
      TotalLengthAtLeast(r[1..], n);
    }
  }

  /**
   * When every alternative's literal is at least `n - 1` characters long,
   * every match has `n` characters or more, so `re.findall` returns at most
   * `|s| / n` of them.
   */
  lemma FindAllBound(p: Pattern, s: string, n: nat)
    requires forall j :: 0 <= j < |p| ==> |p[j].lit| + 1 >= n
    ensures n * |FindAll(p, s)| <= TotalLength(FindAll(p, s)) <= |s|
  {
    var r := FindAll(p, s);
    ScanInLanguage(p, s, 0);
    DeletedLength(p, s, 0);
    forall d | 0 <= d < |r| ensures |r[d]| >= n {
      var j :| 0 <= j < |p| && LitThenClass(r[d], p[j].lit, p[j].cls);
    }
    TotalLengthAtLeast(r, n);
  }

  /** A single-class pattern finds something as soon as one character of its class occurs. */
  lemma {:induction false} ScanFindsRun(p: Pattern, s: string, i: nat, d: nat)
    requires IsRun(p) && i <= d < |s| && p[0].cls(s[d])
    ensures |Scan(p, s, i)| > 0
    decreases |s| - i
  {
    MatchLenRun(p, s, i);
    if MatchLen(p, s, i) > 0 {
      ScanOnMatch(p, s, i);
    } else {
      ScanOnMiss(p, s, i);
      ScanFindsRun(p, s, i + 1, d);
    }
  }

  /** Without a character of its class, a single-class pattern finds nothing. */
  lemma {:induction false} ScanEmptyWithoutRun(p: Pattern, s: string, i: nat)
    requires IsRun(p) && i <= |s|
    requires forall d :: i <= d < |s| ==> !p[0].cls(s[d])
    ensures Scan(p, s, i) == []
    decreases |s| - i
  {
    if i < |s| {
      MatchLenRun(p, s, i);
      ScanOnMiss(p, s, i);
      ScanEmptyWithoutRun(p, s, i + 1);
    }
  }

  /** `re.findall` of a single-class pattern is empty exactly when no character of the class occurs. */
  lemma FindAllRunEmpty(p: Pattern, s: string)
    requires IsRun(p)
    ensures FindAll(p, s) == [] <==> forall d :: 0 <= d < |s| ==> !p[0].cls(s[d])
  {
    if forall d :: 0 <= d < |s| ==> !p[0].cls(s[d]) {
      ScanEmptyWithoutRun(p, s, 0);
    } else {
      var d :| 0 <= d < |s| && p[0].cls(s[d]);
      ScanFindsRun(p, s, 0, d);
    }
  }

  /** `re.findall` finds something as soon as the pattern matches at some position from `i` on. */
  lemma {:induction false} ScanFinds(p: Pattern, s: string, i: nat, d: nat)
    requires i <= d < |s| && MatchLen(p, s, d) > 0
    ensures |Scan(p, s, i)| > 0
    decreases d - i
  {
    if MatchLen(p, s, i) > 0 {
      ScanOnMatch(p, s, i);
    } else {
      ScanFinds(p, s, i + 1, d);
      FindsOnMiss(p, s, i);
    }
  }

  lemma FindsOnMiss(p: Pattern, s: string, i: nat)
    requires i < |s| && MatchLen(p, s, i) == 0 && |Scan(p, s, i + 1)| > 0
    ensures |Scan(p, s, i)| > 0
  {
    ScanOnMiss(p, s, i);
  }

  /** Where the pattern matches nowhere from `i` on, `re.findall` finds nothing. */
  lemma {:induction false} ScanEmpty(p: Pattern, s: string, i: nat)
    requires i <= |s|
    requires forall d :: i <= d < |s| ==> MatchLen(p, s, d) == 0
    ensures Scan(p, s, i) == []
    decreases |s| - i
  {
    if i < |s| {
      ScanOnMiss(p, s, i);
      ScanEmpty(p, s, i + 1);
    }
  }

  /** `re.findall` returns nothing exactly when the pattern matches at no position. */
  lemma FindAllEmpty(p: Pattern, s: string)
    ensures FindAll(p, s) == [] <==> forall d :: 0 <= d < |s| ==> MatchLen(p, s, d) == 0
  {
    if forall d :: 0 <= d < |s| ==> MatchLen(p, s, d) == 0 {
      ScanEmpty(p, s, 0);
    } else {
      var d :| 0 <= d < |s| && MatchLen(p, s, d) > 0;
      ScanFinds(p, s, 0, d);
    }
  }

  /** A literal-led alternative matches exactly where its literal is followed by a class character. */
  lemma LitThenRunPositive(s: string, i: nat, lit: string, k: char -> bool)
    requires i <= |s|
    ensures LitThenRun(s, i, lit, k) > 0 <==> StartsAt(s, i, lit) && i + |lit| < |s| && k(s[i + |lit|])
  {
  }

  /** `#\w+` matches at `s[d]`: a `#` directly followed by a word character. */
  predicate HashtagAt(s: string, d: nat) {
    d + 1 < |s| && s[d] == '#' && IsWordChar(s[d + 1])
  }

  /** `@\w+` matches at `s[d]`: an `@` directly followed by a word character. */
  predicate MentionAt(s: string, d: nat) {
    d + 1 < |s| && s[d] == '@' && IsWordChar(s[d + 1])
  }

  /** `http\S+|www\S+` matches at `s[d]`: `http` or `www` directly followed by a non-whitespace character. */
  predicate UrlAt(s: string, d: nat) {
    || (d + 4 < |s| && s[d..d + 4] == "http" && IsNonSpace(s[d + 4]))
    || (d + 3 < |s| && s[d..d + 3] == "www" && IsNonSpace(s[d + 3]))
  }

  /** A one-character literal starts at `s[d]` exactly when `s[d]` is that character. */
  lemma StartsAtChar(s: string, d: nat, c: char)
    requires d <= |s|
    ensures StartsAt(s, d, [c]) <==> d < |s| && s[d] == c
  {
    if d < |s| {
      assert s[d..d + 1] == [s[d]];
    }
  }

  lemma HashtagMatch(s: string, d: nat)
    requires d <= |s|
    ensures MatchLen(Hashtag, s, d) > 0 <==> HashtagAt(s, d)
  {
    LitThenRunPositive(s, d, "#", IsWordChar);
    StartsAtChar(s, d, '#');
    assert FirstMatch(Hashtag, 1, s, d) == 0;
  }

  lemma MentionMatch(s: string, d: nat)
    requires d <= |s|
    ensures MatchLen(Mention, s, d) > 0 <==> MentionAt(s, d)
  {
    LitThenRunPositive(s, d, "@", IsWordChar);
    StartsAtChar(s, d, '@');
    assert FirstMatch(Mention, 1, s, d) == 0;
  }

  lemma UrlMatch(s: string, d: nat)
    requires d <= |s|
    ensures MatchLen(Url, s, d) > 0 <==> UrlAt(s, d)
  {
    LitThenRunPositive(s, d, "http", IsNonSpace);
    LitThenRunPositive(s, d, "www", IsNonSpace);
    var http := LitThenRun(s, d, "http", IsNonSpace);
    var www := LitThenRun(s, d, "www", IsNonSpace);
    var v := Url;
    assert v[0] == Alt("http", IsNonSpace) && v[1] == Alt("www", IsNonSpace);
    assert FirstMatch(v, 2, s, d) == 0;
    assert FirstMatch(v, 1, s, d) == www;
    assert FirstMatch(v, 0, s, d) == if http > 0 then http else www;
  }

  /** `re.findall(r'#\w+', s)` is empty exactly when no `#` of `s` is followed by a word character. */
  lemma FindAllHashtagsEmpty(s: string)
    ensures FindAll(Hashtag, s) == [] <==> forall d :: 0 <= d < |s| ==> !HashtagAt(s, d)
  {
    FindAllEmpty(Hashtag, s);
    forall d | 0 <= d < |s| ensures MatchLen(Hashtag, s, d) > 0 <==> HashtagAt(s, d) {
      HashtagMatch(s, d);
    }
  }

  /** `re.findall(r'@\w+', s)` is empty exactly when no `@` of `s` is followed by a word character. */
  lemma FindAllMentionsEmpty(s: string)
    ensures FindAll(Mention, s) == [] <==> forall d :: 0 <= d < |s| ==> !MentionAt(s, d)
  {
    FindAllEmpty(Mention, s);
    forall d | 0 <= d < |s| ensures MatchLen(Mention, s, d) > 0 <==> MentionAt(s, d) {
      MentionMatch(s, d);
    }
  }

  /** `re.findall(r'http\S+|www\S+', s)` is empty exactly when no `http` or `www` of `s` is followed by a non-whitespace character. */
  lemma FindAllUrlsEmpty(s: string)
    ensures FindAll(Url, s) == [] <==> forall d :: 0 <= d < |s| ==> !UrlAt(s, d)
  {
    FindAllEmpty(Url, s);
    forall d | 0 <= d < |s| ensures MatchLen(Url, s, d) > 0 <==> UrlAt(s, d) {
      UrlMatch(s, d);
    }
  }

  /** `re.sub(p, repl, s[i..])`. */
  function SubFrom(p: Pattern, s: string, i: nat, repl: string): string
    requires i <= |s|
    decreases |s| - i
  {
    if i == |s| then []
    else
      var n := MatchLen(p, s, i);
      if n > 0 then repl + SubFrom(p, s, i + n, repl) else [s[i]] + SubFrom(p, s, i + 1, repl)
  }

  /** At a match, `re.sub` writes the replacement and resumes after the match. */
  lemma SubOnMatch(p: Pattern, s: string, i: nat, repl: string)
    requires i < |s| && MatchLen(p, s, i) > 0
    ensures SubFrom(p, s, i, repl) == repl + SubFrom(p, s, i + MatchLen(p, s, i), repl)
  {
  }

  /** Elsewhere it copies one character. */
  lemma SubOnMiss(p: Pattern, s: string, i: nat, repl: string)
    requires i < |s| && MatchLen(p, s, i) == 0
    ensures SubFrom(p, s, i, repl) == [s[i]] + SubFrom(p, s, i + 1, repl)
  {
  }

  /** `re.sub(p, repl, s)`: every match replaced by `repl`. */
  function Sub(p: Pattern, s: string, repl: string): string {
    SubFrom(p, s, 0, repl)
  }

  /** The characters of `s[i..j]` outside class `k`, in order. */
  function Filtered(s: string, i: nat, j: nat, k: char -> bool): (r: string)
    requires i <= j <= |s|
    ensures |r| <= j - i
    decreases j - i
  {
    if i == j then [] else (if k(s[i]) then [] else [s[i]]) + Filtered(s, i + 1, j, k)
  }

  /** The characters of `s` outside class `k`, in order. */
  function Without(s: string, k: char -> bool): string {
    Filtered(s, 0, |s|, k)
  }

  /** No character of a filtered string is in the filtered class. */
  lemma {:induction false} FilteredExcludes(s: string, i: nat, j: nat, k: char -> bool)
    requires i <= j <= |s|
    ensures forall d :: 0 <= d < |Filtered(s, i, j, k)| ==> !k(Filtered(s, i, j, k)[d])
    decreases j - i
  {
    if i < j {
      FilteredExcludes(s, i + 1, j, k);
    }
  }

  lemma {:induction false} FilteredSplit(s: string, i: nat, m: nat, j: nat, k: char -> bool)
    requires i <= m <= j <= |s|
    ensures Filtered(s, i, j, k) == Filtered(s, i, m, k) + Filtered(s, m, j, k)
    decreases m - i
  {
    if i < m {
      FilteredSplit(s, i + 1, m, j, k);
    }
  }

  /** Equal stretches of two strings filter alike. */
  lemma {:induction false} FilteredSame(t: string, i: nat, u: string, i': nat, len: nat, k: char -> bool)
    requires i + len <= |t| && i' + len <= |u|
    requires forall d :: i <= d < i + len ==> t[d] == u[d - i + i']
    ensures Filtered(t, i, i + len, k) == Filtered(u, i', i' + len, k)
    decreases len
  {
    if len > 0 {
      assert t[i] == u[i'];
      FilteredSame(t, i + 1, u, i' + 1, len - 1, k);
    }
  }

  /** A stretch made only of class-`k` characters filters to nothing. */
  lemma {:induction false} FilteredAllIn(s: string, i: nat, j: nat, k: char -> bool)
    requires i <= j <= |s|
    requires forall d :: i <= d < j ==> k(s[d])
    ensures Filtered(s, i, j, k) == []
    decreases j - i
  {
    if i < j {
      FilteredAllIn(s, i + 1, j, k);
    }
  }

  lemma WithoutExcludes(s: string, k: char -> bool)
    ensures forall d :: 0 <= d < |Without(s, k)| ==> !k(Without(s, k)[d])
  {
    FilteredExcludes(s, 0, |s|, k);
  }

  lemma WithoutConcat(a: string, b: string, k: char -> bool)
    ensures Without(a + b, k) == Without(a, k) + Without(b, k)
  {
    var ab := a + b;
    FilteredSplit(ab, 0, |a|, |ab|, k);
    FilteredSame(ab, 0, a, 0, |a|, k);
    FilteredSame(ab, |a|, b, 0, |b|, k);
  }

  lemma WithoutSlice(s: string, i: nat, j: nat, k: char -> bool)
    requires i <= j <= |s|
    ensures Without(s[i..j], k) == Filtered(s, i, j, k)
  {
    FilteredSame(s[i..j], 0, s, i, j - i, k);
  }

  lemma WithoutAllIn(m: string, k: char -> bool)
    requires AllIn(m, 0, k)
    ensures Without(m, k) == []
  {
    FilteredAllIn(m, 0, |m|, k);
  }

  lemma WithoutNoneIn(m: string, k: char -> bool)
    requires forall d :: 0 <= d < |m| ==> !k(m[d])
    ensures Without(m, k) == m
  {
    NoneInFiltered(m, 0, k);
  }

  lemma {:induction false} NoneInFiltered(m: string, i: nat, k: char -> bool)
    requires i <= |m|
    requires forall d :: i <= d < |m| ==> !k(m[d])
    ensures Filtered(m, i, |m|, k) == m[i..]
    decreases |m| - i
  {
    if i < |m| {
      NoneInFiltered(m, i + 1, k);
      assert m[i..] == [m[i]] + m[i + 1..];
    }
  }

  lemma KeptChar(c: char, k: char -> bool)
    requires !k(c)
    ensures Without([c], k) == [c]
  {
  }

  /** `re.sub` of a single-class pattern `[k]+`, stated on the class alone. */
  function RunSub(s: string, i: nat, k: char -> bool, repl: string): string
    requires i <= |s|
    decreases |s| - i
  {
    if i == |s| then []
    else
      var n := RunLen(s, i, k);
      if n > 0 then repl + RunSub(s, i + n, k, repl) else [s[i]] + RunSub(s, i + 1, k, repl)
  }

  /** At a run, the replacement is written and the scan resumes after the run. */
  lemma RunSubOnRun(s: string, i: nat, k: char -> bool, repl: string)
    requires i < |s| && RunLen(s, i, k) > 0
    ensures RunSub(s, i, k, repl) == repl + RunSub(s, i + RunLen(s, i, k), k, repl)
  {
  }

  /** Elsewhere the character is copied; it is outside the class. */
  lemma RunSubOnOther(s: string, i: nat, k: char -> bool, repl: string)
    requires i < |s| && RunLen(s, i, k) == 0
    ensures RunSub(s, i, k, repl) == [s[i]] + RunSub(s, i + 1, k, repl)
    ensures !k(s[i])
  {
  }

  /** A stretch outside the class is copied as it is. */
  lemma {:induction false} RunSubCopies(s: string, i: nat, j: nat, k: char -> bool, repl: string)
    requires i <= j <= |s|
    requires forall d :: i <= d < j ==> !k(s[d])
    ensures RunSub(s, i, k, repl) == s[i..j] + RunSub(s, j, k, repl)
    decreases j - i
  {
    if i < j {
      RunSubCopies(s, i + 1, j, k, repl);
      CopiesStep(s, i, j, k, repl);
    }
  }

  lemma CopiesStep(s: string, i: nat, j: nat, k: char -> bool, repl: string)
    requires i < j <= |s| && !k(s[i])
    requires RunSub(s, i + 1, k, repl) == s[i + 1..j] + RunSub(s, j, k, repl)
    ensures RunSub(s, i, k, repl) == s[i..j] + RunSub(s, j, k, repl)
  {
    RunSubOnOther(s, i, k, repl);
    assert s[i..j] == [s[i]] + s[i + 1..j];
  }

  /** A run of class `k` contributes nothing to the filtered string. */
  lemma FilteredSkipsRun(s: string, i: nat, k: char -> bool)
    requires i <= |s|
    ensures Filtered(s, i, |s|, k) == Filtered(s, i + RunLen(s, i, k), |s|, k)
  {
    var n := RunLen(s, i, k);
    RunLenAllIn(s, i, k);
    FilteredAllIn(s, i, i + n, k);
    FilteredSplit(s, i, i + n, |s|, k);
  }

  /** A character outside class `k` is kept by the filter. */
  lemma FilteredKeeps(s: string, i: nat, k: char -> bool)
    requires i < |s| && !k(s[i])
    ensures Filtered(s, i, |s|, k) == [s[i]] + Filtered(s, i + 1, |s|, k)
  {
  }

  /** For a single-class pattern, `re.sub` is the class-only replacement. */
  lemma {:induction false} SubFromRun(p: Pattern, s: string, i: nat, repl: string)
    requires IsRun(p) && i <= |s|
    ensures SubFrom(p, s, i, repl) == RunSub(s, i, p[0].cls, repl)
    decreases |s| - i
  {
    if i < |s| {
      var n := RunLen(s, i, p[0].cls);
      MatchLenRun(p, s, i);
      if n > 0 {
        SubOnMatch(p, s, i, repl);
        RunSubOnRun(s, i, p[0].cls, repl);
        SubFromRun(p, s, i + n, repl);
      } else {
        SubOnMiss(p, s, i, repl);
        RunSubOnOther(s, i, p[0].cls, repl);
        SubFromRun(p, s, i + 1, repl);
      }
    }
  }

  /**
   * Replacing the runs of class `k` by a string of that class leaves the
   * characters outside the class, and their order, unchanged.
   */
  lemma {:induction false} RunSubKeepsOthers(s: string, i: nat, k: char -> bool, repl: string)
    requires i <= |s|
    requires AllIn(repl, 0, k)
    ensures Without(RunSub(s, i, k, repl), k) == Filtered(s, i, |s|, k)
    decreases |s| - i
  {
    if i < |s| {
      var n := RunLen(s, i, k);
      if n > 0 {
        var rest := RunSub(s, i + n, k, repl);
        RunSubOnRun(s, i, k, repl);
        RunSubKeepsOthers(s, i + n, k, repl);
        WithoutConcat(repl, rest, k);
        WithoutAllIn(repl, k);
        FilteredSkipsRun(s, i, k);
      } else {
        var rest := RunSub(s, i + 1, k, repl);
        RunSubOnOther(s, i, k, repl);
        RunSubKeepsOthers(s, i + 1, k, repl);
        WithoutConcat([s[i]], rest, k);
        KeptChar(s[i], k);
        FilteredKeeps(s, i, k);
      }
    }
  }

  /** Deleting the runs of class `k` is filtering out `k`. */
  lemma {:induction false} RunSubDeletes(s: string, i: nat, k: char -> bool)
    requires i <= |s|
    ensures RunSub(s, i, k, "") == Filtered(s, i, |s|, k)
    decreases |s| - i
  {
    if i < |s| {
      var n := RunLen(s, i, k);
      if n > 0 {
        RunSubDeletes(s, i + n, k);
        DeletesOnRun(s, i, k);
      } else {
        RunSubDeletes(s, i + 1, k);
        DeletesOnOther(s, i, k);
      }
    }
  }

  lemma DeletesOnRun(s: string, i: nat, k: char -> bool)
    requires i < |s| && RunLen(s, i, k) > 0
    requires RunSub(s, i + RunLen(s, i, k), k, "") == Filtered(s, i + RunLen(s, i, k), |s|, k)
    ensures RunSub(s, i, k, "") == Filtered(s, i, |s|, k)
  {
    RunSubOnRun(s, i, k, "");
    FilteredSkipsRun(s, i, k);
  }

  lemma DeletesOnOther(s: string, i: nat, k: char -> bool)
    requires i < |s| && RunLen(s, i, k) == 0
    requires RunSub(s, i + 1, k, "") == Filtered(s, i + 1, |s|, k)
    ensures RunSub(s, i, k, "") == Filtered(s, i, |s|, k)
  {
    RunSubOnOther(s, i, k, "");
    FilteredKeeps(s, i, k);
  }

  /** Replacing each run by one character never lengthens the text. */
  lemma {:induction false} RunSubShrinks(s: string, i: nat, k: char -> bool, c: char)
    requires i <= |s|
    ensures |RunSub(s, i, k, [c])| <= |s| - i
    decreases |s| - i
  {
    if i < |s| {
      var n := RunLen(s, i, k);
      if n > 0 {
        RunSubOnRun(s, i, k, [c]);
        RunSubShrinks(s, i + n, k, c);
      } else {
        RunSubOnOther(s, i, k, [c]);
        RunSubShrinks(s, i + 1, k, c);
      }
    }
  }

  /** In `t`, every class-`k` character is `c`, and no two of them are adjacent. */
  predicate SingleSeparators(t: string, k: char -> bool, c: char) {
    && (forall d :: 0 <= d < |t| && k(t[d]) ==> t[d] == c)
    && (forall d, e :: 0 <= d < |t| && 0 <= e < |t| && e == d + 1 ==> !k(t[d]) || !k(t[e]))
  }

  lemma {:induction false} RunSubSeparates(s: string, i: nat, k: char -> bool, c: char)
    requires i <= |s| && k(c)
    ensures SingleSeparators(RunSub(s, i, k, [c]), k, c)
    ensures i < |s| ==> |RunSub(s, i, k, [c])| > 0 && RunSub(s, i, k, [c])[0] == (if k(s[i]) then c else s[i])
    decreases |s| - i
  {
    if i < |s| {
      var n := RunLen(s, i, k);
      if n > 0 {
        var rest := RunSub(s, i + n, k, [c]);
        var t := [c] + rest;
        RunSubOnRun(s, i, k, [c]);
        RunSubSeparates(s, i + n, k, c);
        RunLenMaximal(s, i, k);
        forall d | 0 <= d < |t| && k(t[d]) ensures t[d] == c {
          if d > 0 { assert t[d] == rest[d - 1]; }
        }
        forall d, e | 0 <= d < |t| && 0 <= e < |t| && e == d + 1 ensures !k(t[d]) || !k(t[e]) {
          if d > 0 { assert t[d] == rest[d - 1] && t[e] == rest[e - 1]; }
        }
      } else {
        var rest := RunSub(s, i + 1, k, [c]);
        var t := [s[i]] + rest;
        RunSubOnOther(s, i, k, [c]);
        RunSubSeparates(s, i + 1, k, c);
        forall d | 0 <= d < |t| && k(t[d]) ensures t[d] == c {
          if d > 0 { assert t[d] == rest[d - 1]; }
        }
        forall d, e | 0 <= d < |t| && 0 <= e < |t| && e == d + 1 ensures !k(t[d]) || !k(t[e]) {
          if d > 0 { assert t[d] == rest[d - 1] && t[e] == rest[e - 1]; }
        }
      }
    }
  }

  /**
   * Deleting the matches removes exactly as many characters as `re.findall`
   * returns in all.
   */
  lemma {:induction false} DeletedLength(p: Pattern, s: string, i: nat)
    requires i <= |s|
    ensures |SubFrom(p, s, i, "")| + TotalLength(Scan(p, s, i)) == |s| - i
    decreases |s| - i
  {
    if i < |s| {
      var j := if MatchLen(p, s, i) > 0 then i + MatchLen(p, s, i) else i + 1;
      DeletedLength(p, s, j);
      DeletedStep(p, s, i);
    }
  }

  /** One step of `DeletedLength`: from where the scan resumes back to `i`. */
  lemma DeletedStep(p: Pattern, s: string, i: nat)
    requires i < |s|
    requires var j := if MatchLen(p, s, i) > 0 then i + MatchLen(p, s, i) else i + 1;
      |SubFrom(p, s, j, "")| + TotalLength(Scan(p, s, j)) == |s| - j
    ensures |SubFrom(p, s, i, "")| + TotalLength(Scan(p, s, i)) == |s| - i
  {
    if MatchLen(p, s, i) > 0 {
      DeletedOnMatch(p, s, i);
    } else {
      DeletedOnMiss(p, s, i);
    }
  }

  /** One step of `DeletedLength` at a match. */
  lemma DeletedOnMatch(p: Pattern, s: string, i: nat)
    requires i < |s| && MatchLen(p, s, i) > 0
    requires var j := i + MatchLen(p, s, i);
      |SubFrom(p, s, j, "")| + TotalLength(Scan(p, s, j)) == |s| - j
    ensures |SubFrom(p, s, i, "")| + TotalLength(Scan(p, s, i)) == |s| - i
  {
    var n := MatchLen(p, s, i);
    ScanOnMatch(p, s, i);
    TotalLengthCons(s[i..i + n], Scan(p, s, i + n));
    SubOnMatch(p, s, i, "");
  }

  /** One step of `DeletedLength` where nothing matches. */
  lemma DeletedOnMiss(p: Pattern, s: string, i: nat)
    requires i < |s| && MatchLen(p, s, i) == 0
    requires |SubFrom(p, s, i + 1, "")| + TotalLength(Scan(p, s, i + 1)) == |s| - (i + 1)
    ensures |SubFrom(p, s, i, "")| + TotalLength(Scan(p, s, i)) == |s| - i
  {
    ScanOnMiss(p, s, i);
    SubOnMiss(p, s, i, "");
  }

  /**
   * The `https\S+` alternative of the cleaning pattern never decides a match:
   * wherever it would match, `http\S+` already matches the same characters.
   */
  lemma UrlAlternativeRedundant(s: string, i: nat)
    requires i <= |s|
    ensures MatchLen(UrlForCleaning, s, i) == MatchLen(Url, s, i)
  {
    var http := LitThenRun(s, i, "http", IsNonSpace);
    var www := LitThenRun(s, i, "www", IsNonSpace);
    var https := LitThenRun(s, i, "https", IsNonSpace);
    if https > 0 {
      assert s[i..i + 4] == s[i..i + 5][..4];
      assert StartsAt(s, i, "http");
      assert s[i + 4] == s[i..i + 5][4] == 's';
      assert http > 0;
    }
    var u := UrlForCleaning;
    assert u[0] == Alt("http", IsNonSpace) && u[1] == Alt("www", IsNonSpace) && u[2] == Alt("https", IsNonSpace);
    assert FirstMatch(u, 3, s, i) == 0;
    assert FirstMatch(u, 2, s, i) == https;
    assert FirstMatch(u, 1, s, i) == if www > 0 then www else https;
    assert FirstMatch(u, 0, s, i) == if http > 0 then http else if www > 0 then www else https;
    var v := Url;
    assert v[0] == Alt("http", IsNonSpace) && v[1] == Alt("www", IsNonSpace);
    assert FirstMatch(v, 2, s, i) == 0;
    assert FirstMatch(v, 1, s, i) == www;
    assert FirstMatch(v, 0, s, i) == if http > 0 then http else www;
  }
}
