/**
 * The text cleaner of the preprocessing stage: URL and mention removal,
 * whitespace collapsing, lower-casing and stripping of one post text, a
 * batch version, emoji removal and hashtag extraction.
 */
module TextCleaner {
  import opened Wrappers
  import opened Chars
  import opened Patterns
  import opened Splitting
  import opened Occurrences

  /** The switches a cleaner is built with (each defaults to on). */
  datatype Cleaner = Cleaner(lowercase: bool, removeUrls: bool, removeMentions: bool)

  /** Number of whitespace characters `s` starts with. */
  function LeadLen(s: string): nat {
    RunLen(s, 0, IsSpace)
  }

  /** Number of whitespace characters `s[..j]` ends with. */
  function TrailLen(s: string, j: nat): (n: nat)
    requires j <= |s|
    ensures n <= j
  {
    if j > 0 && IsSpace(s[j - 1]) then 1 + TrailLen(s, j - 1) else 0
  }

  /** The trailing run is whitespace, and the character before it is not. */
  lemma {:induction false} TrailLenSpec(s: string, j: nat)
    requires j <= |s|
    ensures forall d :: j - TrailLen(s, j) <= d < j ==> IsSpace(s[d])
    ensures TrailLen(s, j) == j || !IsSpace(s[j - TrailLen(s, j) - 1])
  {
    if j > 0 && IsSpace(s[j - 1]) {
      TrailLenSpec(s, j - 1);
    }
  }

  /**
   * `str.strip()`: the longest middle part of `s` that neither starts nor
   * ends with whitespace; everything cut off on either side is whitespace.
   */
  function Strip(s: string): (r: string)
    ensures LeadLen(s) + |r| <= |s|
    ensures r == s[LeadLen(s)..LeadLen(s) + |r|]
    ensures r == [] || (!IsSpace(r[0]) && !IsSpace(r[|r| - 1]))
    ensures forall d :: 0 <= d < LeadLen(s) ==> IsSpace(s[d])
    ensures forall d :: LeadLen(s) + |r| <= d < |s| ==> IsSpace(s[d])
  {
    var a := LeadLen(s);
    RunLenAllIn(s, 0, IsSpace);
    RunLenMaximal(s, 0, IsSpace);
    TrailLenSpec(s, |s|);
    if a == |s| then
      []
    else
      var b := |s| - TrailLen(s, |s|);
      assert !IsSpace(s[a]);
      assert a < b;
      s[a..b]
  }

  /** `re.sub(r'\s+', ' ', s)`: every whitespace run becomes one blank. */
  function Collapse(s: string): string {
    Sub(Whitespace, s, " ")
  }

  /**
   * After collapsing, every whitespace character is a blank, no two are
   * adjacent, the other characters are those of `s` in order, and the text
   * is no longer than before.
   */
  lemma CollapseSpec(s: string)
    ensures SingleSeparators(Collapse(s), IsSpace, ' ')
    ensures Without(Collapse(s), IsSpace) == Without(s, IsSpace)
    ensures |Collapse(s)| <= |s|
  {
    SubFromRun(Whitespace, s, 0, " ");
    RunSubSeparates(s, 0, IsSpace, ' ');
    RunSubKeepsOthers(s, 0, IsSpace, " ");
    RunSubShrinks(s, 0, IsSpace, ' ');
  }

  /** Collapsing at a whitespace run: the blank it leaves separates no word. */
  lemma CollapseWordsOnSpace(s: string, i: nat)
    requires i < |s| && RunLen(s, i, IsSpace) > 0
    requires Words(RunSub(s, i + RunLen(s, i, IsSpace), IsSpace, " ")) ==
      RunScan(s, i + RunLen(s, i, IsSpace), IsNonSpace)
    ensures Words(RunSub(s, i, IsSpace, " ")) == RunScan(s, i, IsNonSpace)
  {
    var n := RunLen(s, i, IsSpace);
    var rest := RunSub(s, i + n, IsSpace, " ");
    RunSubOnRun(s, i, IsSpace, " ");
    FindAllConcat(Token, " ", rest);
    FindAllRunEmpty(Token, " ");
    RunLenAllIn(s, i, IsSpace);
    RunScanSkips(s, i, i + n, IsNonSpace);
  }

  /** Collapsing at a word: the word is copied and the next character, if any, is a blank. */
  lemma CollapseWordsOnWord(s: string, i: nat)
    requires i < |s| && RunLen(s, i, IsSpace) == 0
    requires Words(RunSub(s, i + RunLen(s, i, IsNonSpace), IsSpace, " ")) ==
      RunScan(s, i + RunLen(s, i, IsNonSpace), IsNonSpace)
    ensures Words(RunSub(s, i, IsSpace, " ")) == RunScan(s, i, IsNonSpace)
  {
    var m := RunLen(s, i, IsNonSpace);
    CollapseAtWord(s, i);
    RunAllIn(s, i, IsNonSpace);
    WordsLead(s[i..i + m], RunSub(s, i + m, IsSpace, " "));
    RunScanOnRun(s, i, IsNonSpace);
  }

  /** At a word, collapsing copies the word, and what follows is empty or starts with whitespace. */
  lemma CollapseAtWord(s: string, i: nat)
    requires i < |s| && RunLen(s, i, IsSpace) == 0
    ensures var m := RunLen(s, i, IsNonSpace);
      var rest := RunSub(s, i + m, IsSpace, " ");
      && m > 0
      && RunSub(s, i, IsSpace, " ") == s[i..i + m] + rest
      && (rest == [] || IsSpace(rest[0]))
  {
    var m := RunLen(s, i, IsNonSpace);
    RunLenAllIn(s, i, IsNonSpace);
    RunLenMaximal(s, i, IsNonSpace);
    RunSubCopies(s, i, i + m, IsSpace, " ");
    RunSubSeparates(s, i + m, IsSpace, ' ');
  }

  /** The class-level collapse from `s[i]` on splits into the words of `s[i..]`. */
  lemma {:induction false} CollapseWordsFrom(s: string, i: nat)
    requires i <= |s|
    ensures Words(RunSub(s, i, IsSpace, " ")) == RunScan(s, i, IsNonSpace)
    decreases |s| - i
  {
    if i < |s| {
      var n := RunLen(s, i, IsSpace);
      if n > 0 {
        CollapseWordsFrom(s, i + n);
        CollapseWordsOnSpace(s, i);
      } else {
        CollapseWordsFrom(s, i + RunLen(s, i, IsNonSpace));
        CollapseWordsOnWord(s, i);
      }
    }
  }

  /** Collapsing whitespace leaves the words of the text as they were. */
  lemma CollapseWords(s: string)
    ensures Words(Collapse(s)) == Words(s)
  {
    SubFromRun(Whitespace, s, 0, " ");
    CollapseWordsFrom(s, 0);
    WordsAreRuns(s);
  }

  /** Stripping leaves the words of the text as they were. */
  lemma StripWords(t: string)
    ensures Words(Strip(t)) == Words(t)
  {
    var r := Strip(t);
    var a := LeadLen(t);
    var e := a + |r|;
    var head := t[..e];
    RunScanSkips(t, 0, a, IsNonSpace);
    RunScanPrefix(t, head, a, IsNonSpace);
    RunScanSkips(t, e, |t|, IsNonSpace);
    RunScanShift(head, r, a, 0, IsNonSpace);
    WordsAreRuns(t);
    WordsAreRuns(r);
  }

  /**
   * A text that starts and ends with non-whitespace and whose only
   * whitespace is single blanks is `' '.join` of its own words.
   */
  lemma {:induction false} JoinWords(t: string)
    requires t == [] || (!IsSpace(t[0]) && !IsSpace(t[|t| - 1]))
    requires SingleSeparators(t, IsSpace, ' ')
    ensures t == Join(Words(t))
    decreases |t|
  {
    if t != [] {
      var m := RunLen(t, 0, IsNonSpace);
      RunLenAllIn(t, 0, IsNonSpace);
      RunLenMaximal(t, 0, IsNonSpace);
      var w := t[..m];
      assert AllIn(w, 0, IsNonSpace);
      if m == |t| {
        assert w == t;
        FindAllWhole(Token, t);
      } else {
        assert t[m] == ' ';
        assert m + 1 < |t|;
        var rest := t[m + 1..];
        assert t == w + " " + rest;
        SliceSeparated(t, m + 1, |t|);
        JoinWords(rest);
        WordsCons(w, rest);
        FindAllRunEmpty(Token, rest);
        assert rest[0] == t[m + 1];
        JoinCons(w, Words(rest));
      }
    }
  }

  /** Lower-casing keeps single blanks single. */
  lemma LowerSeparated(t: string)
    requires SingleSeparators(t, IsSpace, ' ')
    ensures SingleSeparators(Lower(t), IsSpace, ' ')
  {
  }

  /** Any stretch of single-separated text is single-separated. */
  lemma SliceSeparated(t: string, a: nat, b: nat)
    requires a <= b <= |t|
    requires SingleSeparators(t, IsSpace, ' ')
    ensures SingleSeparators(t[a..b], IsSpace, ' ')
  {
    var m := t[a..b];
    forall d | 0 <= d < |m| ensures m[d] == t[a + d] {
    }
  }

  /** Lower-casing and dropping whitespace can be done in either order. */
  lemma {:induction false} LowerFiltered(s: string, i: nat)
    requires i <= |s|
    ensures Filtered(Lower(s), i, |s|, IsSpace) == Lower(Filtered(s, i, |s|, IsSpace))
    decreases |s| - i
  {
    if i < |s| {
      LowerFiltered(s, i + 1);
      var head := if IsSpace(s[i]) then [] else [s[i]];
      var rest := Filtered(s, i + 1, |s|, IsSpace);
      assert Filtered(s, i, |s|, IsSpace) == head + rest;
      LowerConcat(head, rest);
      assert Lower(head) == if IsSpace(Lower(s)[i]) then [] else [Lower(s)[i]];
    }
  }

  lemma LowerWithout(s: string)
    ensures Without(Lower(s), IsSpace) == Lower(Without(s, IsSpace))
  {
    LowerFiltered(s, 0);
  }

  /** Stripping removes only whitespace. */
  lemma StripKeepsOthers(s: string)
    ensures Without(Strip(s), IsSpace) == Without(s, IsSpace)
  {
    var r := Strip(s);
    var a := LeadLen(s);
    var b := a + |r|;
    FilteredSplit(s, 0, a, |s|, IsSpace);
    FilteredSplit(s, a, b, |s|, IsSpace);
    FilteredAllIn(s, 0, a, IsSpace);
    FilteredAllIn(s, b, |s|, IsSpace);
    WithoutSlice(s, a, b, IsSpace);
  }

  /** `TextCleaner.clean_text`: a value that is not a string cleans to "". */
  function CleanText(c: Cleaner, text: Option<string>): (r: string)
    ensures text.None? ==> r == ""
  {
    match text
    case None => ""
    case Some(s) => Strip(Normalised(c, s))
  }

  /** The steps of `clean_text` before the final strip, each behind its switch. */
  function Normalised(c: Cleaner, s: string): string {
    var noUrls := if c.removeUrls then Sub(UrlForCleaning, s, "") else s;
    var noMentions := if c.removeMentions then Sub(Mention, noUrls, "") else noUrls;
    var collapsed := Collapse(noMentions);
    if c.lowercase then Lower(collapsed) else collapsed
  }

  /** Deleting URLs leaves no URL for the cleaner's pattern to find. */
  lemma UrlsRemoved(s: string)
    ensures FindAll(UrlForCleaning, Sub(UrlForCleaning, s, "")) == []
  {
    var t := Sub(UrlForCleaning, s, "");
    SubIsUrlCut(s);
    UrlCutClean(s, 0, false);
    FindAllEmpty(UrlForCleaning, t);
    forall d | 0 <= d < |t| ensures MatchLen(UrlForCleaning, t, d) == 0 {
      UrlAlternativeRedundant(t, d);
      UrlMatch(t, d);
    }
  }

  /** Deleting mentions leaves no mention behind. */
  lemma MentionsRemoved(t: string)
    ensures FindAll(Mention, Sub(Mention, t, "")) == []
  {
    var u := Sub(Mention, t, "");
    assert Mention == Led('@', IsWordChar);
    SubIsUntagged(t, 0, '@', IsWordChar);
    UntaggedClean(t, 0, '@', IsWordChar, false);
    FindAllMentionsEmpty(u);
    forall d | 0 <= d < |u| ensures !MentionAt(u, d) {
      assert !LedAt(u, d, '@', IsWordChar);
    }
  }

  /**
   * What the URL and mention steps keep: every word cut at its first URL
   * start, then every mention deleted with the word characters after its `@`.
   */
  lemma RemovalKeeps(s: string)
    ensures Sub(UrlForCleaning, s, "") == UrlCut(s, 0, false)
    ensures Sub(Mention, s, "") == Untagged(s, 0, '@', IsWordChar, false)
  {
    SubIsUrlCut(s);
    assert Mention == Led('@', IsWordChar);
    SubIsUntagged(s, 0, '@', IsWordChar);
  }

  lemma NormalisedShape(c: Cleaner, s: string)
    ensures SingleSeparators(Normalised(c, s), IsSpace, ' ')
    ensures c.lowercase ==> NoUpper(Normalised(c, s))
  {
    var noUrls := if c.removeUrls then Sub(UrlForCleaning, s, "") else s;
    var noMentions := if c.removeMentions then Sub(Mention, noUrls, "") else noUrls;
    CollapseSpec(noMentions);
    if c.lowercase {
      LowerSeparated(Collapse(noMentions));
    }
  }

  lemma StripSeparated(t: string)
    requires SingleSeparators(t, IsSpace, ' ')
    ensures SingleSeparators(Strip(t), IsSpace, ' ')
  {
    SliceSeparated(t, LeadLen(t), LeadLen(t) + |Strip(t)|);
  }

  lemma StripNoUpper(t: string)
    requires NoUpper(t)
    ensures NoUpper(Strip(t))
  {
    var r := Strip(t);
    forall d | 0 <= d < |r| ensures r[d] == t[LeadLen(t) + d] {
    }
  }

  /**
   * Every cleaned text starts and ends with a non-whitespace character, its
   * only whitespace is single blanks between words, and with `lowercase` on
   * it holds no upper-case letter.
   */
  lemma CleanTextShape(c: Cleaner, text: Option<string>)
    ensures var r := CleanText(c, text);
      && (r == [] || (!IsSpace(r[0]) && !IsSpace(r[|r| - 1])))
      && SingleSeparators(r, IsSpace, ' ')
      && (c.lowercase ==> NoUpper(r))
  {
    if text.Some? {
      var t := Normalised(c, text.value);
      NormalisedShape(c, text.value);
      StripSeparated(t);
      if c.lowercase {
        StripNoUpper(t);
      }
    }
  }

  /**
   * With URL and mention removal off, cleaning changes only whitespace and,
   * with `lowercase` on, letter case: the non-whitespace characters of the
   * result are those of the input, in order.
   */
  lemma CleanTextKeepsText(c: Cleaner, s: string)
    requires !c.removeUrls && !c.removeMentions
    ensures Without(CleanText(c, Some(s)), IsSpace) ==
      if c.lowercase then Lower(Without(s, IsSpace)) else Without(s, IsSpace)
  {
    var collapsed := Collapse(s);
    CollapseSpec(s);
    StripKeepsOthers(Normalised(c, s));
    if c.lowercase {
      LowerWithout(collapsed);
    }
  }

  /**
   * With URL and mention removal off, `clean_text` is `' '.join(s.split())`,
   * with every word lower-cased when `lowercase` is on.
   */
  lemma CleanTextJoinsWords(c: Cleaner, s: string)
    requires !c.removeUrls && !c.removeMentions
    ensures CleanText(c, Some(s)) == Join(if c.lowercase then LowerEach(Words(s)) else Words(s))
  {
    var n := Normalised(c, s);
    CleanTextShape(c, Some(s));
    JoinWords(Strip(n));
    StripWords(n);
    CollapseWords(s);
    if c.lowercase {
      WordsLower(Collapse(s));
    }
  }

  /** Cleaning never makes a text longer. */
  lemma CleanTextShrinks(c: Cleaner, s: string)
    ensures |CleanText(c, Some(s))| <= |s|
  {
    var noUrls := if c.removeUrls then Sub(UrlForCleaning, s, "") else s;
    var noMentions := if c.removeMentions then Sub(Mention, noUrls, "") else noUrls;
    DeletedLength(UrlForCleaning, s, 0);
    DeletedLength(Mention, noUrls, 0);
    CollapseSpec(noMentions);
  }

  /** `TextCleaner.clean_batch`: every text cleaned, in order. */
  function CleanBatch(c: Cleaner, texts: seq<Option<string>>): (r: seq<string>)
    ensures |r| == |texts|
    ensures forall j :: 0 <= j < |r| ==> r[j] == CleanText(c, texts[j])
  {
    if texts == [] then [] else [CleanText(c, texts[0])] + CleanBatch(c, texts[1..])
  }

  /** `TextCleaner.remove_emojis`: deleting every emoji run is dropping every emoji. */
  function RemoveEmojis(s: string): (r: string)
    ensures r == Without(s, IsEmoji)
    ensures forall d :: 0 <= d < |r| ==> !IsEmoji(r[d])
  {
    SubFromRun(EmojiRun, s, 0, "");
    RunSubDeletes(s, 0, IsEmoji);
    WithoutExcludes(s, IsEmoji);
    Sub(EmojiRun, s, "")
  }

  /**
   * `TextCleaner.extract_hashtags`: each tag is `#` followed by one or more
   * word characters; reading the text position by position, there is one tag
   * per `#` directly followed by a word character, running over all the word
   * characters after it.
   */
  function ExtractHashtags(s: string): (r: seq<string>)
    ensures forall d :: 0 <= d < |r| ==> IsHashtag(r[d])
    ensures TotalLength(r) <= |s|
    ensures r == [] <==> forall d :: 0 <= d < |s| ==> !HashtagAt(s, d)
    ensures r == Tags(s, 0, '#', IsWordChar)
  {
    HashtagsWellFormed(s);
    FindAllHashtagsEmpty(s);
    DeletedLength(Hashtag, s, 0);
    assert Hashtag == Led('#', IsWordChar);
    ScanIsTags(s, 0, '#', IsWordChar);
    FindAll(Hashtag, s)
  }

  /**
   * The tags stand in the text at the positions of its `#`s that are
   * directly followed by a word character, in order and without overlap,
   * and every such `#` starts one of them.
   */
  lemma HashtagsLocated(s: string)
    ensures Located(s, 0, ExtractHashtags(s), LedPositions(s, 0, '#', IsWordChar))
    ensures forall d :: 0 <= d < |s| && HashtagAt(s, d) ==> d in LedPositions(s, 0, '#', IsWordChar)
  {
    assert Hashtag == Led('#', IsWordChar);
    MatchesLocated(Hashtag, s, 0);
    StartsAreLedPositions(s, 0, '#', IsWordChar);
    forall d | 0 <= d < |s| && HashtagAt(s, d) ensures d in LedPositions(s, 0, '#', IsWordChar) {
      LedFound(s, 0, '#', IsWordChar, d);
    }
  }

  /** `#` followed by one or more word characters. */
  predicate IsHashtag(t: string) {
    |t| >= 2 && t[0] == '#' && AllIn(t, 1, IsWordChar)
  }

  lemma HashtagsWellFormed(s: string)
    ensures forall d :: 0 <= d < |FindAll(Hashtag, s)| ==> IsHashtag(FindAll(Hashtag, s)[d])
  {
    var r := FindAll(Hashtag, s);
    ScanInLanguage(Hashtag, s, 0);
    forall d | 0 <= d < |r| ensures IsHashtag(r[d]) {
      assert InLanguage(Hashtag, r[d]);
      assert LitThenClass(r[d], "#", IsWordChar);
      assert r[d][..1] == "#";
    }
  }

  /** `TextCleaner.count_hashtags`: tags take two characters at least and do not overlap. */
  function CountHashtags(s: string): (n: nat)
    ensures n == |ExtractHashtags(s)|
    ensures n == |LedPositions(s, 0, '#', IsWordChar)|
    ensures 2 * n <= |s|
  {
    FindAllBound(Hashtag, s, 2);
    TagsCount(s, 0, '#', IsWordChar);
    |ExtractHashtags(s)|
  }
}
