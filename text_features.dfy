/**
 * The text feature extractor: thirteen numeric features of one post text,
 * and the batch version that yields one feature row per text.
 */
module TextFeatures {
  import opened Chars
  import opened Patterns
  import opened Splitting
  import opened Occurrences

  /** The call-to-action keywords, matched as substrings of the lower-cased text. */
  const CtaKeywords: seq<string> := [
    "click", "link", "check out", "read more", "learn more",
    "visit", "download", "register", "sign up", "join",
    "comment", "share", "like", "follow", "subscribe"
  ]

  /** The words a question may start with, matched as prefixes of the lower-cased text. */
  const QuestionWords: seq<string> := ["what", "why", "how", "when", "where", "who", "which"]

  /** The feature row of one text; flags are 1 or 0, as `int(bool)` gives them. */
  datatype Features = Features(
    textLength: nat,
    wordCount: nat,
    lineCount: nat,
    avgWordLength: real,
    exclamationCount: nat,
    questionCount: nat,
    emojiCount: nat,
    hashtagCount: nat,
    urlCount: nat,
    mentionCount: nat,
    hasCta: nat,
    hasQuestion: nat,
    uppercaseRatio: real)

  /** `str.count(c)` for a one-character argument. */
  function CharCount(s: string, c: char): (n: nat)
    ensures n <= |s|
    ensures n == 0 <==> c !in s
  {
    if s == [] then 0
    else
      assert s == [s[0]] + s[1..];
      (if s[0] == c then 1 else 0) + CharCount(s[1..], c)
  }

  /** Number of characters of `s` that are not whitespace. */
  function NonSpaceCount(s: string): nat {
    |Without(s, IsSpace)|
  }

  /** Every character is either whitespace or not. */
  lemma {:induction false} SpacePartition(s: string, i: nat)
    requires i <= |s|
    ensures |Filtered(s, i, |s|, IsSpace)| + |Filtered(s, i, |s|, IsNonSpace)| == |s| - i
    decreases |s| - i
  {
    if i < |s| {
      SpacePartition(s, i + 1);
    }
  }

  /**
   * The words of a text are non-empty runs of non-whitespace characters,
   * they hold every non-whitespace character of the text between them, and
   * there are none exactly when the text is all whitespace.
   */
  lemma WordsSpec(s: string)
    ensures forall d :: 0 <= d < |Words(s)| ==> |Words(s)[d]| > 0 && AllIn(Words(s)[d], 0, IsNonSpace)
    ensures TotalLength(Words(s)) == NonSpaceCount(s)
    ensures Words(s) == [] <==> forall d :: 0 <= d < |s| ==> IsSpace(s[d])
  {
    var w := Words(s);
    ScanInLanguage(Token, s, 0);
    forall d | 0 <= d < |w| ensures |w[d]| > 0 && AllIn(w[d], 0, IsNonSpace) {
      assert LitThenClass(w[d], "", IsNonSpace);
    }
    DeletedLength(Token, s, 0);
    SubFromRun(Token, s, 0, "");
    RunSubDeletes(s, 0, IsNonSpace);
    SpacePartition(s, 0);
    FindAllRunEmpty(Token, s);
  }

  /** `_avg_word_length`: total word length over the number of words; 0 without words. */
  function AvgWordLength(s: string): real {
    var w := Words(s);
    Average(TotalLength(w), |w|)
  }

  /** `total / count` as true division, or 0 for no items. */
  function Average(total: nat, count: nat): real {
    if count == 0 then 0.0 else (total as real) / (count as real)
  }

  /** The average times the count is the total; items of length 1 or more average 1 or more. */
  lemma AverageSpec(total: nat, count: nat)
    requires count == 0 ==> total == 0
    ensures Average(total, count) * (count as real) == total as real
    ensures count > 0 && total >= count ==> Average(total, count) >= 1.0
  {
    if count > 0 {
      QuotientSpec(total, count);
    }
  }

  /**
   * The average word length times the number of words is the number of
   * non-whitespace characters; with words, every word has one character
   * at least, so the average is 1 or more.
   */
  lemma AvgWordLengthSpec(s: string)
    ensures Words(s) == [] ==> AvgWordLength(s) == 0.0
    ensures AvgWordLength(s) * (|Words(s)| as real) == NonSpaceCount(s) as real
    ensures Words(s) != [] ==> AvgWordLength(s) >= 1.0
  {
    var w := Words(s);
    WordsSpec(s);
    FindAllBound(Token, s, 1);
    AverageSpec(TotalLength(w), |w|);
  }

  /** The exact quotient of two counts, as Python's true division `a / b` computes it. */
  lemma QuotientSpec(a: nat, b: nat)
    requires b > 0
    ensures ((a as real) / (b as real)) * (b as real) == a as real
    ensures a >= b ==> (a as real) / (b as real) >= 1.0
    ensures a <= b ==> (a as real) / (b as real) <= 1.0
    ensures (a as real) / (b as real) >= 0.0
    ensures (a as real) / (b as real) == 0.0 <==> a == 0
  {
  }

  /** `_count_emojis`: the number of maximal runs of emoji characters. */
  function CountEmojis(s: string): (n: nat)
    ensures n <= |s|
    ensures n == 0 <==> forall d :: 0 <= d < |s| ==> !IsEmoji(s[d])
  {
    FindAllBound(EmojiRun, s, 1);
    FindAllRunEmpty(EmojiRun, s);
    |FindAll(EmojiRun, s)|
  }

  /** Python's `w in t` for strings, searched from index `i` on. */
  function ContainsFrom(t: string, w: string, i: nat): (b: bool)
    requires i <= |t|
    ensures b <==> exists k :: i <= k && StartsAt(t, k, w)
    decreases |t| - i
  {
    if i + |w| > |t| then
      false
    else if t[i..i + |w|] == w then
      assert StartsAt(t, i, w);
      true
    else
      ContainsFrom(t, w, i + 1)
  }

  /** Python's `w in t` for strings: `w` occurs somewhere in `t`. */
  function Contains(t: string, w: string): (b: bool)
    ensures b <==> exists k :: StartsAt(t, k, w)
  {
    ContainsFrom(t, w, 0)
  }

  /** `_has_call_to_action`: some keyword occurs in the lower-cased text. */
  predicate HasCta(s: string) {
    exists j :: 0 <= j < |CtaKeywords| && Contains(Lower(s), CtaKeywords[j])
  }

  /** `_has_question`: the text holds a `?`, or its lower-cased form starts with a question word. */
  predicate HasQuestion(s: string) {
    '?' in s || exists j :: 0 <= j < |QuestionWords| && StartsAt(Lower(s), 0, QuestionWords[j])
  }

  /** `sum(1 for c in text if c.isupper())`. */
  function UpperCount(s: string): (n: nat)
    ensures n <= |s|
    ensures n == 0 <==> NoUpper(s)
  {
    if s == [] then 0
    else
      assert forall d :: 0 < d < |s| ==> s[d] == s[1..][d - 1];
      (if IsUpper(s[0]) then 1 else 0) + UpperCount(s[1..])
  }

  /** `_uppercase_ratio`: the share of upper-case letters; 0 for the empty text. */
  function UppercaseRatio(s: string): real {
    if s == [] then 0.0 else (UpperCount(s) as real) / (|s| as real)
  }

  /** The upper-case ratio lies in [0, 1] and is 0 exactly when no letter is upper case. */
  lemma UppercaseRatioSpec(s: string)
    ensures 0.0 <= UppercaseRatio(s) <= 1.0
    ensures UppercaseRatio(s) == 0.0 <==> NoUpper(s)
  {
    if s != [] {
      QuotientSpec(UpperCount(s), |s|);
    }
  }

  /** `int(b)`. */
  function Flag(b: bool): nat {
    if b then 1 else 0
  }

  /** `TextFeatureExtractor.extract_features`. */
  function ExtractFeatures(s: string): Features {
    Features(
      textLength := |s|,
      wordCount := |Words(s)|,
      lineCount := CharCount(s, '\n') + 1,
      avgWordLength := AvgWordLength(s),
      exclamationCount := CharCount(s, '!'),
      questionCount := CharCount(s, '?'),
      emojiCount := CountEmojis(s),
      hashtagCount := |FindAll(Hashtag, s)|,
      urlCount := |FindAll(Url, s)|,
      mentionCount := |FindAll(Mention, s)|,
      hasCta := Flag(HasCta(s)),
      hasQuestion := Flag(HasQuestion(s)),
      uppercaseRatio := UppercaseRatio(s))
  }

  /** `TextFeatureExtractor.extract_batch_features`: one row per text, in order. */
  function ExtractBatch(texts: seq<string>): (rows: seq<Features>)
    ensures |rows| == |texts|
    ensures forall j :: 0 <= j < |rows| ==> rows[j] == ExtractFeatures(texts[j])
  {
    if texts == [] then [] else [ExtractFeatures(texts[0])] + ExtractBatch(texts[1..])
  }

  /** The empty text: every feature 0 except the line count, which is 1. */
  lemma EmptyTextFeatures()
    ensures ExtractFeatures("") == Features(0, 0, 1, 0.0, 0, 0, 0, 0, 0, 0, 0, 0, 0.0)
  {
    assert Lower("") == "";
    forall j | 0 <= j < |CtaKeywords| ensures !Contains("", CtaKeywords[j]) {
    }
  }

  /**
   * Count bounds every feature row keeps: at least one line, no more words
   * than characters, flags 0 or 1, and each pattern count bounded by the
   * length its shortest match takes.
   */
  lemma CountBounds(s: string)
    ensures var f := ExtractFeatures(s);
      && f.lineCount >= 1
      && f.wordCount <= f.textLength
      && f.hasCta <= 1 && f.hasQuestion <= 1
      && f.emojiCount <= f.textLength
      && 2 * f.hashtagCount <= f.textLength
      && 2 * f.mentionCount <= f.textLength
      && 4 * f.urlCount <= f.textLength
  {
    FindAllBound(Token, s, 1);
    FindAllBound(Hashtag, s, 2);
    FindAllBound(Mention, s, 2);
    FindAllBound(Url, s, 4);
  }

  /**
   * Every word in the text gets counted: the word count is the number of
   * positions where a non-whitespace character follows whitespace or the
   * start of the text.
   */
  lemma WordsCounted(s: string)
    ensures ExtractFeatures(s).wordCount == WordStarts(s, 0)
  {
    assert ExtractFeatures(s).wordCount == |Words(s)|;
    WordCount(s);
  }

  /**
   * Every pattern occurrence gets counted: each pattern count is 0 exactly
   * when the pattern matches at no position of the text.
   */
  lemma CountsFind(s: string)
    ensures var f := ExtractFeatures(s);
      && (f.hashtagCount == 0 <==> forall d :: 0 <= d < |s| ==> !HashtagAt(s, d))
      && (f.mentionCount == 0 <==> forall d :: 0 <= d < |s| ==> !MentionAt(s, d))
      && (f.urlCount == 0 <==> forall d :: 0 <= d < |s| ==> !UrlAt(s, d))
  {
    var f := ExtractFeatures(s);
    assert f.hashtagCount == |FindAll(Hashtag, s)|;
    assert f.mentionCount == |FindAll(Mention, s)|;
    assert f.urlCount == |FindAll(Url, s)|;
    FindAllHashtagsEmpty(s);
    FindAllMentionsEmpty(s);
    FindAllUrlsEmpty(s);
  }

  /** A `#` followed by a letter makes the hashtag count positive, wherever it stands. */
  lemma HashtagCounted(a: string, c: char, b: string)
    requires IsWordChar(c)
    ensures ExtractFeatures(a + ['#', c] + b).hashtagCount > 0
  {
    var s := a + ['#', c] + b;
    assert s[|a|] == '#' && s[|a| + 1] == c;
    assert HashtagAt(s, |a|);
    CountsFind(s);
  }

  /**
   * Each of the three counts is the number of its occurrences in the text:
   * a hashtag per `#` directly followed by a word character, a mention per
   * `@` directly followed by a word character, a URL per word that holds a
   * URL start.
   */
  lemma CountsOccurrences(s: string)
    ensures var f := ExtractFeatures(s);
      && f.hashtagCount == |LedPositions(s, 0, '#', IsWordChar)|
      && f.mentionCount == |LedPositions(s, 0, '@', IsWordChar)|
      && f.urlCount == |UrlTails(s)|
  {
    assert Hashtag == Led('#', IsWordChar) && Mention == Led('@', IsWordChar);
    ScanIsTags(s, 0, '#', IsWordChar);
    ScanIsTags(s, 0, '@', IsWordChar);
    TagsCount(s, 0, '#', IsWordChar);
    TagsCount(s, 0, '@', IsWordChar);
    ScanIsUrlTails(s);
  }

  /**
   * The average word length times the word count is at most the text
   * length, and the upper-case ratio lies in [0, 1].
   */
  lemma RatioBounds(s: string)
    ensures AvgWordLength(s) * (|Words(s)| as real) <= |s| as real
    ensures 0.0 <= UppercaseRatio(s) <= 1.0
  {
    AvgWordLengthSpec(s);
    UppercaseRatioSpec(s);
  }

  /**
   * `has_question` is 1 exactly when the text holds a question mark or its
   * lower-cased form starts with a question word, so a `?` always sets it.
   */
  lemma QuestionFlag(s: string)
    ensures var f := ExtractFeatures(s);
      && (f.questionCount > 0 ==> f.hasQuestion == 1)
      && (f.hasQuestion == 1 <==>
          f.questionCount > 0 || exists j :: 0 <= j < |QuestionWords| && StartsAt(Lower(s), 0, QuestionWords[j]))
  {
  }

  /** `has_cta` is 1 exactly when a keyword occurs in the lower-cased text. */
  lemma CtaFlag(s: string)
    ensures ExtractFeatures(s).hasCta == 1 <==>
      exists j, k :: 0 <= j < |CtaKeywords| && StartsAt(Lower(s), k, CtaKeywords[j])
  {
    if ExtractFeatures(s).hasCta == 1 {
      var j :| 0 <= j < |CtaKeywords| && Contains(Lower(s), CtaKeywords[j]);
      var k :| StartsAt(Lower(s), k, CtaKeywords[j]);
    }
  }

  /** The CTA test already lower-cases, so lower-casing the text first changes nothing. */
  lemma CtaCaseInsensitive(s: string)
    ensures HasCta(Lower(s)) == HasCta(s)
  {
    LowerIdempotent(s);
  }

  /** A `?` survives lower-casing, so the question test does not depend on letter case either. */
  lemma QuestionCaseInsensitive(s: string)
    ensures HasQuestion(Lower(s)) == HasQuestion(s)
  {
    LowerIdempotent(s);
    var l := Lower(s);
    assert '?' in l <==> '?' in s by {
      if '?' in l {
        var d :| 0 <= d < |l| && l[d] == '?';
      }
      if '?' in s {
        var d :| 0 <= d < |s| && s[d] == '?';
        assert l[d] == '?';
      }
    }
  }

  /** A substring of `a` is a substring of any text that contains `a`. */
  lemma ContainsConcat(a: string, b: string, w: string)
    requires Contains(a, w)
    ensures Contains(a + b, w) && Contains(b + a, w)
  {
    var k: nat :| StartsAt(a, k, w);
    assert (a + b)[k..k + |w|] == a[k..k + |w|];
    assert StartsAt(a + b, k, w);
    assert (b + a)[|b| + k..|b| + k + |w|] == a[k..k + |w|];
    assert StartsAt(b + a, |b| + k, w);
  }

  /** A keyword occurrence stays one when text is added before or after it. */
  lemma CtaExtends(s: string, t: string)
    requires HasCta(s)
    ensures HasCta(s + t) && HasCta(t + s)
  {
    var j :| 0 <= j < |CtaKeywords| && Contains(Lower(s), CtaKeywords[j]);
    LowerConcat(s, t);
    LowerConcat(t, s);
    ContainsConcat(Lower(s), Lower(t), CtaKeywords[j]);
  }

  /** Keywords are substrings, not words: "unlikely" counts as holding "like". */
  lemma CtaMatchesInsideWords()
    ensures HasCta("unlikely")
  {
    assert Lower("unlikely") == "unlikely";
    assert StartsAt("unlikely", 2, "like");
    assert CtaKeywords[12] == "like";
  }

  /** Question words are prefixes, not words: "However" counts as a question. */
  lemma QuestionMatchesPrefixes()
    ensures HasQuestion("However, it works.")
  {
    assert Lower("However, it works.")[..3] == "how";
    assert StartsAt(Lower("However, it works."), 0, QuestionWords[2]);
  }
}
