# LinkedIn post intelligence: preprocessing and feature derivation

This project models, in Dafny, how the LinkedIn Post Intelligence System turns raw posts into model inputs:

- the text cleaner (`TextCleaner`);
- the text feature extractor (`TextFeatureExtractor`);
- the engagement feature extractor (`EngagementFeatureExtractor`);
- the data preparation step of `DataLoader`.

The model also proves what these promise.

Modules:

- `Wrappers` holds `Option`, used for cells that may be missing (NaN).
- `Chars` defines the character classes. `\s`, `str.isspace()`, `str.split()` and `str.strip()` use Python's exact whitespace set. `\w`, `str.isupper()` and `str.lower()` are ASCII only. The emoji set uses the six literal code-point ranges.
- `Patterns` defines each regular expression the pipeline uses as an alternation of "literal, then one or more characters of a class". On top of that it defines `re.findall` and `re.sub` as the left-to-right, non-overlapping, greedy scan Python performs. It proves generic facts about them: what each match is, length bounds, what deleting or collapsing runs does, and that findall comes back empty exactly when the pattern matches nowhere.
- `Occurrences` states what `re.findall` and `re.sub` do with the hashtag, mention and URL patterns position by position on the text, independently of the scanner:
  - where each match stands;
  - that matches never overlap;
  - that every place the pattern matches is inside a match;
  - which characters survive deletion;
  - that deletion leaves nothing for the pattern to find.
- `Splitting` defines `str.split()` as the findall of `\S+` and `' '.join`. It proves that the words are counted by their start positions, that joining words and splitting again gives them back, and that lower-casing works word by word.
- `TextCleaner` covers `clean_text` (URL and mention removal, whitespace collapsing, lower-casing, stripping), `clean_batch`, `remove_emojis`, `extract_hashtags` and `count_hashtags`.
- `TextFeatures` covers the 13-feature record of `extract_features`, its helpers and `extract_batch_features`.
- `Table` holds the row schema of the posts table and the High/Medium/Low label.
- `EngagementFeatures` covers:
  - the weighted score `likes + 2·comments + 3·shares`;
  - the three-way categorisation;
  - pandas' `quantile` with linear interpolation, on the sorted column at position `(n − 1)·q`;
  - `get_quantiles`;
  - the `+1`-smoothed ratios of `extract_engagement_features`.
- `DataLoader` covers `prepare_data`. It changes the caller's table in place, so it is a method over `array<Post>`, built from one method per step:
  - fill each count column;
  - compute the totals;
  - label the rows.

  The method is proved to leave exactly `Prepared(old(table[..]))`. Lemmas on `Prepared` state what the step promises:
  - counts are filled;
  - each total is the extractor's score;
  - every label is the one `categorize_engagement` gives against the thresholds computed once from the final total column, even though the source recomputes those quantiles for every row;
  - labels are monotone in the total;
  - a row with the largest total is High.

Numbers are exact: counts are `int` and quotients are `real`.

## Model

| member | source | states |
|---|---|---|
| Chars.Lower | src/preprocessing/text_cleaner.py:43-44 | lower-casing keeps the length, leaves no upper-case letter, changes only upper-case letters (by +32) and keeps whitespace where it was |
| Chars.LowerIdempotent | src/features/text_features.py:101 | lower-casing twice is lower-casing once |
| Chars.LowerConcat | src/features/text_features.py:101 | lower-casing works character by character: it distributes over concatenation |
| Patterns.Scan | src/features/text_features.py:46-52 | the left-to-right, non-overlapping scan of `re.findall`: at each position the first alternative that matches takes the longest run it can, and the scan resumes after it; a position with no match is skipped. Its properties are in ScanInLanguage, DeletedLength, FindAllBound and FindAllEmpty |
| Patterns.MatchLen | src/features/text_features.py:46-52 | the length of the match at a position, 0 when no alternative matches; a match never runs past the end of the text |
| Patterns.FindAll | src/features/text_features.py:46-52 | `re.findall(p, s)`, the scan from position 0; partners: ScanInLanguage, FindAllBound, FindAllEmpty, Splitting.FindAllConcat |
| Patterns.FindAllEmpty | src/features/text_features.py:46-52 | findall returns nothing exactly when the pattern matches at no position of the text |
| Patterns.FindAllHashtagsEmpty | src/features/text_features.py:46 | `re.findall(r'#\w+', s)` is empty exactly when no `#` in the text is followed by a word character |
| Patterns.FindAllMentionsEmpty | src/features/text_features.py:52 | `re.findall(r'@\w+', s)` is empty exactly when no `@` in the text is followed by a word character |
| Patterns.FindAllUrlsEmpty | src/features/text_features.py:49 | `re.findall` of the URL pattern (`http\S+` or `www\S+`) is empty exactly when no `http` or `www` in the text is followed by a non-whitespace character |
| Patterns.Sub | src/preprocessing/text_cleaner.py:33-40 | `re.sub(p, repl, s)`: every match of the same scan as findall replaced by `repl`, every other character copied; partners: SubFromRun, DeletedLength, RunSubDeletes |
| Patterns.ScanInLanguage | src/preprocessing/text_cleaner.py:79 | every string `re.findall` returns is a whole match of one alternative of the pattern |
| Patterns.FindAllBound | src/features/text_features.py:46-52 | when every alternative's literal has at least n − 1 characters, findall returns at most `|s| / n` matches |
| Patterns.FindAllRunEmpty | src/features/text_features.py:85-97 | findall of a single-class `[..]+` pattern is empty exactly when no character of the class occurs |
| Patterns.MatchLenRun | src/preprocessing/text_cleaner.py:40 | a `[k]+` pattern matches exactly the maximal run of class k at the position |
| Patterns.SubFromRun | src/preprocessing/text_cleaner.py:40 | `re.sub` of a `[k]+` pattern replaces each maximal run of k |
| Patterns.RunSubSeparates | src/preprocessing/text_cleaner.py:40 | replacing every run of k by one character c of class k leaves only single c's as k-characters, never two adjacent |
| Patterns.RunSubKeepsOthers | src/preprocessing/text_cleaner.py:40 | replacing runs of k by k-characters keeps the other characters, in order |
| Patterns.RunSubDeletes | src/preprocessing/text_cleaner.py:75 | deleting every run of k is filtering out k |
| Patterns.RunSubShrinks | src/preprocessing/text_cleaner.py:40 | replacing each run by one character never lengthens the text |
| Patterns.DeletedLength | src/preprocessing/text_cleaner.py:33-37 | `re.sub(p, '', s)` is shorter than `s` by exactly the total length of what `re.findall(p, s)` returns |
| Occurrences.MatchesLocated | src/features/text_features.py:46-52 | every match `re.findall` returns is the slice of the text at its start position; the start positions increase and each match ends no later than the next one starts |
| Occurrences.MatchCovered | src/features/text_features.py:46-52 | every position where the pattern matches lies inside one of the matches `re.findall` returns |
| Occurrences.SubUnchanged | src/preprocessing/text_cleaner.py:33-37 | where the pattern matches at no position, `re.sub` leaves the text unchanged |
| Occurrences.NothingFoundUnchanged | src/preprocessing/text_cleaner.py:33-37 | a text in which `re.findall` finds nothing comes out of `re.sub` unchanged |
| Occurrences.LedMatchLen | src/features/text_features.py:46 | a one-character-led pattern such as `#\w+` matches exactly where that character is followed by a class character, and takes the whole class run after it |
| Occurrences.ScanIsTags | src/features/text_features.py:46 | when the leading character is outside the class, as `#` and `@` are outside `\w`, findall returns every tag read off position by position: one per leading character followed by a class character, none lost to an earlier match |
| Occurrences.StartsAreLedPositions | src/features/text_features.py:46 | under the same condition, the matches start exactly at the positions of the leading character that are followed by a class character |
| Occurrences.TagsCount | src/features/text_features.py:46 | there are as many tags as tag positions |
| Occurrences.LedFound | src/features/text_features.py:46 | every position where the leading character is followed by a class character is a tag position |
| Occurrences.SubIsUntagged | src/preprocessing/text_cleaner.py:37 | deleting the matches of `@\w+` drops each `@` that is followed by a word character, together with the word characters after it, and keeps every other character in order |
| Occurrences.UntaggedClean | src/preprocessing/text_cleaner.py:37 | after that deletion no `@` is followed by a word character |
| Occurrences.UrlMatchLen | src/features/text_features.py:49 | `http\S+\|www\S+` matches exactly at a URL start and takes the rest of the word |
| Occurrences.UrlTakesRun | src/preprocessing/text_cleaner.py:33 | both the feature pattern and the cleaner's three-alternative pattern match exactly at URL starts and take the rest of the word |
| Occurrences.ScanIsRunTails | src/features/text_features.py:49 | a pattern that takes the rest of the word where it matches finds, in each word, the part from the word's first match position on |
| Occurrences.ScanIsUrlTails | src/features/text_features.py:49 | `re.findall` of the URL pattern returns, for each word holding a URL start, the word from its first URL start on |
| Occurrences.SubIsRunCut | src/preprocessing/text_cleaner.py:33 | deleting the matches of such a pattern cuts each word at its first match position and keeps whitespace and everything before the cut |
| Occurrences.SubIsUrlCut | src/preprocessing/text_cleaner.py:33 | the cleaner's URL deletion cuts each word at its first URL start |
| Occurrences.UrlCutClean | src/preprocessing/text_cleaner.py:33 | after cutting, no `http` or `www` is followed by a non-whitespace character |
| Splitting.Words | src/features/text_features.py:36 | `str.split()` with no argument is the findall of `\S+`: the maximal runs of non-whitespace characters, in order; partners: WordCount, WordsJoin, WordsLower, TextFeatures.WordsSpec |
| Splitting.FindAllConcat | src/features/text_features.py:36 | for a single-class pattern, when no run straddles the joint, findall over `a + b` is findall over `a` followed by findall over `b` |
| Splitting.WordCount | src/features/text_features.py:36 | the number of words is the number of positions where a non-whitespace character stands at the start or right after whitespace: no word is merged or lost |
| Splitting.WordsJoin | src/preprocessing/text_cleaner.py:40-47 | splitting `' '.join(ws)` gives back `ws` for any non-empty whitespace-free words: the round trip of join and split |
| Splitting.WordsLower | src/preprocessing/text_cleaner.py:40-44 | the words of the lower-cased text are the lower-cased words of the text |
| Patterns.UrlAlternativeRedundant | src/preprocessing/text_cleaner.py:33 | the cleaner's `https\S+` alternative never decides a match: its URL pattern matches exactly what `http\S+|www\S+` matches |
| TextCleaner.Strip | src/preprocessing/text_cleaner.py:47 | `strip()` gives the middle slice that neither starts nor ends with whitespace, and only whitespace is cut on either side |
| TextCleaner.TrailLenSpec | src/preprocessing/text_cleaner.py:47 | the trailing run counted is whitespace and is maximal |
| TextCleaner.Collapse | src/preprocessing/text_cleaner.py:40 | `re.sub(r'\s+', ' ', s)`; partners: CollapseSpec and CollapseWords |
| TextCleaner.CollapseSpec | src/preprocessing/text_cleaner.py:40 | after `re.sub(r'\s+', ' ', ..)` every whitespace character is a single blank, the non-whitespace characters are unchanged in order, and the text is no longer |
| TextCleaner.CollapseWords | src/preprocessing/text_cleaner.py:40 | collapsing every whitespace run to one blank leaves `split()` of the text unchanged: words are neither merged nor split |
| TextCleaner.StripWords | src/preprocessing/text_cleaner.py:47 | stripping leaves `split()` of the text unchanged |
| TextCleaner.JoinWords | src/preprocessing/text_cleaner.py:40-47 | a text with no whitespace at either end whose whitespace is single blanks is `' '.join` of its own words |
| TextCleaner.LowerWithout | src/preprocessing/text_cleaner.py:43-44 | lower-casing and dropping whitespace commute |
| TextCleaner.StripKeepsOthers | src/preprocessing/text_cleaner.py:47 | stripping removes only whitespace |
| TextCleaner.Normalised | src/preprocessing/text_cleaner.py:31-44 | the text after URL removal, mention removal, whitespace collapsing and lower-casing, each step taken only when its switch is on; partner: NormalisedShape |
| TextCleaner.NormalisedShape | src/preprocessing/text_cleaner.py:31-44 | before the final strip, whitespace is single blanks and, with `lowercase`, there is no upper-case letter |
| TextCleaner.CleanText | src/preprocessing/text_cleaner.py:18-49 | a value that is not a string cleans to "" |
| TextCleaner.CleanTextShape | src/preprocessing/text_cleaner.py:18-49 | the cleaned text has no leading or trailing whitespace and no two adjacent whitespace characters, its whitespace is single blanks, and with `lowercase` on it has no upper-case letter |
| TextCleaner.CleanTextKeepsText | src/preprocessing/text_cleaner.py:31-47 | with URL and mention removal off, the non-whitespace characters of the output are those of the input in order (lower-cased when `lowercase` is on) |
| TextCleaner.CleanTextJoinsWords | src/preprocessing/text_cleaner.py:31-47 | with URL and mention removal off, `clean_text(s)` is `' '.join(s.split())`, with each word lower-cased when `lowercase` is on |
| TextCleaner.CleanTextShrinks | src/preprocessing/text_cleaner.py:31-47 | cleaning never makes a text longer |
| TextCleaner.CleanBatch | src/preprocessing/text_cleaner.py:51-61 | one cleaned text per input, in order, each equal to `clean_text` of its input |
| TextCleaner.RemoveEmojis | src/preprocessing/text_cleaner.py:63-75 | the result is the input with every emoji character dropped and every other character kept in order; it contains no emoji |
| TextCleaner.HashtagsWellFormed | src/preprocessing/text_cleaner.py:77-79 | every extracted tag is `#` followed by one or more word characters |
| TextCleaner.ExtractHashtags | src/preprocessing/text_cleaner.py:77-79 | every tag is well formed, the tags together are no longer than the text, and there are none exactly when no `#` is followed by a word character; the tags are exactly those read off the text position by position, one for each `#` directly followed by a word character, running over all the word characters after it |
| TextCleaner.HashtagsLocated | src/preprocessing/text_cleaner.py:77-79 | the k-th tag is the text at the k-th position of a `#` directly followed by a word character; these positions increase, the tags do not overlap, and every such `#` starts a tag |
| TextCleaner.CountHashtags | src/preprocessing/text_cleaner.py:81-83 | the count is the number of extracted tags, which is the number of `#`s directly followed by a word character, and at most half the text length |
| TextCleaner.UrlsRemoved | src/preprocessing/text_cleaner.py:33 | after the URL deletion, the URL pattern finds nothing in the text |
| TextCleaner.MentionsRemoved | src/preprocessing/text_cleaner.py:37 | after the mention deletion, the mention pattern finds nothing in the text |
| TextCleaner.RemovalKeeps | src/preprocessing/text_cleaner.py:33-37 | URL deletion cuts each word at its first URL start and keeps everything else; mention deletion drops each `@` that is followed by a word character, together with the word characters after it, and keeps everything else in order |
| TextFeatures.ExtractFeatures | src/features/text_features.py:22-63 | the 13 features of one text, each computed as the source computes it; partners: EmptyTextFeatures, CountBounds, RatioBounds, WordsCounted, CountsFind, QuestionFlag, CtaFlag |
| TextFeatures.WordsCounted | src/features/text_features.py:36 | the word count is the number of word starts in the text |
| TextFeatures.CountsFind | src/features/text_features.py:46-52 | each of the hashtag, URL and mention counts is 0 exactly when its pattern matches at no position of the text |
| TextFeatures.CountsOccurrences | src/features/text_features.py:46-52 | the hashtag count is the number of `#`s directly followed by a word character; the mention count is the number of such `@`s; the URL count is the number of words that hold a URL start |
| TextFeatures.HashtagCounted | src/features/text_features.py:46 | a `#` directly followed by any word character gives a positive hashtag count, wherever it stands in the text |
| TextFeatures.CharCount | src/features/text_features.py:37-42 | `str.count(c)` is at most the length, and 0 exactly when `c` does not occur |
| TextFeatures.SpacePartition | src/features/text_features.py:36 | every character is either whitespace or not, so the two filtered parts add up to the length |
| TextFeatures.WordsSpec | src/features/text_features.py:36 | `split()` words are non-empty runs of non-whitespace characters that together hold every non-whitespace character, and there are none exactly when the text is all whitespace |
| TextFeatures.AverageSpec | src/features/text_features.py:81-83 | the average times the count is the total, and items of length 1 or more average 1 or more |
| TextFeatures.AvgWordLength | src/features/text_features.py:78-83 | the mean word length, 0 for a text without words; partner: AvgWordLengthSpec |
| TextFeatures.AvgWordLengthSpec | src/features/text_features.py:78-83 | the average is 0 without words; the average times the word count is the number of non-whitespace characters; with words it is at least 1 |
| TextFeatures.QuotientSpec | src/features/text_features.py:116 | the true quotient of two counts times the divisor is the dividend; it lies in [0, 1] when the dividend is no larger and is 0 exactly when the dividend is |
| TextFeatures.CountEmojis | src/features/text_features.py:85-97 | the number of emoji runs is at most the length, and 0 exactly when no emoji occurs |
| TextFeatures.ContainsFrom | src/features/text_features.py:102 | the substring test from index i holds exactly when the word occurs at some position from i on |
| TextFeatures.Contains | src/features/text_features.py:102 | Python's `w in t` holds exactly when `w` occurs at some position of `t` |
| TextFeatures.UpperCount | src/features/text_features.py:115 | the number of upper-case letters is at most the length, and 0 exactly when there is none |
| TextFeatures.UppercaseRatio | src/features/text_features.py:111-116 | the upper-case letters over the length, 0 for the empty text; partner: UppercaseRatioSpec |
| TextFeatures.UppercaseRatioSpec | src/features/text_features.py:111-116 | the upper-case ratio lies in [0, 1] and is 0 exactly when no letter is upper case (so 0 for the empty text) |
| TextFeatures.ExtractBatch | src/features/text_features.py:65-76 | one feature row per text, in input order, each equal to `extract_features` of its text |
| TextFeatures.EmptyTextFeatures | src/features/text_features.py:32-63 | the empty text has every feature 0 (both flags, both ratios included) except the line count, which is 1 |
| TextFeatures.CountBounds | src/features/text_features.py:35-58 | at least one line; no more words than characters; flags 0 or 1; emoji runs at most the length; hashtags and mentions at most half of it, URLs at most a quarter |
| TextFeatures.RatioBounds | src/features/text_features.py:38-61 | the average word length times the word count is at most the text length, and the upper-case ratio lies in [0, 1] |
| TextFeatures.HasQuestion | src/features/text_features.py:104-109 | a `?` in the text, or the lower-cased text starting with one of the seven question words; partners: QuestionFlag, QuestionCaseInsensitive, QuestionMatchesPrefixes |
| TextFeatures.HasCta | src/features/text_features.py:99-102 | some call-to-action keyword occurs in the lower-cased text; partners: CtaFlag, CtaCaseInsensitive, CtaExtends, CtaMatchesInsideWords |
| TextFeatures.QuestionFlag | src/features/text_features.py:104-109 | `has_question` is 1 exactly when the text holds a `?` or its lower-cased form starts with a question word; a `?` always sets it |
| TextFeatures.CtaFlag | src/features/text_features.py:99-102 | `has_cta` is 1 exactly when some keyword occurs at some position of the lower-cased text |
| TextFeatures.CtaCaseInsensitive | src/features/text_features.py:99-102 | lower-casing the text first does not change the CTA flag |
| TextFeatures.QuestionCaseInsensitive | src/features/text_features.py:104-109 | lower-casing the text first does not change the question flag |
| TextFeatures.ContainsConcat | src/features/text_features.py:102 | a substring of a text stays one when text is added before or after it |
| TextFeatures.CtaExtends | src/features/text_features.py:99-102 | a text with a call to action keeps it when text is added before or after it |
| TextFeatures.CtaMatchesInsideWords | src/features/text_features.py:14-18 | keywords match inside words: "unlikely" counts as holding "like" |
| TextFeatures.QuestionMatchesPrefixes | src/features/text_features.py:104-109 | question words match as prefixes: a text starting "However" counts as a question |
| EngagementFeatures.Score | src/features/engagement_features.py:13-34 | `likes·1 + comments·2 + shares·3`, with the weights of the constructor; partners: ScoreMonotone, ScoreExample, DataLoader.TotalAgrees |
| EngagementFeatures.ScoreMonotone | src/features/engagement_features.py:13-34 | the score never falls when a count grows, and is not negative for counts that are not negative |
| EngagementFeatures.ScoreExample | src/features/engagement_features.py:32-34 | 100 likes, 10 comments and 5 shares score 135 |
| EngagementFeatures.Categorize | src/features/engagement_features.py:36-52 | High exactly when score ≥ high; Medium exactly when medium ≤ score < high; Low exactly when score is below both; ties go up |
| EngagementFeatures.CategorizeMonotone | src/features/engagement_features.py:47-52 | a larger score never gets a lower label, whatever the thresholds |
| EngagementFeatures.Insert | src/features/engagement_features.py:96-97 | insertion into a sorted column keeps it sorted, adds exactly one copy of the value and starts with the smaller of the value and the old head |
| EngagementFeatures.Sort | src/features/engagement_features.py:96-97 | the column `quantile` interpolates on is sorted and a permutation of the column |
| EngagementFeatures.Min | src/features/engagement_features.py:96-97 | the minimum is a value of the column and no larger than any |
| EngagementFeatures.Max | src/features/engagement_features.py:96-97 | the maximum is a value of the column and no smaller than any |
| EngagementFeatures.Position | src/features/engagement_features.py:96-97 | the interpolation position `(n − 1)·q` lies in [0, n − 1] |
| EngagementFeatures.Floor | src/features/engagement_features.py:96-97 | the lower neighbour index is the integer part of the position |
| EngagementFeatures.Lerp | src/features/engagement_features.py:96-97 | linear interpolation lies between its two ends |
| EngagementFeatures.SortEnds | src/features/engagement_features.py:96-97 | the sorted column starts at the minimum and ends at the maximum |
| EngagementFeatures.Interpolate | src/features/engagement_features.py:96-97 | the value at a fractional position of a sorted column, between its two neighbouring entries; partners: InterpolateBounds, InterpolateAtEntry, InterpolateMonotone |
| EngagementFeatures.InterpolateBounds | src/features/engagement_features.py:96-97 | interpolation on a sorted column lies between its first and last entry |
| EngagementFeatures.InterpolateAtEntry | src/features/engagement_features.py:96-97 | at a whole-numbered position, interpolation gives that entry |
| EngagementFeatures.InterpolateMonotone | src/features/engagement_features.py:96-97 | interpolating further along a sorted column never gives less |
| EngagementFeatures.Quantile | src/features/engagement_features.py:96-97 | `Series.quantile(q)` with linear interpolation: the sorted column at position `(n − 1)·q`; partners: QuantileBounds, QuantileAtEntry, QuantileEnds, QuantileMonotone |
| EngagementFeatures.QuantileBounds | src/features/engagement_features.py:96-97 | every quantile lies between the column's minimum and maximum |
| EngagementFeatures.QuantileAtEntry | src/features/engagement_features.py:96-97 | when `(n − 1)·q` is a whole number k, the quantile is the k-th smallest value |
| EngagementFeatures.QuantileEnds | src/features/engagement_features.py:96-97 | the 0 quantile is the minimum and the 1 quantile the maximum |
| EngagementFeatures.QuantileMonotone | src/features/engagement_features.py:96-97 | a higher q never gives a smaller quantile |
| EngagementFeatures.PositionMonotone | src/features/engagement_features.py:96-97 | a higher q never gives an earlier position |
| EngagementFeatures.LerpMonotone | src/features/engagement_features.py:96-97 | moving further along the segment never moves back |
| EngagementFeatures.Present | src/features/engagement_features.py:96-97 | the values `quantile` looks at are exactly the column's cells that are not missing |
| EngagementFeatures.PresentCounts | src/features/engagement_features.py:96-97 | each value occurs among the present values exactly as often as it occurs as a cell of the column: no value is lost or duplicated |
| EngagementFeatures.GetQuantiles | src/features/engagement_features.py:84-98 | the 0.67 quantile as `high` and the 0.33 quantile as `medium`; partners: GetQuantilesSpec, MaxIsHigh |
| EngagementFeatures.GetQuantilesSpec | src/features/engagement_features.py:84-98 | min ≤ medium ≤ high ≤ max for every column with a value |
| EngagementFeatures.MaxIsHigh | src/features/engagement_features.py:95-96 | a largest value of the column reaches the `high` threshold |
| EngagementFeatures.RowScore | src/features/engagement_features.py:67-71 | the row's `calculate_engagement_score`, missing when one of its counts is; partner: DataLoader.TotalAgrees |
| EngagementFeatures.SmoothedRatio | src/features/engagement_features.py:74-80 | `a / (b + 1)`, missing when a cell is missing or the divisor is 0; partners: EngageRowSpec, ZeroRow |
| EngagementFeatures.EngageRow | src/features/engagement_features.py:64-80 | one output row: the input row with its total set, and the four smoothed ratios; partners: EngageRowSpec, ZeroRow |
| EngagementFeatures.ExtractEngagementFeatures | src/features/engagement_features.py:54-82 | one output row per input row, in order, each derived from its own input row only |
| EngagementFeatures.EngageRowSpec | src/features/engagement_features.py:64-80 | each output row keeps every input column and carries the row's score as its total; for counts that are present and not negative, all four ratios are defined and not negative, and the intensity is the comment ratio plus the share ratio |
| EngagementFeatures.ZeroRow | src/features/engagement_features.py:67-80 | a row of zero counts has total 0 and all four ratios 0 |
| Table.TotalColumn | src/preprocessing/data_loader.py:55 | the column holds each row's total, in row order |
| DataLoader.SetCell | src/preprocessing/data_loader.py:40-42 | writing one count cell changes that cell only |
| DataLoader.FillCell | src/preprocessing/data_loader.py:40-42 | `fillna(0)` keeps a present count and turns a missing one into 0; the text, the other counts, the total and the label stay as they were |
| DataLoader.FillColumn | src/preprocessing/data_loader.py:40-42 | the whole column is filled row by row, with rows kept in order |
| DataLoader.FillNa | src/preprocessing/data_loader.py:40-42 | the table afterwards is the old table with that column filled |
| DataLoader.TotalCell | src/preprocessing/data_loader.py:45 | `likes + comments*2 + shares*3` on one row, missing when a count is; partner: TotalAgrees |
| DataLoader.TotalAgrees | src/preprocessing/data_loader.py:45 | the total `prepare_data` writes is `calculate_engagement_score` of the row's counts, and it is present exactly when all three counts are |
| DataLoader.WithTotals | src/preprocessing/data_loader.py:45 | each row gets its own total; nothing else changes |
| DataLoader.ComputeTotals | src/preprocessing/data_loader.py:45 | the table afterwards is the old table with every total computed |
| DataLoader.CategorizeRow | src/preprocessing/data_loader.py:52-60 | the per-row callback: both quantiles are taken afresh from the column, and a missing score or a column with no value gives Low; partners: CategorizeRowAgrees, PreparedLabels |
| DataLoader.CategorizeRowAgrees | src/preprocessing/data_loader.py:52-60 | the per-row callback, which recomputes both quantiles, gives the label `categorize_engagement` gives against `get_quantiles` of the same column |
| DataLoader.WithLabels | src/preprocessing/data_loader.py:48 | each row gets the label of its own total against the given column; nothing else changes |
| DataLoader.LabelRows | src/preprocessing/data_loader.py:48 | all labels are computed from the completed total column before any is written; the table afterwards is the old one labelled against its own total column |
| DataLoader.Filled | src/preprocessing/data_loader.py:40-42 | after the three fills no count is missing |
| DataLoader.Prepared | src/preprocessing/data_loader.py:40-48 | the prepared table has the same number of rows, and every row has a total and a label |
| DataLoader.PrepareData | src/preprocessing/data_loader.py:29-50 | the caller's table is updated in place to exactly `Prepared` of its old contents |
| DataLoader.FilledRow | src/preprocessing/data_loader.py:40-42 | after the fills, each row keeps its text and its present counts, and its missing counts are 0 |
| DataLoader.PreparedCounts | src/preprocessing/data_loader.py:40-42 | `prepare_data` keeps the rows and their order and text; a present count is unchanged and a missing one becomes 0 |
| DataLoader.PreparedTotals | src/preprocessing/data_loader.py:45 | every prepared row has all three counts and carries `calculate_engagement_score` of them as its total |
| DataLoader.LabelsKeepTotals | src/preprocessing/data_loader.py:45-48 | labelling leaves the total column the labels were computed from unchanged |
| DataLoader.TotalsPresent | src/preprocessing/data_loader.py:45 | after the totals step every row's total is present, so the column has values to take quantiles of |
| DataLoader.PreparedLabels | src/preprocessing/data_loader.py:45-57 | every label equals `categorize_engagement(total, get_quantiles(final total column))`: the per-row recomputation is one global computation |
| DataLoader.PreparedMonotone | src/preprocessing/data_loader.py:53-60 | a row with a larger total never gets a lower label |
| DataLoader.PreparedMaxHigh | src/preprocessing/data_loader.py:55-56 | a row with the largest total of the table is labelled High |

## Left out

- `DataLoader.load_raw_data` and `DataLoader.save_processed_data` are left out: they are Excel and CSV file I/O.
- `DataLoader.split_data` is left out. It delegates to scikit-learn's `train_test_split`, whose shuffling is not part of this model.
- The browser frontend (frontend/js/script.js), the driver script (src/data_processing_pipeline.py) and the package `__init__` re-exports are left out: they are UI, sequencing and printing only.
- Floating point is not modelled. Counts and scores are integers, and quotients, ratios and quantiles are exact reals. The thresholds 0.67 and 0.33 are the exact decimals, with no binary rounding.
- EngagementFeatures.GetQuantiles and EngagementFeatures.Quantile require at least one present value. For a column that is empty or all missing, pandas returns NaN thresholds instead, and that case is not modelled for them. DataLoader.CategorizeRow does handle it: every comparison with NaN is false, so the label is Low.
- EngagementFeatures.SmoothedRatio: a denominator of zero (a count of −1) gives no value (`None`). pandas gives ±inf or NaN instead.
- Chars.IsWordChar, Chars.IsUpper and Chars.Lower are ASCII only. Python's `\w`, `isupper()` and `lower()` are Unicode-wide, and `lower()` can even change a string's length. Whitespace, by contrast, is Python's exact `isspace()` set.
- The emoji class uses the six ranges exactly as written. The last range, U+24C2 to U+1F251, also covers many characters that are not emoji, such as CJK text, and the model counts those as emoji just as the code does.
- TextCleaner.CleanText: the concrete example from the smoke script is not proved. It is "Check out https://example.com and follow @username! #AI", which cleans to "check out and follow ! #ai". Evaluating the scanner on a literal of that length is beyond the verifier's resource limit. The general shape properties above are proved instead.
- TextFeatures.ExtractFeatures takes a string. Python raises an error for a non-string text at `len(text)`, and that error path is not modelled.
- TextCleaner.UrlsRemoved and TextCleaner.MentionsRemoved are stated on the text right after each deletion, not on the cleaned output. The patterns are case-sensitive, so an upper-case `HTTPS://x` survives the deletion. Lower-casing then turns it into a URL.
- The `re.MULTILINE` flag at text_cleaner.py:33 is not modelled. It only changes `^` and `$`, which the pattern does not use.
- Table.Post always has the count, total and label columns. The `KeyError` pandas raises for a missing column is not modelled.
- DataLoader.CategorizeRow takes an integer total, or none for a missing one. The source's `float` argument only ever receives the integer totals computed at data_loader.py:45.
