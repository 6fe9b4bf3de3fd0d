/**
 * Python's `str.split()` with no argument, which is `re.findall(r'\S+', s)`:
 * where the words of a text start, how splitting treats a concatenation,
 * and that lower-casing a text lower-cases its words.
 */
module Splitting {
  import opened Chars
  import opened Patterns

  /** `str.split()` with no argument: the maximal runs of non-whitespace characters, in order. */
  function Words(s: string): seq<string> {
    FindAll(Token, s)
  }

  // ---------------------------------------------------------------------------
  // Single-class patterns, stated on the class alone
  // ---------------------------------------------------------------------------

  /** `re.findall` of a single-class pattern `[k]+` from `s[i]` on: the maximal runs of class `k`. */
  function RunScan(s: string, i: nat, k: char -> bool): seq<string>
    requires i <= |s|
    decreases |s| - i
  {
    if i == |s| then []
    else
      var n := RunLen(s, i, k);
      if n > 0 then [s[i..i + n]] + RunScan(s, i + n, k) else RunScan(s, i + 1, k)
  }

  /** At a run, the run is taken and the scan resumes after it. */
  lemma RunScanOnRun(s: string, i: nat, k: char -> bool)
    requires i < |s| && RunLen(s, i, k) > 0
    ensures RunScan(s, i, k) == [s[i..i + RunLen(s, i, k)]] + RunScan(s, i + RunLen(s, i, k), k)
  {
  }

  /** Elsewhere the character is outside the class and skipped. */
  lemma RunScanOnOther(s: string, i: nat, k: char -> bool)
    requires i < |s| && RunLen(s, i, k) == 0
    ensures RunScan(s, i, k) == RunScan(s, i + 1, k)
    ensures !k(s[i])
  {
  }

  /** For a single-class pattern, `re.findall` is the class-only scan. */
  lemma {:induction false} ScanIsRunScan(p: Pattern, s: string, i: nat)
    requires IsRun(p) && i <= |s|
    ensures Scan(p, s, i) == RunScan(s, i, p[0].cls)
    decreases |s| - i
  {
    if i < |s| {
      var n := RunLen(s, i, p[0].cls);
      if n > 0 {
        ScanIsRunScan(p, s, i + n);
        ScanIsRunScanOnRun(p, s, i);
      } else {
        ScanIsRunScan(p, s, i + 1);
        ScanIsRunScanOnOther(p, s, i);
      }
    }
  }

  lemma ScanIsRunScanOnRun(p: Pattern, s: string, i: nat)
    requires IsRun(p) && i < |s| && RunLen(s, i, p[0].cls) > 0
    requires Scan(p, s, i + RunLen(s, i, p[0].cls)) == RunScan(s, i + RunLen(s, i, p[0].cls), p[0].cls)
    ensures Scan(p, s, i) == RunScan(s, i, p[0].cls)
  {
    MatchLenRun(p, s, i);
    ScanOnMatch(p, s, i);
    RunScanOnRun(s, i, p[0].cls);
  }

  lemma ScanIsRunScanOnOther(p: Pattern, s: string, i: nat)
    requires IsRun(p) && i < |s| && RunLen(s, i, p[0].cls) == 0
    requires Scan(p, s, i + 1) == RunScan(s, i + 1, p[0].cls)
    ensures Scan(p, s, i) == RunScan(s, i, p[0].cls)
  {
    MatchLenRun(p, s, i);
    ScanOnMiss(p, s, i);
    RunScanOnOther(s, i, p[0].cls);
  }

  /** `s` holds `t[j..]` from offset `o + j` to its end. */
  predicate Holds(s: string, t: string, o: nat, j: nat) {
    && |s| == o + |t|
    && j <= |t|
    && forall d :: j <= d < |t| ==> s[o + d] == t[d]
  }

  lemma HoldsLater(s: string, t: string, o: nat, j: nat, j': nat)
    requires Holds(s, t, o, j) && j <= j' <= |t|
    ensures Holds(s, t, o, j')
  {
  }

  /** A run at `t[j]` is the same run in a text that holds `t` from offset `o` on. */
  lemma {:induction false} RunLenShift(s: string, t: string, o: nat, j: nat, k: char -> bool)
    requires Holds(s, t, o, j)
    ensures RunLen(s, o + j, k) == RunLen(t, j, k)
    decreases |t| - j
  {
    if j < |t| {
      RunLenShift(s, t, o, j + 1, k);
    }
  }

  lemma HoldsSlice(s: string, t: string, o: nat, j: nat, n: nat)
    requires Holds(s, t, o, j) && j + n <= |t|
    ensures s[o + j..o + j + n] == t[j..j + n]
  {
    var u, v := s[o + j..o + j + n], t[j..j + n];
    forall x | 0 <= x < n ensures u[x] == v[x] {
      assert s[o + (j + x)] == t[j + x];
    }
  }

  /** Scanning the part of `s` that holds `t` is scanning `t`. */
  lemma {:induction false} RunScanShift(s: string, t: string, o: nat, j: nat, k: char -> bool)
    requires Holds(s, t, o, j)
    ensures RunScan(s, o + j, k) == RunScan(t, j, k)
    decreases |t| - j
  {
    if j < |t| {
      var n := RunLen(t, j, k);
      if n > 0 {
        HoldsLater(s, t, o, j, j + n);
        RunScanShift(s, t, o, j + n, k);
        ShiftOnRun(s, t, o, j, k);
      } else {
        HoldsLater(s, t, o, j, j + 1);
        RunScanShift(s, t, o, j + 1, k);
        ShiftOnOther(s, t, o, j, k);
      }
    }
  }

  lemma ShiftOnRun(s: string, t: string, o: nat, j: nat, k: char -> bool)
    requires Holds(s, t, o, j) && j < |t| && RunLen(t, j, k) > 0
    requires RunScan(s, o + j + RunLen(t, j, k), k) == RunScan(t, j + RunLen(t, j, k), k)
    ensures RunScan(s, o + j, k) == RunScan(t, j, k)
  {
    var n := RunLen(t, j, k);
    RunLenShift(s, t, o, j, k);
    HoldsSlice(s, t, o, j, n);
    RunScanSameOnRun(s, t, o + j, j, n, k);
  }

  lemma ShiftOnOther(s: string, t: string, o: nat, j: nat, k: char -> bool)
    requires Holds(s, t, o, j) && j < |t| && RunLen(t, j, k) == 0
    requires RunScan(s, o + j + 1, k) == RunScan(t, j + 1, k)
    ensures RunScan(s, o + j, k) == RunScan(t, j, k)
  {
    RunLenShift(s, t, o, j, k);
    RunScanSameOnOther(s, t, o + j, j, k);
  }

  /** Two scans that find the same run go on alike. */
  lemma RunScanSameOnRun(s: string, t: string, i: nat, j: nat, n: nat, k: char -> bool)
    requires i < |s| && j < |t| && n > 0
    requires RunLen(s, i, k) == n && RunLen(t, j, k) == n
    requires s[i..i + n] == t[j..j + n]
    requires RunScan(s, i + n, k) == RunScan(t, j + n, k)
    ensures RunScan(s, i, k) == RunScan(t, j, k)
  {
    RunScanOnRun(s, i, k);
    RunScanOnRun(t, j, k);
  }

  /** Two scans that skip a character go on alike. */
  lemma RunScanSameOnOther(s: string, t: string, i: nat, j: nat, k: char -> bool)
    requires i < |s| && j < |t|
    requires RunLen(s, i, k) == 0 && RunLen(t, j, k) == 0
    requires RunScan(s, i + 1, k) == RunScan(t, j + 1, k)
    ensures RunScan(s, i, k) == RunScan(t, j, k)
  {
    RunScanOnOther(s, i, k);
    RunScanOnOther(t, j, k);
  }

  /** No run of class `k` goes across position `c` of `s`. */
  predicate CutAt(s: string, c: nat, k: char -> bool) {
    c == 0 || c >= |s| || !k(s[c - 1]) || !k(s[c])
  }

  /** A run starting before a cut stops at the cut, as it does in the text `a` cut there. */
  lemma {:induction false} RunLenPrefix(s: string, a: string, i: nat, k: char -> bool)
    requires i < |a| <= |s| && CutAt(s, |a|, k)
    requires forall d :: i <= d < |a| ==> s[d] == a[d]
    ensures RunLen(s, i, k) == RunLen(a, i, k)
    decreases |a| - i
  {
    if k(a[i]) && i + 1 < |a| {
      RunLenPrefix(s, a, i + 1, k);
    }
  }

  /** Scanning `s` from before a cut finds the runs of the text `a` before the cut, then those after it. */
  lemma {:induction false} RunScanPrefix(s: string, a: string, i: nat, k: char -> bool)
    requires i <= |a| <= |s| && CutAt(s, |a|, k)
    requires forall d :: i <= d < |a| ==> s[d] == a[d]
    ensures RunScan(s, i, k) == RunScan(a, i, k) + RunScan(s, |a|, k)
    decreases |a| - i
  {
    if i < |a| {
      var n := RunLen(a, i, k);
      RunLenPrefix(s, a, i, k);
      if n > 0 {
        RunScanPrefix(s, a, i + n, k);
        RunScanPrefixOnRun(s, a, i, k);
      } else {
        RunScanPrefix(s, a, i + 1, k);
        RunScanOnOther(s, i, k);
        RunScanOnOther(a, i, k);
      }
    }
  }

  lemma RunScanPrefixOnRun(s: string, a: string, i: nat, k: char -> bool)
    requires i < |a| <= |s| && RunLen(a, i, k) > 0
    requires forall d :: i <= d < |a| ==> s[d] == a[d]
    requires RunLen(s, i, k) == RunLen(a, i, k)
    requires RunScan(s, i + RunLen(a, i, k), k) == RunScan(a, i + RunLen(a, i, k), k) + RunScan(s, |a|, k)
    ensures RunScan(s, i, k) == RunScan(a, i, k) + RunScan(s, |a|, k)
  {
    var n := RunLen(a, i, k);
    RunScanOnRun(s, i, k);
    RunScanOnRun(a, i, k);
    assert s[i..i + n] == a[i..i + n];
    ConsAppend(a[i..i + n], RunScan(a, i + n, k), RunScan(s, |a|, k));
  }

  lemma ConsAppend(m: string, x: seq<string>, y: seq<string>)
    ensures [m] + (x + y) == ([m] + x) + y
  {
  }

  /** No run of class `k` straddles the joint of `a + b`. */
  predicate NoRunAcross(a: string, b: string, k: char -> bool) {
    a == [] || b == [] || !k(a[|a| - 1]) || !k(b[0])
  }

  /**
   * When no run straddles the joint, `re.findall` of a single-class pattern
   * over `a + b` is its result over `a` followed by its result over `b`.
   */
  lemma FindAllConcat(p: Pattern, a: string, b: string)
    requires IsRun(p) && NoRunAcross(a, b, p[0].cls)
    ensures FindAll(p, a + b) == FindAll(p, a) + FindAll(p, b)
  {
    var s, k := a + b, p[0].cls;
    assert CutAt(s, |a|, k);
    RunScanPrefix(s, a, 0, k);
    RunScanShift(s, b, |a|, 0, k);
    ScanIsRunScan(p, s, 0);
    ScanIsRunScan(p, a, 0);
    ScanIsRunScan(p, b, 0);
  }

  lemma {:induction false} RunLenWhole(m: string, i: nat, k: char -> bool)
    requires i <= |m| && AllIn(m, 0, k)
    ensures RunLen(m, i, k) == |m| - i
    decreases |m| - i
  {
    if i < |m| {
      RunLenWhole(m, i + 1, k);
    }
  }

  /** A non-empty string of class characters only is one single match. */
  lemma FindAllWhole(p: Pattern, m: string)
    requires IsRun(p) && |m| > 0 && AllIn(m, 0, p[0].cls)
    ensures FindAll(p, m) == [m]
  {
    RunLenWhole(m, 0, p[0].cls);
    ScanIsRunScan(p, m, 0);
    RunScanOnRun(m, 0, p[0].cls);
    assert m[0..|m|] == m;
  }

  /** A stretch without class characters is skipped by the scan. */
  lemma {:induction false} RunScanSkips(s: string, i: nat, j: nat, k: char -> bool)
    requires i <= j <= |s|
    requires forall d :: i <= d < j ==> !k(s[d])
    ensures RunScan(s, i, k) == RunScan(s, j, k)
    decreases j - i
  {
    if i < j {
      RunScanOnOther(s, i, k);
      RunScanSkips(s, i + 1, j, k);
    }
  }

  // ---------------------------------------------------------------------------
  // Words
  // ---------------------------------------------------------------------------

  /** The words are the maximal non-whitespace runs. */
  lemma WordsAreRuns(s: string)
    ensures Words(s) == RunScan(s, 0, IsNonSpace)
  {
    ScanIsRunScan(Token, s, 0);
  }

  /** A word starts at `s[d]`: a non-whitespace character at the start or after whitespace. */
  predicate WordStart(s: string, d: nat) {
    d < |s| && !IsSpace(s[d]) && (d == 0 || IsSpace(s[d - 1]))
  }

  /** Number of positions of `s[i..]` where a word starts. */
  function WordStarts(s: string, i: nat): nat
    requires i <= |s|
    decreases |s| - i
  {
    if i == |s| then 0 else (if WordStart(s, i) then 1 else 0) + WordStarts(s, i + 1)
  }

  /** Inside a run of non-whitespace no word starts. */
  lemma {:induction false} NoStartsInRun(s: string, i: nat, j: nat)
    requires 0 < i <= j <= |s|
    requires forall d :: i - 1 <= d < j ==> !IsSpace(s[d])
    ensures WordStarts(s, i) == WordStarts(s, j)
    decreases j - i
  {
    if i < j {
      NoStartsInRun(s, i + 1, j);
    }
  }

  /** From a position that is not inside a word, the scan finds one word per word start. */
  lemma {:induction false} CountsStarts(s: string, i: nat)
    requires i <= |s|
    requires i == 0 || i == |s| || IsSpace(s[i - 1]) || IsSpace(s[i])
    ensures |RunScan(s, i, IsNonSpace)| == WordStarts(s, i)
    decreases |s| - i
  {
    if i < |s| {
      var m := RunLen(s, i, IsNonSpace);
      if m > 0 {
        RunLenMaximal(s, i, IsNonSpace);
        CountsStarts(s, i + m);
        CountsOnWord(s, i);
      } else {
        CountsStarts(s, i + 1);
        CountsOnSpace(s, i);
      }
    }
  }

  /** At a word: it counts once, and no word starts inside it. */
  lemma CountsOnWord(s: string, i: nat)
    requires i < |s| && (i == 0 || IsSpace(s[i - 1])) && RunLen(s, i, IsNonSpace) > 0
    requires |RunScan(s, i + RunLen(s, i, IsNonSpace), IsNonSpace)| == WordStarts(s, i + RunLen(s, i, IsNonSpace))
    ensures |RunScan(s, i, IsNonSpace)| == WordStarts(s, i)
  {
    var m := RunLen(s, i, IsNonSpace);
    RunLenAllIn(s, i, IsNonSpace);
    RunScanOnRun(s, i, IsNonSpace);
    NoStartsInRun(s, i + 1, i + m);
  }

  /** At whitespace: nothing is counted. */
  lemma CountsOnSpace(s: string, i: nat)
    requires i < |s| && RunLen(s, i, IsNonSpace) == 0
    requires |RunScan(s, i + 1, IsNonSpace)| == WordStarts(s, i + 1)
    ensures |RunScan(s, i, IsNonSpace)| == WordStarts(s, i)
  {
    RunScanOnOther(s, i, IsNonSpace);
  }

  /**
   * `str.split()` returns one word for each position where a non-whitespace
   * character follows whitespace or the start of the text: its words are the
   * maximal runs, never pieces of one.
   */
  lemma WordCount(s: string)
    ensures |Words(s)| == WordStarts(s, 0)
  {
    WordsAreRuns(s);
    CountsStarts(s, 0);
  }

  // ---------------------------------------------------------------------------
  // Joining words
  // ---------------------------------------------------------------------------

  /** Every string of `ws` is a non-empty run of non-whitespace characters. */
  predicate AllWords(ws: seq<string>) {
    forall j :: 0 <= j < |ws| ==> |ws[j]| > 0 && AllIn(ws[j], 0, IsNonSpace)
  }

  /** `' '.join(ws)`. */
  function Join(ws: seq<string>): string {
    if ws == [] then "" else if |ws| == 1 then ws[0] else ws[0] + " " + Join(ws[1..])
  }

  lemma JoinCons(w: string, ws: seq<string>)
    requires ws != []
    ensures Join([w] + ws) == w + " " + Join(ws)
  {
    assert ([w] + ws)[1..] == ws;
  }

  /** A word followed by whitespace, or by nothing, is the first word of the text. */
  lemma WordsLead(w: string, t: string)
    requires |w| > 0 && AllIn(w, 0, IsNonSpace)
    requires t == [] || IsSpace(t[0])
    ensures Words(w + t) == [w] + Words(t)
  {
    FindAllConcat(Token, w, t);
    FindAllWhole(Token, w);
  }

  /** Splitting a word, a blank and a text gives the word, then the words of the text. */
  lemma WordsCons(w: string, t: string)
    requires |w| > 0 && AllIn(w, 0, IsNonSpace)
    ensures Words(w + " " + t) == [w] + Words(t)
  {
    var b := " " + t;
    assert w + " " + t == w + b;
    FindAllConcat(Token, w, b);
    FindAllConcat(Token, " ", t);
    FindAllWhole(Token, w);
    FindAllRunEmpty(Token, " ");
    assert Words(b) == Words(t);
  }

  /** `str.split()` undoes `' '.join` of words. */
  lemma {:induction false} WordsJoin(ws: seq<string>)
    requires AllWords(ws)
    ensures Words(Join(ws)) == ws
  {
    if ws == [] {
    } else if |ws| == 1 {
      FindAllWhole(Token, ws[0]);
    } else {
      var rest := ws[1..];
      WordsJoin(rest);
      WordsCons(ws[0], Join(rest));
      assert ws == [ws[0]] + rest;
    }
  }

  // ---------------------------------------------------------------------------
  // Lower-casing word by word
  // ---------------------------------------------------------------------------

  /** Every word lower-cased, in order. */
  function LowerEach(ws: seq<string>): (r: seq<string>)
    ensures |r| == |ws|
    ensures forall j :: 0 <= j < |r| ==> r[j] == Lower(ws[j])
  {
    seq(|ws|, j requires 0 <= j < |ws| => Lower(ws[j]))
  }

  lemma LowerEachCons(w: string, ws: seq<string>)
    ensures LowerEach([w] + ws) == [Lower(w)] + LowerEach(ws)
  {
  }

  /** Lower-casing keeps the non-whitespace runs where they are. */
  lemma {:induction false} RunLenLower(s: string, i: nat)
    requires i <= |s|
    ensures RunLen(Lower(s), i, IsNonSpace) == RunLen(s, i, IsNonSpace)
    decreases |s| - i
  {
    if i < |s| {
      RunLenLower(s, i + 1);
    }
  }

  lemma LowerSlice(s: string, i: nat, j: nat)
    requires i <= j <= |s|
    ensures Lower(s)[i..j] == Lower(s[i..j])
  {
  }

  lemma {:induction false} RunScanLower(s: string, i: nat)
    requires i <= |s|
    ensures RunScan(Lower(s), i, IsNonSpace) == LowerEach(RunScan(s, i, IsNonSpace))
    decreases |s| - i
  {
    if i < |s| {
      var n := RunLen(s, i, IsNonSpace);
      RunLenLower(s, i);
      if n > 0 {
        RunScanLower(s, i + n);
        RunScanOnRun(s, i, IsNonSpace);
        RunScanOnRun(Lower(s), i, IsNonSpace);
        LowerSlice(s, i, i + n);
        LowerEachCons(s[i..i + n], RunScan(s, i + n, IsNonSpace));
      } else {
        RunScanLower(s, i + 1);
        RunScanOnOther(s, i, IsNonSpace);
        RunScanOnOther(Lower(s), i, IsNonSpace);
      }
    }
  }

  /** The words of the lower-cased text are the lower-cased words. */
  lemma WordsLower(s: string)
    ensures Words(Lower(s)) == LowerEach(Words(s))
  {
    WordsAreRuns(s);
    WordsAreRuns(Lower(s));
    RunScanLower(s, 0);
  }
}
