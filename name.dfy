/**
 * The name extractor: a short capitalised line among the first ten lines of
 * the document, or else the words after a "name" label anywhere in it.
 */
module NameExtractor {
  import opened Wrappers
  import opened Text
  import opened Regex
  import opened Answers

  /** Lines containing one of these (in lower case) are resume headings, not names. */
  const ResumeHeadings: seq<string> := ["resume", "cv", "curriculum", "profile", "summary"]

  /** How many lines from the top of the document may hold the name. */
  const HeadLines := 10

  const NameLineFound := "Based on the document, the name appears to be: "
  const NameFieldFound := "The name is: "
  const NoName := CouldNotFind + "a clear name in the document."

  /** `word.isalpha()`. */
  predicate IsAlphaWord(w: string) {
    w != [] && forall k | 0 <= k < |w| :: IsAlpha(w[k])
  }

  /**
   * The test a stripped line passes to be taken as the name: one to four
   * words, every purely alphabetic word capitalised, and no resume heading
   * inside it.
   */
  predicate IsNameLine(line: string) {
    var words := Words(line);
    line != [] && |words| <= 4 && |words| >= 1 &&
    (forall k | 0 <= k < |words| :: IsAlphaWord(words[k]) ==> IsUpper(words[k][0])) &&
    !ContainsAny(Lower(line), ResumeHeadings)
  }

  /** A line of the document that, stripped, passes the name test. */
  predicate HoldsName(line: string) {
    IsNameLine(Strip(line))
  }

  /** Which lines pass the name test when stripped. */
  function NameMarks(lines: seq<string>): (marks: seq<bool>)
    ensures |marks| == |lines|
  {
    if lines == [] then [] else [HoldsName(lines[0])] + NameMarks(lines[1..])
  }

  lemma {:induction false} NameMarksAt(lines: seq<string>, k: nat)
    requires k < |lines|
    ensures NameMarks(lines)[k] == HoldsName(lines[k])
  {
    if k > 0 {
      NameMarksAt(lines[1..], k - 1);
    }
  }

  /** The first marked index from k on, among the first ten. */
  function NameLineFrom(marks: seq<bool>, k: nat): (r: Option<nat>)
    requires k <= |marks|
    ensures r.Some? ==> k <= r.value < HeadLines && r.value < |marks| && marks[r.value]
    decreases |marks| - k
  {
    if k == |marks| || k >= HeadLines then None
    else if marks[k] then Some(k)
    else NameLineFrom(marks, k + 1)
  }

  /** The first of the first ten lines that, stripped, passes the name test. */
  function NameLine(content: string): Option<string> {
    var lines := Lines(content);
    match NameLineFrom(NameMarks(lines), 0)
    case Some(k) => Some(Strip(lines[k]))
    case None => None
  }

  // ------------------------------------------- `name\s*:?\s*([A-Z][a-z]+(?:\s+[A-Z][a-z]+)*)`
  // The search ignores case, so both letter classes stand for any letter.

  /** `s[i..i + 4]` is `name` in any mix of cases. */
  predicate LabelWord(s: string, i: nat)
    requires i <= |s|
  {
    i + 4 <= |s| &&
    s[i] in "nN" && s[i + 1] in "aA" && s[i + 2] in "mM" && s[i + 3] in "eE"
  }

  /** `name\s*:?\s*` read from i ends at a. */
  ghost predicate LabelAt(s: string, i: nat, a: nat) {
    i + 4 <= a <= |s| && LabelWord(s, i) &&
    exists c | i + 4 <= c <= a ::
      RunIn(s, i + 4, c, Space) &&
      (RunIn(s, c, a, Space) || (c < a && s[c] == ':' && RunIn(s, c + 1, a, Space)))
  }

  /** `(?:\s+[A-Z][a-z]+)*` read from k ends at b. */
  ghost predicate MoreWords(s: string, k: nat, b: nat)
    decreases b - k
  {
    k <= b <= |s| &&
    (k == b ||
     exists m1, m2 | k < m1 && m1 + 2 <= m2 <= b ::
       RunIn(s, k, m1, Space) && RunIn(s, m1, m2, Letter) && MoreWords(s, m2, b))
  }

  /** `[A-Z][a-z]+(?:\s+[A-Z][a-z]+)*` read from a ends at b, its first word ending at e. */
  ghost predicate GroupReading(s: string, a: nat, e: nat, b: nat) {
    a + 2 <= e <= b <= |s| && RunIn(s, a, e, Letter) && MoreWords(s, e, b)
  }

  /** The whole pattern read from i, with its group spanning s[a..b]. */
  ghost predicate NameAt(s: string, i: nat, a: nat, b: nat) {
    LabelAt(s, i, a) && exists e :: GroupReading(s, a, e, b)
  }

  /** The end of one `\s+[A-Z][a-z]+` read at k, or k itself when there is none. */
  function WordAfter(s: string, k: nat): (e: nat)
    requires k <= |s|
    ensures k <= e <= |s|
  {
    var m := k + MaxRun(Space, s, k);
    var e := m + MaxRun(Letter, s, m);
    if k < m && m + 2 <= e then e else k
  }

  /** Where the repeated `\s+[A-Z][a-z]+` group stops when it starts at k. */
  function NameTail(s: string, k: nat): (e: nat)
    requires k <= |s|
    ensures k <= e <= |s|
    decreases |s| - k
  {
    var e := WordAfter(s, k);
    if e == k then k else NameTail(s, e)
  }

  /** Where `\s*:?\s*` stops after the label word at i: all the spaces, a colon if one follows, and the spaces after it. */
  function LabelEnd(s: string, i: nat): (a: nat)
    requires i + 4 <= |s|
    ensures i + 4 <= a <= |s|
  {
    var c := i + 4 + MaxRun(Space, s, i + 4);
    if c < |s| && s[c] == ':' then c + 1 + MaxRun(Space, s, c + 1) else c
  }

  /** The group captured by a match starting at i, if the pattern matches there. */
  function NameGroupAt(s: string, i: nat): (r: Option<Span>)
    requires i <= |s|
    ensures r.Some? ==> i + 4 <= r.value.start && r.value.start + 2 <= r.value.end <= |s|
  {
    if LabelWord(s, i) then
      var a := LabelEnd(s, i);
      var e := a + MaxRun(Letter, s, a);
      if a + 2 <= e then Some(Span(a, NameTail(s, e))) else None
    else None
  }

  /** `re.search`: the leftmost position from which the pattern matches. */
  function NameSearch(s: string, from: nat): (r: Option<nat>)
    requires from <= |s|
    ensures r.Some? ==> from <= r.value <= |s| && NameGroupAt(s, r.value).Some?
    ensures forall i | from <= i <= |s| && (r.None? || i < r.value) :: NameGroupAt(s, i).None?
    decreases |s| - from
  {
    if NameGroupAt(s, from).Some? then Some(from)
    else if from == |s| then None
    else NameSearch(s, from + 1)
  }

  /** `name_match.group(1)` of the search over the whole document. */
  function NameField(content: string): Option<string> {
    match NameSearch(content, 0)
    case Some(i) => var g := NameGroupAt(content, i).value; Some(content[g.start..g.end])
    case None => None
  }

  /** The answer of `find_name_in_content`. */
  function NameAnswer(content: string): string {
    match NameLine(content)
    case Some(line) => NameLineFound + line
    case None =>
      match NameField(content)
      case Some(name) => NameFieldFound + name
      case None => NoName
  }

  /**
   * `find_name_in_content`: the first ten lines are tried in order, and only
   * when none passes the name test is the document searched for a label.
   */
  method FindName(content: string) returns (answer: string)
    ensures answer == NameAnswer(content)
  {
    var lines := Lines(content);
    ghost var marks := NameMarks(lines);
    for k := 0 to Min(HeadLines, |lines|)
      invariant NameLineFrom(marks, k) == NameLineFrom(marks, 0)
    {
      NameMarksAt(lines, k);
      if HoldsName(lines[k]) {
        return NameLineFound + Strip(lines[k]);
      }
    }
    match NameField(content)
    case Some(name) =>
      answer := NameFieldFound + name;
    case None =>
      answer := NoName;
  }

  // ------------------------------------------------------------ properties

  /**
   * A name taken from a line is one of the first ten lines, stripped, that
   * passes the name test, with no earlier line passing it; without such a
   * line there is none among the first ten.
   */
  lemma NameLineSpec(content: string)
    ensures NameLine(content).Some? ==>
              exists k | 0 <= k < HeadLines && k < |Lines(content)| ::
                NameLine(content).value == Strip(Lines(content)[k]) &&
                IsNameLine(NameLine(content).value) &&
                forall q | 0 <= q < k :: !HoldsName(Lines(content)[q])
    ensures NameLine(content).None? ==>
              forall k | 0 <= k < HeadLines && k < |Lines(content)| :: !HoldsName(Lines(content)[k])
  {
    var lines := Lines(content);
    NameLineFromIn(NameMarks(lines), 0);
    forall q | 0 <= q < |lines| ensures NameMarks(lines)[q] == HoldsName(lines[q]) {
      NameMarksAt(lines, q);
    }
  }

  /** NameLineFrom settles on a line passing the test, and passes over none before it. */
  lemma {:induction false} NameLineFromIn(marks: seq<bool>, k: nat)
    requires k <= |marks|
    ensures forall q | k <= q < HeadLines && q < |marks| && (NameLineFrom(marks, k).None? || q < NameLineFrom(marks, k).value) ::
              !marks[q]
    decreases |marks| - k
  {
    if k < |marks| && k < HeadLines && !marks[k] {
      NameLineFromIn(marks, k + 1);
    }
  }

  /** Only the first ten lines are read for a name line: lines added after them change nothing. */
  lemma NameLineOnlyHead(content: string, more: string)
    requires |Lines(content)| >= HeadLines
    ensures NameLine(content + "\n" + more) == NameLine(content)
  {
    LinesAppend(content, more);
    var lines := Lines(content);
    var longer := lines + Lines(more);
    forall q | 0 <= q < HeadLines ensures NameMarks(longer)[q] == NameMarks(lines)[q] {
      NameMarksAt(lines, q);
      NameMarksAt(longer, q);
    }
    NameLineFromSame(NameMarks(longer), NameMarks(lines), 0);
  }

  /** Marks that agree on the first ten lines give the same name line. */
  lemma {:induction false} NameLineFromSame(m1: seq<bool>, m2: seq<bool>, k: nat)
    requires k <= HeadLines <= |m1| && HeadLines <= |m2|
    requires forall q | k <= q < HeadLines :: m1[q] == m2[q]
    ensures NameLineFrom(m1, k) == NameLineFrom(m2, k)
    decreases HeadLines - k
  {
    if k < HeadLines {
      NameLineFromSame(m1, m2, k + 1);
    }
  }

  /** A line holding a resume heading, in any case, is never taken as the name. */
  lemma HeadingIsNotName(line: string, k: nat)
    requires k < |ResumeHeadings| && Contains(Lower(line), ResumeHeadings[k])
    ensures !IsNameLine(line)
  {
    ContainsAnyIff(Lower(line), ResumeHeadings);
  }

  /**
   * A line with a word made only of lower-case letters is never taken as the
   * name, however many words it has ("john smith", "John smith").
   */
  lemma LowerCaseWordIsNotName(line: string, k: nat)
    requires k < |Words(line)| && forall x | 0 <= x < |Words(line)[k]| :: IsLower(Words(line)[k][x])
    ensures !IsNameLine(line)
  {
    WordsAreWords(line);
    var w := Words(line)[k];
    assert IsWord(w);
    assert IsAlphaWord(w) && !IsUpper(w[0]);
  }

  // ------------------------------------------------ the label search, proved

  /** The repeated group ends where the pattern allows it to end. */
  lemma {:induction false} NameTailSound(s: string, k: nat)
    requires k <= |s|
    ensures MoreWords(s, k, NameTail(s, k))
    decreases |s| - k
  {
    var e := WordAfter(s, k);
    if e != k {
      NameTailSound(s, e);
      WordAfterSound(s, k, NameTail(s, k));
    }
  }

  /** One word read by the engine, in front of a reading of the rest of the group. */
  lemma WordAfterSound(s: string, k: nat, b: nat)
    requires k <= |s| && WordAfter(s, k) != k && WordAfter(s, k) <= b
    requires MoreWords(s, WordAfter(s, k), b)
    ensures MoreWords(s, k, b)
  {
    var m := k + MaxRun(Space, s, k);
    MaxRunIn(Space, s, k);
    MaxRunIn(Letter, s, m);
    MoreWordsStep(s, k, m, WordAfter(s, k), b);
  }

  /** One more `\s+[A-Z][a-z]+` in front of a reading of the repeated group. */
  lemma MoreWordsStep(s: string, k: nat, m1: nat, m2: nat, b: nat)
    requires k < m1 && m1 + 2 <= m2 <= b <= |s|
    requires RunIn(s, k, m1, Space) && RunIn(s, m1, m2, Letter) && MoreWords(s, m2, b)
    ensures MoreWords(s, k, b)
  {
  }

  /**
   * Any one word `\s+[A-Z][a-z]+` read at k ends no later than the engine's,
   * and where it ends earlier it ends in the middle of a word.
   */
  lemma WordAfterComplete(s: string, k: nat, m1: nat, m2: nat)
    requires k < m1 && m1 + 2 <= m2 <= |s|
    requires RunIn(s, k, m1, Space) && RunIn(s, m1, m2, Letter)
    ensures k < WordAfter(s, k) && m2 <= WordAfter(s, k)
    ensures m2 < WordAfter(s, k) ==> IsAlpha(s[m2])
  {
    RunEnds(Space, s, k, m1);
    RunWithin(Letter, s, m1, m2);
    MaxRunIn(Letter, s, m1);
  }

  /**
   * The first word of a non-empty reading of the repeated group ends no later
   * than the word the engine reads, and where it ends earlier it ends in the
   * middle of a word.
   */
  lemma FirstWord(s: string, k: nat, b: nat) returns (m: nat)
    requires MoreWords(s, k, b) && k < b
    ensures k < m <= b && MoreWords(s, m, b)
    ensures k < WordAfter(s, k)
    ensures m == WordAfter(s, k) || (m < WordAfter(s, k) && b == m)
  {
    var m1, m2 :| k < m1 && m1 + 2 <= m2 <= b &&
      RunIn(s, k, m1, Space) && RunIn(s, m1, m2, Letter) && MoreWords(s, m2, b);
    WordAfterComplete(s, k, m1, m2);
    m := m2;
    if m < WordAfter(s, k) {
      MoreWordsAtLetter(s, m, b);
    }
  }

  /** Where the engine reads a word at k, its group goes on from the end of that word. */
  lemma NameTailStep(s: string, k: nat)
    requires k < |s| && k < WordAfter(s, k)
    ensures NameTail(s, k) == NameTail(s, WordAfter(s, k)) >= WordAfter(s, k)
  {
  }

  /** No reading of the repeated group goes further than the one the engine takes. */
  lemma {:induction false} NameTailLongest(s: string, k: nat, b: nat)
    requires k <= |s| && MoreWords(s, k, b)
    ensures b <= NameTail(s, k)
    decreases b - k
  {
    if k < b {
      var m := FirstWord(s, k, b);
      NameTailStep(s, k);
      if m == WordAfter(s, k) {
        NameTailLongest(s, m, b);
      }
    }
  }

  /** The repeated group cannot start in the middle of a word. */
  lemma MoreWordsAtLetter(s: string, k: nat, b: nat)
    requires MoreWords(s, k, b) && k < |s| && IsAlpha(s[k])
    ensures b == k
  {
  }

  /** The label the engine reads is one the pattern describes. */
  lemma LabelEndSound(s: string, i: nat)
    requires i <= |s| && LabelWord(s, i)
    ensures LabelAt(s, i, LabelEnd(s, i))
  {
    var c := i + 4 + MaxRun(Space, s, i + 4);
    MaxRunIn(Space, s, i + 4);
    if c < |s| && s[c] == ':' {
      MaxRunIn(Space, s, c + 1);
      assert RunIn(s, c + 1, LabelEnd(s, i), Space);
    } else {
      assert RunIn(s, c, LabelEnd(s, i), Space);
    }
  }

  /** Every reading of the label that is followed by a letter ends where the engine's does. */
  lemma LabelEndComplete(s: string, i: nat, a: nat)
    requires LabelAt(s, i, a) && a < |s| && IsAlpha(s[a])
    ensures i + 4 <= |s| && LabelWord(s, i) && LabelEnd(s, i) == a
  {
    var c :| i + 4 <= c <= a && RunIn(s, i + 4, c, Space) &&
      (RunIn(s, c, a, Space) || (c < a && s[c] == ':' && RunIn(s, c + 1, a, Space)));
    if RunIn(s, c, a, Space) {
      LabelEndSpaces(s, i, c, a);
    } else {
      LabelEndColon(s, i, c, a);
    }
  }

  lemma LabelEndSpaces(s: string, i: nat, c: nat, a: nat)
    requires i + 4 <= c <= a < |s| && RunIn(s, i + 4, c, Space) && RunIn(s, c, a, Space)
    requires !IsSpace(s[a]) && s[a] != ':'
    ensures LabelEnd(s, i) == a
  {
    assert RunIn(s, i + 4, a, Space);
    RunEnds(Space, s, i + 4, a);
  }

  lemma LabelEndColon(s: string, i: nat, c: nat, a: nat)
    requires i + 4 <= c < a < |s| && RunIn(s, i + 4, c, Space) && s[c] == ':' && RunIn(s, c + 1, a, Space)
    requires !IsSpace(s[a])
    ensures LabelEnd(s, i) == a
  {
    RunEnds(Space, s, i + 4, c);
    RunEnds(Space, s, c + 1, a);
  }

  /** The engine's group at i is a reading of the pattern. */
  lemma NameGroupAtSound(s: string, i: nat)
    requires i <= |s| && NameGroupAt(s, i).Some?
    ensures NameAt(s, i, NameGroupAt(s, i).value.start, NameGroupAt(s, i).value.end)
  {
    var a := LabelEnd(s, i);
    var e := a + MaxRun(Letter, s, a);
    NameGroupAtWhen(s, i, a);
    MaxRunIn(Letter, s, a);
    LabelEndSound(s, i);
    NameTailSound(s, e);
    NameAtIntro(s, i, a, e, NameTail(s, e));
  }

  lemma NameAtIntro(s: string, i: nat, a: nat, e: nat, b: nat)
    requires LabelAt(s, i, a) && GroupReading(s, a, e, b)
    ensures NameAt(s, i, a, b)
  {
  }

  /**
   * Any reading of the pattern from i starts its group where the engine's
   * group starts and ends no later than it.
   */
  lemma NameGroupAtComplete(s: string, i: nat, a: nat, b: nat)
    requires NameAt(s, i, a, b)
    ensures NameGroupAt(s, i).Some?
    ensures NameGroupAt(s, i).value.start == a && b <= NameGroupAt(s, i).value.end
  {
    var e := GroupFirstWord(s, i, a, b);
    LabelEndComplete(s, i, a);
    GroupEndComplete(s, a, e, b);
    NameGroupAtWhen(s, i, a);
  }

  /** The first word of the group in a reading of the pattern. */
  lemma GroupFirstWord(s: string, i: nat, a: nat, b: nat) returns (e: nat)
    requires NameAt(s, i, a, b)
    ensures LabelAt(s, i, a) && a < |s| && IsAlpha(s[a]) && GroupReading(s, a, e, b)
  {
    e :| GroupReading(s, a, e, b);
    assert InClass(s[a], Letter);
  }

  /** The group the engine captures at i once the label ends at a and a word of two letters follows. */
  lemma NameGroupAtWhen(s: string, i: nat, a: nat)
    requires i + 4 <= |s| && LabelWord(s, i) && LabelEnd(s, i) == a
    ensures NameGroupAt(s, i).Some? <==> 2 <= MaxRun(Letter, s, a)
    ensures NameGroupAt(s, i).Some? ==> NameGroupAt(s, i).value == Span(a, NameTail(s, a + MaxRun(Letter, s, a)))
  {
  }

  /** Any reading of the group from a ends no later than the engine's. */
  lemma GroupEndComplete(s: string, a: nat, e: nat, b: nat)
    requires GroupReading(s, a, e, b)
    ensures 2 <= MaxRun(Letter, s, a)
    ensures b <= NameTail(s, a + MaxRun(Letter, s, a))
  {
    RunWithin(Letter, s, a, e);
    if e < a + MaxRun(Letter, s, a) {
      InsideRun(s, a, e, b);
    } else {
      NameTailLongest(s, a + MaxRun(Letter, s, a), b);
    }
  }

  /** A reading of the first word that stops inside the run of letters leaves nothing for the rest. */
  lemma InsideRun(s: string, a: nat, e: nat, b: nat)
    requires a <= |s| && a <= e < a + MaxRun(Letter, s, a) && MoreWords(s, e, b)
    ensures b == e
  {
    MaxRunIn(Letter, s, a);
    assert InClass(s[e], Letter);
    MoreWordsAtLetter(s, e, b);
  }

  /** Some text of s is read by the label pattern. */
  ghost predicate NameDescribed(s: string) {
    exists i: nat, a: nat, b: nat :: NameAt(s, i, a, b)
  }

  /** s[a..b] is the group of a reading from i, no reading starts before i, and no group from i is longer. */
  ghost predicate FirstLongestName(s: string, i: nat, a: nat, b: nat) {
    NameAt(s, i, a, b) &&
    (forall i': nat, a': nat, b': nat | i' < i :: !NameAt(s, i', a', b')) &&
    forall b': nat | NameAt(s, i, a, b') :: b' <= b
  }

  /**
   * The label search finds nothing exactly when no text of the document is
   * read by the pattern; otherwise it captures the longest group of the
   * leftmost reading.
   */
  lemma NameFieldSpec(s: string)
    ensures NameField(s).None? <==> !NameDescribed(s)
    ensures NameField(s).Some? ==>
              exists i: nat, a: nat, b: nat | a <= b <= |s| :: NameField(s).value == s[a..b] && FirstLongestName(s, i, a, b)
  {
    var r := NameSearch(s, 0);
    if r.Some? {
      var i := r.value;
      var g := NameGroupAt(s, i).value;
      NameGroupAtSound(s, i);
      forall i': nat, a': nat, b': nat | i' < i ensures !NameAt(s, i', a', b') {
        if NameAt(s, i', a', b') {
          NameGroupAtComplete(s, i', a', b');
        }
      }
      forall b': nat | NameAt(s, i, g.start, b') ensures b' <= g.end {
        NameGroupAtComplete(s, i, g.start, b');
      }
      assert FirstLongestName(s, i, g.start, g.end);
    } else {
      forall i: nat, a: nat, b: nat ensures !NameAt(s, i, a, b) {
        if NameAt(s, i, a, b) {
          NameGroupAtComplete(s, i, a, b);
        }
      }
    }
  }
}
