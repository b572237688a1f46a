/**
 * The current-job and education extractors: both look for a section header
 * among the lines of the document and read a short window of lines after it.
 */
module SectionExtractors {
  import opened Wrappers
  import opened Text
  import opened Answers

  // -------------------------------------------------------------- current job

  /** A line holding one of these (in lower case) opens the work-experience section. */
  const ExperienceHeaders: seq<string> := ["experience", "employment", "work history"]

  /** The window after a header at i is lines i + 1 up to, not including, i + 10. */
  const JobWindow := 10

  const JobFound := "Current position appears to be: "
  const NoJob := CouldNotFind + "clear information about the current job position."

  predicate IsExperienceHeader(line: string) {
    ContainsAny(Lower(line), ExperienceHeaders)
  }

  /** A line taken as the position: not blank, and not starting with a space. */
  predicate IsPositionLine(line: string) {
    line != [] && line[0] != ' ' && Strip(line) != []
  }

  /** The first position line in the window after a header at h, looking from line j on. */
  function WindowHit(lines: seq<string>, h: nat, j: nat): (r: Option<nat>)
    requires j <= |lines|
    ensures r.Some? ==> j <= r.value < Min(h + JobWindow, |lines|)
    decreases |lines| - j
  {
    if j >= Min(h + JobWindow, |lines|) then None
    else if IsPositionLine(lines[j]) then Some(j)
    else WindowHit(lines, h, j + 1)
  }

  /** WindowHit settles on a position line, and passes over none before it. */
  lemma {:induction false} WindowHitIn(lines: seq<string>, h: nat, j: nat)
    requires j <= |lines|
    ensures WindowHit(lines, h, j).Some? ==> IsPositionLine(lines[WindowHit(lines, h, j).value])
    ensures forall q | j <= q < Min(h + JobWindow, |lines|) && (WindowHit(lines, h, j).None? || q < WindowHit(lines, h, j).value) ::
              !IsPositionLine(lines[q])
    decreases |lines| - j
  {
    if j < Min(h + JobWindow, |lines|) && !IsPositionLine(lines[j]) {
      WindowHitIn(lines, h, j + 1);
    }
  }

  /** The position line the scan settles on when it starts looking for headers at line i. */
  function JobFrom(lines: seq<string>, i: nat): (r: Option<nat>)
    requires i <= |lines|
    ensures r.Some? ==> i < r.value < |lines|
    decreases |lines| - i
  {
    if i == |lines| then None
    else if IsExperienceHeader(lines[i]) && WindowHit(lines, i, i + 1).Some? then WindowHit(lines, i, i + 1)
    else JobFrom(lines, i + 1)
  }

  /** The answer of `find_current_job`. */
  function JobAnswer(content: string): string {
    var lines := Lines(content);
    match JobFrom(lines, 0)
    case Some(j) => JobFound + Strip(lines[j])
    case None => NoJob
  }

  /**
   * `find_current_job`: every header line is tried in turn, and the first
   * position line in its window answers; a header whose window holds none
   * is passed over.
   */
  method FindCurrentJob(content: string) returns (answer: string)
    ensures answer == JobAnswer(content)
  {
    var lines := Lines(content);
    for i := 0 to |lines|
      invariant JobFrom(lines, i) == JobFrom(lines, 0)
    {
      if IsExperienceHeader(lines[i]) {
        for j := i + 1 to Min(i + JobWindow, |lines|)
          invariant WindowHit(lines, i, j) == WindowHit(lines, i, i + 1)
        {
          if IsPositionLine(lines[j]) {
            return JobFound + Strip(lines[j]);
          }
        }
      }
    }
    return NoJob;
  }

  // ------------------------------------------------------- current job, proved

  /** A header at h and a position line j inside its window. */
  ghost predicate JobPair(lines: seq<string>, h: nat, j: nat) {
    h < j < |lines| && j < h + JobWindow && IsExperienceHeader(lines[h]) && IsPositionLine(lines[j])
  }

  /**
   * (h, j) is a pair at or after line i, no header from i to before h has a
   * position line in its window, and no line before j does in h's window.
   */
  ghost predicate FirstJobPair(lines: seq<string>, i: nat, h: nat, j: nat) {
    i <= h && JobPair(lines, h, j) &&
    (forall h': nat, j': nat | i <= h' < h :: !JobPair(lines, h', j')) &&
    (forall j': nat | j' < j :: !JobPair(lines, h, j'))
  }

  /** The scan from line i finds the first header with a position line in its window, and that line. */
  lemma {:induction false} JobFromSpec(lines: seq<string>, i: nat)
    requires i <= |lines|
    ensures JobFrom(lines, i).None? <==> forall h: nat, j: nat | i <= h :: !JobPair(lines, h, j)
    ensures JobFrom(lines, i).Some? ==> exists h: nat :: FirstJobPair(lines, i, h, JobFrom(lines, i).value)
    decreases |lines| - i
  {
    if i == |lines| {
      forall h: nat, j: nat | i <= h ensures !JobPair(lines, h, j) {
      }
    } else {
      HeaderPairs(lines, i);
      if !(IsExperienceHeader(lines[i]) && WindowHit(lines, i, i + 1).Some?) {
        JobFromSpec(lines, i + 1);
        if JobFrom(lines, i + 1).Some? {
          var h: nat :| FirstJobPair(lines, i + 1, h, JobFrom(lines, i + 1).value);
          FirstJobPairBack(lines, i, h, JobFrom(lines, i).value);
        }
      }
    }
  }

  /** A header with no position line in its window does not change which pair is first. */
  lemma FirstJobPairBack(lines: seq<string>, i: nat, h: nat, j: nat)
    requires FirstJobPair(lines, i + 1, h, j)
    requires forall j': nat :: !JobPair(lines, i, j')
    ensures FirstJobPair(lines, i, h, j)
  {
    forall h': nat, j': nat | i <= h' < h ensures !JobPair(lines, h', j') {
      if h' > i {
        assert i + 1 <= h' < h;
      }
    }
  }

  /** What the header at line i contributes: the first pair when its window has a position line, none otherwise. */
  lemma HeaderPairs(lines: seq<string>, i: nat)
    requires i < |lines|
    ensures IsExperienceHeader(lines[i]) && WindowHit(lines, i, i + 1).Some? ==>
              FirstJobPair(lines, i, i, WindowHit(lines, i, i + 1).value)
    ensures !(IsExperienceHeader(lines[i]) && WindowHit(lines, i, i + 1).Some?) ==>
              forall j: nat :: !JobPair(lines, i, j)
  {
    WindowHitIn(lines, i, i + 1);
  }

  /**
   * A job answer quotes, stripped, the first position line in the window of
   * the first header that has one; when no header has a position line within
   * nine lines after it, the answer is the not-found message.
   */
  lemma JobAnswerSpec(content: string)
    ensures JobAnswer(content) == NoJob <==> forall h: nat, j: nat :: !JobPair(Lines(content), h, j)
    ensures JobAnswer(content) != NoJob ==>
              exists h: nat, j: nat :: FirstJobPair(Lines(content), 0, h, j) &&
                JobAnswer(content) == JobFound + Strip(Lines(content)[j])
  {
    var lines := Lines(content);
    JobFromSpec(lines, 0);
    if JobFrom(lines, 0).Some? {
      var j := JobFrom(lines, 0).value;
      FoundIsNotMissing(JobFound, "clear information about the current job position.", Strip(lines[j]));
    }
  }

  // ---------------------------------------------------------------- education

  /** A line holding one of these (in lower case) opens the education section. */
  const EducationHeaders: seq<string> := ["education", "academic", "degree"]

  /** The window after the header at h is lines h + 1 up to, not including, h + 12. */
  const EducationWindow := 12

  /** The collection stops once it holds this many lines. */
  const MaxEducationItems := 6

  const EducationFound := "Education: "
  const NoEducation := CouldNotFind + "clear education information in the document."

  predicate IsEducationHeader(line: string) {
    ContainsAny(Lower(line), EducationHeaders)
  }

  /** Lines a up to, not including, b that are not blank, stripped, in order. */
  function NonBlank(lines: seq<string>, a: nat, b: nat): (r: seq<string>)
    requires a <= b <= |lines|
    ensures |r| <= b - a
    decreases b - a
  {
    if a == b then []
    else NonBlank(lines, a, b - 1) + (if Strip(lines[b - 1]) != [] then [Strip(lines[b - 1])] else [])
  }

  /** Where the window after a header at h ends. */
  function WindowEnd(lines: seq<string>, h: nat): (e: nat)
    requires h < |lines|
    ensures h < e <= |lines|
  {
    Min(h + EducationWindow, |lines|)
  }

  /** The first education header at or after line i. */
  function HeaderFrom(lines: seq<string>, i: nat): (r: Option<nat>)
    requires i <= |lines|
    ensures r.Some? ==> i <= r.value < |lines| && IsEducationHeader(lines[r.value])
    decreases |lines| - i
  {
    if i == |lines| then None
    else if IsEducationHeader(lines[i]) then Some(i)
    else HeaderFrom(lines, i + 1)
  }

  /** The lines `find_education` collects. */
  function EducationItems(lines: seq<string>): seq<string> {
    match HeaderFrom(lines, 0)
    case Some(h) => Prefix(NonBlank(lines, h + 1, WindowEnd(lines, h)), MaxEducationItems)
    case None => []
  }

  /** The answer of `find_education`. */
  function EducationAnswer(content: string): string {
    var items := EducationItems(Lines(content));
    if items != [] then EducationFound + Join(items, " ") else NoEducation
  }

  /**
   * `find_education`: at the first header line, the non-blank lines of its
   * window are collected, stripped, until six are held; the scan then stops.
   */
  method FindEducation(content: string) returns (answer: string)
    ensures answer == EducationAnswer(content)
  {
    var lines := Lines(content);
    var info: seq<string> := [];
    for i := 0 to |lines|
      invariant HeaderFrom(lines, i) == HeaderFrom(lines, 0)
      invariant info == []
    {
      if IsEducationHeader(lines[i]) {
        info := CollectEducation(lines, i);
        break;
      }
    }
    if info != [] {
      answer := EducationFound + Join(info, " ");
    } else {
      answer := NoEducation;
    }
  }

  /** The inner loop of `find_education`: the window after the header at h, read until six lines are held. */
  method CollectEducation(lines: seq<string>, h: nat) returns (info: seq<string>)
    requires h < |lines|
    ensures info == Prefix(NonBlank(lines, h + 1, WindowEnd(lines, h)), MaxEducationItems)
  {
    info := [];
    var stop := WindowEnd(lines, h);
    for j := h + 1 to stop
      invariant info == NonBlank(lines, h + 1, j) && |info| < MaxEducationItems
    {
      var line := Strip(lines[j]);
      if line != [] {
        info := info + [line];
      }
      if |info| >= MaxEducationItems {
        PrefixOfFull(lines, h + 1, j + 1, stop);
        return;
      }
    }
  }

  // --------------------------------------------------------- education, proved

  /** Collecting over two neighbouring ranges is collecting over their union. */
  lemma {:induction false} NonBlankSplit(lines: seq<string>, a: nat, m: nat, b: nat)
    requires a <= m <= b <= |lines|
    ensures NonBlank(lines, a, b) == NonBlank(lines, a, m) + NonBlank(lines, m, b)
    decreases b - m
  {
    if m < b {
      NonBlankSplit(lines, a, m, b - 1);
    }
  }

  /** Once six lines are held, the lines after them do not change the first six. */
  lemma PrefixOfFull(lines: seq<string>, a: nat, m: nat, b: nat)
    requires a <= m <= b <= |lines| && |NonBlank(lines, a, m)| == MaxEducationItems
    ensures Prefix(NonBlank(lines, a, b), MaxEducationItems) == NonBlank(lines, a, m)
  {
    NonBlankSplit(lines, a, m, b);
    var held := NonBlank(lines, a, m);
    assert (held + NonBlank(lines, m, b))[..MaxEducationItems] == held;
  }

  /** Nothing is collected from a range exactly when every line of it is blank. */
  lemma {:induction false} NonBlankEmpty(lines: seq<string>, a: nat, b: nat)
    requires a <= b <= |lines|
    ensures NonBlank(lines, a, b) == [] <==> forall j | a <= j < b :: Strip(lines[j]) == []
    decreases b - a
  {
    if a < b {
      NonBlankEmpty(lines, a, b - 1);
    }
  }

  /** Every collected line is a non-blank line of the range, stripped. */
  lemma {:induction false} NonBlankFrom(lines: seq<string>, a: nat, b: nat, k: nat)
    requires a <= b <= |lines| && k < |NonBlank(lines, a, b)|
    ensures NonBlank(lines, a, b)[k] != []
    ensures exists j | a <= j < b :: NonBlank(lines, a, b)[k] == Strip(lines[j])
    decreases b - a
  {
    var front := NonBlank(lines, a, b - 1);
    if k < |front| {
      NonBlankFrom(lines, a, b - 1, k);
      var j :| a <= j < b - 1 && front[k] == Strip(lines[j]);
      assert NonBlank(lines, a, b)[k] == front[k];
    } else {
      assert NonBlank(lines, a, b)[k] == Strip(lines[b - 1]);
    }
  }

  /** Only lines a up to b are read: what follows them does not matter. */
  lemma {:induction false} NonBlankPrefix(lines: seq<string>, more: seq<string>, a: nat, b: nat)
    requires a <= b <= |lines|
    ensures NonBlank(lines + more, a, b) == NonBlank(lines, a, b)
    decreases b - a
  {
    if a < b {
      NonBlankPrefix(lines, more, a, b - 1);
      assert (lines + more)[b - 1] == lines[b - 1];
    }
  }

  /** h is the first education header. */
  ghost predicate FirstEducationHeader(lines: seq<string>, h: nat) {
    h < |lines| && IsEducationHeader(lines[h]) && forall q | 0 <= q < h :: !IsEducationHeader(lines[q])
  }

  /** HeaderFrom settles on the first header at or after line i. */
  lemma {:induction false} HeaderFromIn(lines: seq<string>, i: nat)
    requires i <= |lines|
    ensures forall q | i <= q < |lines| && (HeaderFrom(lines, i).None? || q < HeaderFrom(lines, i).value) ::
              !IsEducationHeader(lines[q])
    decreases |lines| - i
  {
    if i < |lines| && !IsEducationHeader(lines[i]) {
      HeaderFromIn(lines, i + 1);
    }
  }

  /** The first header of the whole document is the one the scan finds. */
  lemma HeaderFromFirst(lines: seq<string>)
    ensures forall h: nat :: FirstEducationHeader(lines, h) <==> HeaderFrom(lines, 0) == Some(h)
  {
    HeaderFromIn(lines, 0);
  }

  /** Lines added after a header do not change which header is first. */
  lemma {:induction false} HeaderFromAppend(lines: seq<string>, more: seq<string>, i: nat)
    requires i <= |lines| && HeaderFrom(lines, i).Some?
    ensures HeaderFrom(lines + more, i) == HeaderFrom(lines, i)
    decreases |lines| - i
  {
    assert (lines + more)[i] == lines[i];
    if !IsEducationHeader(lines[i]) {
      HeaderFromAppend(lines, more, i + 1);
    }
  }

  /** The lines of the window after a header at h are all blank. */
  ghost predicate WindowBlank(lines: seq<string>, h: nat)
    requires h < |lines|
  {
    forall j | h < j < WindowEnd(lines, h) :: Strip(lines[j]) == []
  }

  /** Nothing is collected exactly when there is no header or the window after the first one is blank. */
  lemma EducationItemsEmpty(lines: seq<string>)
    ensures EducationItems(lines) == [] <==> forall h: nat | FirstEducationHeader(lines, h) :: WindowBlank(lines, h)
  {
    HeaderFromFirst(lines);
    match HeaderFrom(lines, 0)
    case None =>
    case Some(h) =>
      var items := NonBlank(lines, h + 1, WindowEnd(lines, h));
      NonBlankEmpty(lines, h + 1, WindowEnd(lines, h));
      assert items == [] <==> WindowBlank(lines, h);
  }

  /**
   * The education answer lists at most six lines; it is the not-found
   * message exactly when there is no header or the eleven lines after the
   * first one are all blank.
   */
  lemma EducationAnswerSpec(content: string)
    ensures |EducationItems(Lines(content))| <= MaxEducationItems
    ensures EducationAnswer(content) == NoEducation <==>
              forall h: nat | FirstEducationHeader(Lines(content), h) :: WindowBlank(Lines(content), h)
    ensures EducationAnswer(content) != NoEducation ==>
              EducationAnswer(content) == EducationFound + Join(EducationItems(Lines(content)), " ")
  {
    var items := EducationItems(Lines(content));
    EducationItemsEmpty(Lines(content));
    if items != [] {
      FoundIsNotMissing(EducationFound, "clear education information in the document.", Join(items, " "));
    }
  }

  /** Every collected line is a non-blank line of the window after the first header, stripped. */
  lemma EducationItemsFromWindow(lines: seq<string>, h: nat, k: nat)
    requires FirstEducationHeader(lines, h) && k < |EducationItems(lines)|
    ensures EducationItems(lines)[k] != []
    ensures exists j | h < j < WindowEnd(lines, h) :: EducationItems(lines)[k] == Strip(lines[j])
  {
    HeaderFromFirst(lines);
    NonBlankFrom(lines, h + 1, WindowEnd(lines, h), k);
  }

  /**
   * Only the first header is read: lines added after its window change
   * nothing, even when they hold another header.
   */
  lemma EducationOnlyFirstHeader(lines: seq<string>, more: seq<string>, h: nat)
    requires FirstEducationHeader(lines, h) && h + EducationWindow <= |lines|
    ensures EducationItems(lines + more) == EducationItems(lines)
  {
    HeaderFromFirst(lines);
    HeaderFromAppend(lines, more, 0);
    assert WindowEnd(lines + more, h) == WindowEnd(lines, h) == h + EducationWindow;
    NonBlankPrefix(lines, more, h + 1, h + EducationWindow);
  }
}
