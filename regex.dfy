/**
 * A small backtracking matcher for the regular expressions the answering
 * engine uses. A pattern is a flat sequence of items: the word-boundary
 * assertion `\b` and single-character classes repeated between a minimum and
 * a maximum number of times (`\d{3}`, `[-.]?`, `\s+`, `[A-Za-z]{2,}`).
 * Repetitions are greedy and backtrack one character at a time, so the match
 * found at a position is the one Python's `re` engine finds there.
 * `Search`, `FindAll` and `Split` give `re.search`, `re.findall` and
 * `re.split` for patterns without groups.
 */
module Regex {
  import opened Wrappers
  import opened Text

  /** The character classes that occur in the engine's patterns. */
  datatype CharClass =
    | Digit                                  // \d
    | Word                                   // \w
    | Space                                  // \s
    | Letter                                 // [A-Za-z]
    | AnyOf(chars: string)                   // a literal character or a bracket list of them
    | Either(left: CharClass, right: CharClass)

  predicate InClass(c: char, k: CharClass) {
    match k
    case Digit => IsDigit(c)
    case Word => IsWordChar(c)
    case Space => IsSpace(c)
    case Letter => IsAlpha(c)
    case AnyOf(cs) => c in cs
    case Either(l, r) => InClass(c, l) || InClass(c, r)
  }

  /** Every character of s[i..m] is in the class. */
  predicate RunIn(s: string, i: nat, m: nat, k: CharClass)
    requires i <= m <= |s|
  {
    forall x | i <= x < m :: InClass(s[x], k)
  }

  /** The upper bound of a repetition: `{m,n}` or unbounded (`+`, `*`, `{m,}`). */
  datatype Limit = AtMost(n: nat) | Unbounded

  predicate Allows(hi: Limit, n: nat) {
    hi.Unbounded? || n <= hi.n
  }

  datatype Item =
    | Boundary                                    // \b
    | Repeat(cls: CharClass, min: nat, max: Limit)  // cls{min,max}, greedy

  type Pattern = seq<Item>

  /** The shortest text any match of the pattern can span. */
  function MinLength(p: Pattern): nat {
    if p == [] then 0
    else (if p[0].Repeat? then p[0].min else 0) + MinLength(p[1..])
  }

  /** `\b`: exactly one of the characters around position i is a word character. */
  predicate AtBoundary(s: string, i: nat)
    requires i <= |s|
  {
    (i > 0 && IsWordChar(s[i - 1])) != (i < |s| && IsWordChar(s[i]))
  }

  /** Length of the longest run of class characters starting at i. */
  function MaxRun(k: CharClass, s: string, i: nat): (n: nat)
    requires i <= |s|
    ensures i + n <= |s|
    decreases |s| - i
  {
    if i < |s| && InClass(s[i], k) then 1 + MaxRun(k, s, i + 1) else 0
  }

  /** The longest run is a run, and the character after it is outside the class. */
  lemma {:induction false} MaxRunIn(k: CharClass, s: string, i: nat)
    requires i <= |s|
    ensures RunIn(s, i, i + MaxRun(k, s, i), k)
    ensures i + MaxRun(k, s, i) == |s| || !InClass(s[i + MaxRun(k, s, i)], k)
    decreases |s| - i
  {
    if i < |s| && InClass(s[i], k) {
      MaxRunIn(k, s, i + 1);
    }
  }

  /** A run of class characters is never longer than the longest one. */
  lemma {:induction false} RunWithin(k: CharClass, s: string, i: nat, m: nat)
    requires i <= m <= |s| && RunIn(s, i, m, k)
    ensures m <= i + MaxRun(k, s, i)
    decreases m - i
  {
    if i < m {
      RunWithin(k, s, i + 1, m);
    }
  }

  /** A run of class characters that stops at a character outside the class is the longest run. */
  lemma RunEnds(k: CharClass, s: string, i: nat, m: nat)
    requires i <= m < |s| && RunIn(s, i, m, k) && !InClass(s[m], k)
    ensures MaxRun(k, s, i) == m - i
  {
    MaxRunIn(k, s, i);
    RunWithin(k, s, i, m);
  }

  /** A run of class characters that ends at the end of s or before a character outside the class is the longest run. */
  lemma RunMaximal(k: CharClass, s: string, i: nat, m: nat)
    requires i <= m <= |s| && RunIn(s, i, m, k) && (m == |s| || !InClass(s[m], k))
    ensures MaxRun(k, s, i) == m - i
  {
    RunWithin(k, s, i, m);
    if m < |s| {
      RunEnds(k, s, i, m);
    }
  }

  /** The largest repetition count the limit allows, up to n. */
  function Cap(hi: Limit, n: nat): (m: nat)
    ensures m <= n && Allows(hi, m)
    ensures hi.AtMost? && hi.n < n ==> m == hi.n
  {
    if hi.AtMost? && hi.n < n then hi.n else n
  }

  /**
   * The end of the match of p that starts at i, as a backtracking engine finds
   * it: each repetition first takes as many characters as it can and gives
   * them back one by one until the rest of the pattern matches.
   */
  function MatchAt(p: Pattern, s: string, i: nat): (r: Option<nat>)
    requires i <= |s|
    ensures r.Some? ==> i + MinLength(p) <= r.value <= |s|
    decreases |p|, 0, 0
  {
    if p == [] then Some(i)
    else match p[0]
      case Boundary => if AtBoundary(s, i) then MatchAt(p[1..], s, i) else None
      case Repeat(k, lo, hi) => Backtrack(p[1..], lo, s, i, Cap(hi, MaxRun(k, s, i)))
  }

  /** Try the counts n, n - 1, ..., lo for a repetition at i, then the rest of the pattern. */
  function Backtrack(rest: Pattern, lo: nat, s: string, i: nat, n: nat): (r: Option<nat>)
    requires i + n <= |s|
    ensures r.Some? ==> i + lo + MinLength(rest) <= r.value <= |s|
    decreases |rest|, 1, n
  {
    if n < lo then None
    else match MatchAt(rest, s, i + n)
      case Some(j) => Some(j)
      case None => if n == 0 then None else Backtrack(rest, lo, s, i, n - 1)
  }

  /** The meaning of a pattern: s[i..j] is one of the texts p describes, read at position i of s. */
  ghost predicate Accepts(p: Pattern, s: string, i: nat, j: nat)
    decreases |p|
  {
    i <= |s| &&
    if p == [] then i == j
    else match p[0]
      case Boundary => AtBoundary(s, i) && Accepts(p[1..], s, i, j)
      case Repeat(k, lo, hi) =>
        exists m | i + lo <= m <= |s| && Allows(hi, m - i) :: RunIn(s, i, m, k) && Accepts(p[1..], s, m, j)
  }

  /** p describes some text of s. */
  ghost predicate Describes(p: Pattern, s: string) {
    exists i, j :: Accepts(p, s, i, j)
  }

  /** s[a..b] is a text p describes, and p describes no text starting before a. */
  ghost predicate Leftmost(p: Pattern, s: string, a: nat, b: nat) {
    Accepts(p, s, a, b) && forall i, j | 0 <= i < a :: !Accepts(p, s, i, j)
  }

  /** Every match the engine reports is one the pattern describes. */
  lemma {:induction false} MatchAtSound(p: Pattern, s: string, i: nat)
    requires i <= |s| && MatchAt(p, s, i).Some?
    ensures Accepts(p, s, i, MatchAt(p, s, i).value)
    decreases |p|, 0, 0
  {
    if p != [] {
      match p[0]
      case Boundary =>
        MatchAtSound(p[1..], s, i);
      case Repeat(k, lo, hi) =>
        var n := Cap(hi, MaxRun(k, s, i));
        MaxRunIn(k, s, i);
        BacktrackSound(p[1..], k, lo, hi, s, i, n);
    }
  }

  lemma {:induction false} BacktrackSound(rest: Pattern, k: CharClass, lo: nat, hi: Limit, s: string, i: nat, n: nat)
    requires i + n <= |s| && RunIn(s, i, i + n, k) && Allows(hi, n)
    requires Backtrack(rest, lo, s, i, n).Some?
    ensures exists m | i + lo <= m <= |s| && Allows(hi, m - i) ::
              RunIn(s, i, m, k) && Accepts(rest, s, m, Backtrack(rest, lo, s, i, n).value)
    decreases |rest|, 1, n
  {
    var j := Backtrack(rest, lo, s, i, n).value;
    if MatchAt(rest, s, i + n).Some? {
      MatchAtSound(rest, s, i + n);
      assert RunIn(s, i, i + n, k) && Accepts(rest, s, i + n, j);
    } else {
      BacktrackSound(rest, k, lo, hi, s, i, n - 1);
    }
  }

  /** Whenever the pattern describes a text starting at i, the engine finds a match at i. */
  lemma {:induction false} MatchAtComplete(p: Pattern, s: string, i: nat, j: nat)
    requires Accepts(p, s, i, j)
    ensures MatchAt(p, s, i).Some?
    decreases |p|
  {
    if p != [] {
      match p[0]
      case Boundary =>
        MatchAtComplete(p[1..], s, i, j);
      case Repeat(k, lo, hi) =>
        var m :| i + lo <= m <= |s| && Allows(hi, m - i) && RunIn(s, i, m, k) && Accepts(p[1..], s, m, j);
        MatchAtComplete(p[1..], s, m, j);
        var run := MaxRun(k, s, i);
        RunWithin(k, s, i, m);
        BacktrackReaches(p[1..], lo, s, i, Cap(hi, run), m - i);
    }
  }

  lemma {:induction false} BacktrackReaches(rest: Pattern, lo: nat, s: string, i: nat, n: nat, c: nat)
    requires i + n <= |s| && lo <= c <= n
    requires MatchAt(rest, s, i + c).Some?
    ensures Backtrack(rest, lo, s, i, n).Some?
    decreases n
  {
    if MatchAt(rest, s, i + n).None? {
      BacktrackReaches(rest, lo, s, i, n - 1, c);
    }
  }

  /** The engine fails at i exactly when the pattern describes no text starting at i. */
  lemma MatchAtNoneIff(p: Pattern, s: string, i: nat)
    requires i <= |s|
    ensures MatchAt(p, s, i).None? <==> forall j :: !Accepts(p, s, i, j)
  {
    if MatchAt(p, s, i).Some? {
      MatchAtSound(p, s, i);
      assert Accepts(p, s, i, MatchAt(p, s, i).value);
    } else {
      forall j ensures !Accepts(p, s, i, j) {
        if Accepts(p, s, i, j) {
          MatchAtComplete(p, s, i, j);
        }
      }
    }
  }

  /** A match found by the engine: the text s[start..end]. */
  datatype Span = Span(start: nat, end: nat)

  /** `re.search` from position `from`: the leftmost position where the engine matches. */
  function Search(p: Pattern, s: string, from: nat): (r: Option<Span>)
    requires from <= |s|
    ensures r.Some? ==> from <= r.value.start <= |s| && MatchAt(p, s, r.value.start) == Some(r.value.end)
    ensures forall i | from <= i <= |s| && (r.None? || i < r.value.start) :: MatchAt(p, s, i).None?
    decreases |s| - from
  {
    match MatchAt(p, s, from)
    case Some(j) => Some(Span(from, j))
    case None => if from == |s| then None else Search(p, s, from + 1)
  }

  /**
   * What `re.search` reports, in terms of the pattern's meaning: the match
   * starts at the leftmost position where the pattern describes any text, and
   * the search fails exactly when it describes none.
   */
  lemma SearchLeftmost(p: Pattern, s: string, from: nat)
    requires from <= |s|
    ensures Search(p, s, from).Some? ==>
              var sp := Search(p, s, from).value;
              Accepts(p, s, sp.start, sp.end) &&
              forall i, j | from <= i < sp.start :: !Accepts(p, s, i, j)
    ensures Search(p, s, from).None? <==> forall i, j | from <= i :: !Accepts(p, s, i, j)
  {
    var r := Search(p, s, from);
    var bound := if r.None? then |s| + 1 else r.value.start;
    forall i, j | from <= i < bound
      ensures !Accepts(p, s, i, j)
    {
      if i > |s| {
      } else {
        MatchAtNoneIff(p, s, i);
      }
    }
    if r.Some? {
      MatchAtSound(p, s, r.value.start);
      assert Accepts(p, s, r.value.start, r.value.end);
      assert !forall i, j | from <= i :: !Accepts(p, s, i, j);
    } else {
      forall i, j | from <= i ensures !Accepts(p, s, i, j) {
        if i > |s| {
        }
      }
    }
  }

  /** The spans of `re.findall` from position `from`: successive leftmost matches. */
  function FindSpans(p: Pattern, s: string, from: nat): (r: seq<Span>)
    requires from <= |s| && MinLength(p) > 0
    ensures forall k | 0 <= k < |r| ::
              from <= r[k].start < r[k].end <= |s| && MatchAt(p, s, r[k].start) == Some(r[k].end)
    ensures forall k | 0 <= k < |r| - 1 :: r[k].end <= r[k + 1].start
    ensures r == [] <==> Search(p, s, from).None?
    ensures r != [] ==> r[0] == Search(p, s, from).value
    decreases |s| - from
  {
    match Search(p, s, from)
    case None => []
    case Some(sp) => [sp] + FindSpans(p, s, sp.end)
  }

  /** `re.findall` for a pattern without groups: the matched texts. */
  function FindAll(p: Pattern, s: string, from: nat): (r: seq<string>)
    requires from <= |s| && MinLength(p) > 0
    ensures |r| == |FindSpans(p, s, from)|
    ensures var spans := FindSpans(p, s, from); forall k | 0 <= k < |r| :: r[k] == s[spans[k].start..spans[k].end]
  {
    var spans := FindSpans(p, s, from);
    seq(|spans|, k requires 0 <= k < |spans| => s[spans[k].start..spans[k].end])
  }

  /**
   * The first text `re.findall` returns is the leftmost text the pattern
   * describes, and it returns nothing exactly when the pattern describes no
   * text anywhere in s.
   */
  lemma FindAllFirst(p: Pattern, s: string)
    requires MinLength(p) > 0
    ensures FindAll(p, s, 0) == [] <==> !Describes(p, s)
    ensures FindAll(p, s, 0) != [] ==>
              exists a, b | 0 <= a <= b <= |s| :: FindAll(p, s, 0)[0] == s[a..b] && Leftmost(p, s, a, b)
  {
    SearchLeftmost(p, s, 0);
    var r := Search(p, s, 0);
    var all := FindAll(p, s, 0);
    if r.Some? {
      var sp := r.value;
      assert FindSpans(p, s, 0)[0] == sp;
      assert all[0] == s[sp.start..sp.end];
      assert Accepts(p, s, sp.start, sp.end);
      assert Leftmost(p, s, sp.start, sp.end);
    } else {
      assert FindSpans(p, s, 0) == [];
      assert all == [];
      forall i, j ensures !Accepts(p, s, i, j) {
        assert 0 <= i;
      }
    }
  }

  /** `re.split` for a pattern without groups: the texts between successive matches. */
  function Split(p: Pattern, s: string, from: nat): (r: seq<string>)
    requires from <= |s| && MinLength(p) > 0
    ensures |r| == |FindSpans(p, s, from)| + 1
    decreases |s| - from
  {
    match Search(p, s, from)
    case None => [s[from..]]
    case Some(sp) => [s[from..sp.start]] + Split(p, s, sp.end)
  }

  /** pieces[0] + seps[0] + pieces[1] + ... + pieces[|seps|]. */
  function Interleave(pieces: seq<string>, seps: seq<string>): string
    requires |pieces| == |seps| + 1
    decreases |seps|
  {
    if seps == [] then pieces[0] else pieces[0] + seps[0] + Interleave(pieces[1..], seps[1..])
  }

  /** The pieces of `re.split` and the matches of `re.findall`, interleaved, give back the text. */
  lemma {:induction false} SplitFindAllInterleave(p: Pattern, s: string, from: nat)
    requires from <= |s| && MinLength(p) > 0
    ensures Interleave(Split(p, s, from), FindAll(p, s, from)) == s[from..]
    decreases |s| - from
  {
    match Search(p, s, from)
    case None =>
    case Some(sp) =>
      SplitFindAllInterleave(p, s, sp.end);
      var all := FindAll(p, s, from);
      assert all[0] == s[sp.start..sp.end];
      assert all[1..] == FindAll(p, s, sp.end);
      assert Split(p, s, from)[1..] == Split(p, s, sp.end);
      SliceThree(s, from, sp.start, sp.end);
  }

  lemma SliceThree(s: string, a: nat, b: nat, c: nat)
    requires a <= b <= c <= |s|
    ensures s[a..] == s[a..b] + s[b..c] + s[c..]
  {
    assert s[a..] == s[a..b] + s[b..];
    assert s[b..] == s[b..c] + s[c..];
  }

  /** Where the search for span k resumes: at `from` for the first span, at the end of span k - 1 after that. */
  function ResumeAt(r: seq<Span>, from: nat, k: nat): nat
    requires k <= |r|
  {
    if k == 0 then from else r[k - 1].end
  }

  /**
   * `re.findall` skips no match: span k is what `re.search` reports when it
   * resumes at the end of span k - 1, and a search that resumes after the
   * last span finds nothing.
   */
  lemma {:induction false} FindSpansNext(p: Pattern, s: string, from: nat)
    requires from <= |s| && MinLength(p) > 0
    ensures var r := FindSpans(p, s, from);
            forall k | 0 <= k < |r| :: ResumeAt(r, from, k) <= |s| && Search(p, s, ResumeAt(r, from, k)) == Some(r[k])
    ensures var r := FindSpans(p, s, from);
            ResumeAt(r, from, |r|) <= |s| && Search(p, s, ResumeAt(r, from, |r|)).None?
    decreases |s| - from
  {
    var r := FindSpans(p, s, from);
    match Search(p, s, from)
    case None =>
    case Some(sp) =>
      var rest := FindSpans(p, s, sp.end);
      FindSpansNext(p, s, sp.end);
      assert r == [sp] + rest;
      forall k | 0 <= k < |r|
        ensures ResumeAt(r, from, k) <= |s| && Search(p, s, ResumeAt(r, from, k)) == Some(r[k])
      {
        if k > 0 {
          ResumeShift(r, rest, sp, from, k);
          assert r[k] == rest[k - 1];
        }
      }
      ResumeShift(r, rest, sp, from, |r|);
  }

  lemma ResumeShift(r: seq<Span>, rest: seq<Span>, sp: Span, from: nat, k: nat)
    requires r == [sp] + rest && 1 <= k <= |r|
    ensures ResumeAt(r, from, k) == ResumeAt(rest, sp.end, k - 1)
  {
  }

  /** Between successive spans, and after the last one, the engine matches nowhere. */
  lemma FindSpansGaps(p: Pattern, s: string, from: nat)
    requires from <= |s| && MinLength(p) > 0
    ensures var r := FindSpans(p, s, from);
            forall k | 0 <= k < |r| :: forall i | ResumeAt(r, from, k) <= i < r[k].start :: MatchAt(p, s, i).None?
    ensures var r := FindSpans(p, s, from);
            forall i | ResumeAt(r, from, |r|) <= i <= |s| :: MatchAt(p, s, i).None?
  {
    var r := FindSpans(p, s, from);
    FindSpansNext(p, s, from);
    forall k | 0 <= k < |r|
      ensures forall i | ResumeAt(r, from, k) <= i < r[k].start :: MatchAt(p, s, i).None?
    {
      assert Search(p, s, ResumeAt(r, from, k)) == Some(r[k]);
    }
  }

  /** FindSpansGaps for one position: before span k (or after the last span when k is their number) the engine matches nowhere. */
  lemma GapHasNoMatch(p: Pattern, s: string, from: nat, k: nat, i: nat)
    requires from <= |s| && MinLength(p) > 0
    requires k <= |FindSpans(p, s, from)| && ResumeAt(FindSpans(p, s, from), from, k) <= i <= |s|
    requires k < |FindSpans(p, s, from)| ==> i < FindSpans(p, s, from)[k].start
    ensures MatchAt(p, s, i).None?
  {
    FindSpansGaps(p, s, from);
  }

  /**
   * The spans of `re.findall`, in terms of the pattern's meaning: span k is
   * a text the pattern describes, and no text is described that starts
   * between the end of the previous span and span k, or after the last span.
   */
  lemma FindSpansLeftmost(p: Pattern, s: string, from: nat)
    requires from <= |s| && MinLength(p) > 0
    ensures var r := FindSpans(p, s, from);
            forall k | 0 <= k < |r| ::
              Accepts(p, s, r[k].start, r[k].end) &&
              forall i, j | ResumeAt(r, from, k) <= i < r[k].start :: !Accepts(p, s, i, j)
    ensures var r := FindSpans(p, s, from);
            forall i, j | ResumeAt(r, from, |r|) <= i :: !Accepts(p, s, i, j)
  {
    var r := FindSpans(p, s, from);
    FindSpansNext(p, s, from);
    forall k | 0 <= k < |r|
      ensures Accepts(p, s, r[k].start, r[k].end)
      ensures forall i, j | ResumeAt(r, from, k) <= i < r[k].start :: !Accepts(p, s, i, j)
    {
      SearchLeftmost(p, s, ResumeAt(r, from, k));
    }
    SearchLeftmost(p, s, ResumeAt(r, from, |r|));
  }

  /** Piece k of `re.split` is the text from where span k - 1 ends up to where span k starts; the last piece runs to the end. */
  lemma {:induction false} SplitPieces(p: Pattern, s: string, from: nat)
    requires from <= |s| && MinLength(p) > 0
    ensures var r := FindSpans(p, s, from);
            forall k | 0 <= k <= |r| ::
              ResumeAt(r, from, k) <= (if k < |r| then r[k].start else |s|) <= |s| &&
              Split(p, s, from)[k] == s[ResumeAt(r, from, k)..if k < |r| then r[k].start else |s|]
    decreases |s| - from
  {
    var r := FindSpans(p, s, from);
    match Search(p, s, from)
    case None =>
    case Some(sp) =>
      var rest := FindSpans(p, s, sp.end);
      SplitPieces(p, s, sp.end);
      assert r == [sp] + rest;
      var pieces := Split(p, s, from);
      assert pieces == [s[from..sp.start]] + Split(p, s, sp.end);
      forall k | 1 <= k <= |r|
        ensures ResumeAt(r, from, k) <= (if k < |r| then r[k].start else |s|) <= |s|
        ensures pieces[k] == s[ResumeAt(r, from, k)..if k < |r| then r[k].start else |s|]
      {
        ResumeShift(r, rest, sp, from, k);
        assert pieces[k] == Split(p, s, sp.end)[k - 1];
        if k < |r| {
          assert r[k] == rest[k - 1];
        }
      }
  }

  /** One step of reading a pattern: a repetition that covers s[i..m]. */
  lemma AcceptsRepeat(p: Pattern, s: string, i: nat, m: nat, j: nat)
    requires p != [] && p[0].Repeat?
    requires i + p[0].min <= m <= |s| && Allows(p[0].max, m - i) && RunIn(s, i, m, p[0].cls)
    requires Accepts(p[1..], s, m, j)
    ensures Accepts(p, s, i, j)
  {
  }

  /** One step of reading a pattern: a word boundary at i. */
  lemma AcceptsBoundary(p: Pattern, s: string, i: nat, j: nat)
    requires p != [] && p[0].Boundary? && i <= |s| && AtBoundary(s, i)
    requires Accepts(p[1..], s, i, j)
    ensures Accepts(p, s, i, j)
  {
  }
}
