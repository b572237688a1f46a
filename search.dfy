/**
 * The general keyword search: the document is cut into sentences, each
 * sentence scored by how many of the question's words it contains, and the
 * best five sentences answer, highest score first.
 */
module KeywordSearch {
  import opened Wrappers
  import opened Text
  import opened Regex
  import opened Ranking
  import opened Answers

  /** `[.!?]\s+`: the end of a sentence, consumed by the split. */
  const SentenceBreak: Pattern := [Repeat(AnyOf(".!?"), 1, AtMost(1)), Repeat(Space, 1, Unbounded)]

  /** `\b\w+\b`: a word of the question. */
  const WordToken: Pattern := [Boundary, Repeat(Word, 1, Unbounded), Boundary]

  /** How many sentences the answer holds at most. */
  const MaxParts := 5

  /** Longer answers are cut to this many characters. */
  const MaxAnswer := 800

  const Ellipsis := "..."
  const NoRelevant := CouldNotFind + "relevant information in the document to answer your question."

  /** `re.split(r'[.!?]\s+', content)` */
  function Sentences(content: string): (r: seq<string>)
    ensures |r| >= 1
  {
    assert MinLength(SentenceBreak) == 2;
    Split(SentenceBreak, content, 0)
  }

  /** `re.findall(r'\b\w+\b', question_lower)` */
  function Keywords(question: string): seq<string> {
    assert MinLength(WordToken) == 1;
    FindAll(WordToken, question, 0)
  }

  /** Where `re.findall(r'\b\w+\b', ...)` finds the words of the question. */
  function WordSpans(question: string): seq<Span> {
    assert MinLength(WordToken) == 1;
    FindSpans(WordToken, question, 0)
  }

  /** Where `re.split(r'[.!?]\s+', ...)` cuts the document. */
  function BreakSpans(content: string): seq<Span> {
    assert MinLength(SentenceBreak) == 2;
    FindSpans(SentenceBreak, content, 0)
  }

  /** `sum(1 for keyword in keywords if keyword in sentence_lower)`: every entry counts, repeated ones again. */
  function Score(keywords: seq<string>, sentenceLower: string): (n: nat)
    ensures n <= |keywords|
    decreases |keywords|
  {
    if keywords == [] then 0
    else Score(keywords[..|keywords| - 1], sentenceLower) + (if Contains(sentenceLower, keywords[|keywords| - 1]) then 1 else 0)
  }

  /** The score of sentence i of the document. */
  function ScoreOf(sentences: seq<string>, keywords: seq<string>, i: nat): nat
    requires i < |sentences|
  {
    Score(keywords, Lower(sentences[i]))
  }

  /** What the first n sentences contribute to `relevant_sentences`: each one with a positive score, stripped, with its score. */
  function Relevant(sentences: seq<string>, keywords: seq<string>, n: nat): (r: seq<Scored>)
    requires n <= |sentences|
    ensures |r| <= n
    decreases n
  {
    if n == 0 then []
    else
      var score := ScoreOf(sentences, keywords, n - 1);
      Relevant(sentences, keywords, n - 1) + (if score > 0 then [Scored(Strip(sentences[n - 1]), score)] else [])
  }

  /** `[sentence for sentence, score in ...]` */
  function Texts(xs: seq<Scored>): (r: seq<string>)
    ensures |r| == |xs|
    decreases |xs|
  {
    if xs == [] then [] else [xs[0].sentence] + Texts(xs[1..])
  }

  /** An answer longer than 800 characters is cut there and "..." added. */
  function Truncate(answer: string): string {
    if |answer| > MaxAnswer then answer[..MaxAnswer] + Ellipsis else answer
  }

  /** The kept sentences of the document, best first. */
  function Ranked(content: string, questionLower: string): seq<Scored> {
    var sentences := Sentences(content);
    SortByScore(Relevant(sentences, Keywords(questionLower), |sentences|))
  }

  /** The answer of `general_search`. */
  function GeneralAnswer(content: string, questionLower: string): string {
    var ranked := Ranked(content, questionLower);
    if ranked == [] then NoRelevant else Truncate(Join(Texts(Prefix(ranked, MaxParts)), " "))
  }

  /**
   * `general_search`: the kept sentences are collected in document order,
   * sorted by score, and the first five joined and cut to length.
   */
  method GeneralSearch(content: string, questionLower: string) returns (answer: string)
    ensures answer == GeneralAnswer(content, questionLower)
  {
    var sentences := Sentences(content);
    var keywords := Keywords(questionLower);
    var relevant: seq<Scored> := [];
    for i := 0 to |sentences|
      invariant relevant == Relevant(sentences, keywords, i)
    {
      var sentenceLower := Lower(sentences[i]);
      var score := Score(keywords, sentenceLower);
      if score > 0 {
        relevant := relevant + [Scored(Strip(sentences[i]), score)];
      }
    }
    relevant := SortByScore(relevant);
    if relevant == [] {
      return NoRelevant;
    }
    var parts := Texts(Prefix(relevant, MaxParts));
    answer := Join(parts, " ");
    if |answer| > MaxAnswer {
      answer := answer[..MaxAnswer] + Ellipsis;
    }
  }

  // ------------------------------------------------------------------ scores

  /** The entries of the keyword list that the lower-cased sentence contains, by position. */
  ghost function Hits(keywords: seq<string>, sentenceLower: string): set<nat> {
    set i: nat | i < |keywords| && Contains(sentenceLower, keywords[i])
  }

  /** The score counts the positions of the keyword list whose word the sentence contains, so a repeated word counts each time. */
  lemma {:induction false} ScoreCounts(keywords: seq<string>, sentenceLower: string)
    ensures Score(keywords, sentenceLower) == |Hits(keywords, sentenceLower)|
    decreases |keywords|
  {
    if keywords != [] {
      var n := |keywords| - 1;
      var front := keywords[..n];
      ScoreCounts(front, sentenceLower);
      var last := if Contains(sentenceLower, keywords[n]) then {n} else {};
      assert Hits(keywords, sentenceLower) == Hits(front, sentenceLower) + last by {
        forall i: nat | i < n ensures front[i] == keywords[i] {
        }
      }
      assert Hits(front, sentenceLower) !! last;
    }
  }

  /** A sentence scores above zero exactly when it contains some word of the question. */
  lemma {:induction false} ScorePositive(keywords: seq<string>, sentenceLower: string)
    ensures Score(keywords, sentenceLower) > 0 <==> exists i | 0 <= i < |keywords| :: Contains(sentenceLower, keywords[i])
  {
    ScoreCounts(keywords, sentenceLower);
    var hits := Hits(keywords, sentenceLower);
    if exists i | 0 <= i < |keywords| :: Contains(sentenceLower, keywords[i]) {
      var i :| 0 <= i < |keywords| && Contains(sentenceLower, keywords[i]);
      assert i in hits;
    }
  }

  /** Asking with more words never lowers a score: the counts add up. */
  lemma {:induction false} ScoreAppend(ks: seq<string>, more: seq<string>, sentenceLower: string)
    ensures Score(ks + more, sentenceLower) == Score(ks, sentenceLower) + Score(more, sentenceLower)
    decreases |more|
  {
    if more != [] {
      var n := |more| - 1;
      ScoreAppend(ks, more[..n], sentenceLower);
      assert (ks + more)[..|ks + more| - 1] == ks + more[..n];
      assert (ks + more)[|ks + more| - 1] == more[n];
    } else {
      assert ks + more == ks;
    }
  }

  // ------------------------------------------------------ kept sentences

  /** Every kept entry is a sentence of the document with a positive score, stripped, with that score. */
  lemma {:induction false} RelevantFrom(sentences: seq<string>, keywords: seq<string>, n: nat, k: nat)
    requires n <= |sentences| && k < |Relevant(sentences, keywords, n)|
    ensures exists i | 0 <= i < n ::
              ScoreOf(sentences, keywords, i) > 0 &&
              Relevant(sentences, keywords, n)[k] == Scored(Strip(sentences[i]), ScoreOf(sentences, keywords, i))
    decreases n
  {
    var front := Relevant(sentences, keywords, n - 1);
    if k < |front| {
      RelevantFrom(sentences, keywords, n - 1, k);
      assert Relevant(sentences, keywords, n)[k] == front[k];
    } else {
      assert Relevant(sentences, keywords, n)[k] == Scored(Strip(sentences[n - 1]), ScoreOf(sentences, keywords, n - 1));
    }
  }

  /** Every sentence with a positive score is kept, stripped, with its score. */
  lemma {:induction false} RelevantHas(sentences: seq<string>, keywords: seq<string>, n: nat, i: nat)
    requires i < n <= |sentences| && ScoreOf(sentences, keywords, i) > 0
    ensures Scored(Strip(sentences[i]), ScoreOf(sentences, keywords, i)) in Relevant(sentences, keywords, n)
    decreases n
  {
    if i < n - 1 {
      RelevantHas(sentences, keywords, n - 1, i);
    }
  }

  /** Nothing is kept exactly when no sentence contains any word of the question. */
  lemma {:induction false} RelevantEmpty(sentences: seq<string>, keywords: seq<string>, n: nat)
    requires n <= |sentences|
    ensures Relevant(sentences, keywords, n) == [] <==> forall i | 0 <= i < n :: ScoreOf(sentences, keywords, i) == 0
    decreases n
  {
    if n > 0 {
      RelevantEmpty(sentences, keywords, n - 1);
    }
  }

  // ------------------------------------------------------------- the answer

  /** The entries of one score among the first n of a sequence lead those of the whole sequence. */
  lemma {:induction false} WithScorePrefix(xs: seq<Scored>, n: nat, v: nat)
    ensures WithScore(Prefix(xs, n), v) <= WithScore(xs, v)
    decreases |xs|
  {
    if |xs| > n && n > 0 {
      WithScorePrefix(xs[1..], n - 1, v);
      assert Prefix(xs, n)[1..] == Prefix(xs[1..], n - 1);
    } else if |xs| > n {
      assert Prefix(xs, n) == [];
    }
  }

  /**
   * The sentences that answer are at most five kept sentences: the ones with
   * the highest scores, with sentences of equal score in document order.
   */
  lemma TopSentences(relevant: seq<Scored>)
    ensures var top := Prefix(SortByScore(relevant), MaxParts);
            |top| == Min(MaxParts, |relevant|) &&
            Descending(top) &&
            (forall i, j | 0 <= i < |top| <= j < |relevant| :: top[i].score >= SortByScore(relevant)[j].score) &&
            (forall e | e in top :: e in relevant) &&
            (forall v: nat :: WithScore(top, v) <= WithScore(relevant, v))
  {
    var ranked := SortByScore(relevant);
    var top := Prefix(ranked, MaxParts);
    SortDescending(relevant);
    SortPermutation(relevant);
    forall e | e in top ensures e in relevant {
      assert e in multiset(ranked);
    }
    forall v: nat ensures WithScore(top, v) <= WithScore(relevant, v) {
      WithScorePrefix(ranked, MaxParts, v);
      SortStable(relevant, v);
    }
  }

  /** A long answer is cut to exactly 803 characters, its first 800 and "..."; a short one is left alone. */
  lemma TruncateSpec(answer: string)
    ensures |answer| <= MaxAnswer ==> Truncate(answer) == answer
    ensures |answer| > MaxAnswer ==>
              |Truncate(answer)| == MaxAnswer + |Ellipsis| &&
              Truncate(answer)[..MaxAnswer] == answer[..MaxAnswer] &&
              Truncate(answer)[MaxAnswer..] == Ellipsis
    ensures |Truncate(answer)| <= MaxAnswer + |Ellipsis|
  {
  }

  /** The ranking is empty exactly when no sentence contains a word of the question. */
  lemma RankedEmpty(sentences: seq<string>, keywords: seq<string>)
    ensures SortByScore(Relevant(sentences, keywords, |sentences|)) == [] <==>
            forall i | 0 <= i < |sentences| :: ScoreOf(sentences, keywords, i) == 0
  {
    var relevant := Relevant(sentences, keywords, |sentences|);
    RelevantEmpty(sentences, keywords, |sentences|);
    assert |SortByScore(relevant)| == |relevant|;
  }

  /**
   * The answer is the not-found message exactly when no sentence contains a
   * word of the question. Otherwise it opens with the best sentence, one whose
   * score no sentence beats (up to the 800-character cut), and it is at most
   * 803 characters long.
   */
  lemma GeneralAnswerSpec(content: string, questionLower: string)
    ensures var sentences := Sentences(content);
            var keywords := Keywords(questionLower);
            Ranked(content, questionLower) == [] <==> forall i | 0 <= i < |sentences| :: ScoreOf(sentences, keywords, i) == 0
    ensures Ranked(content, questionLower) == [] ==> GeneralAnswer(content, questionLower) == NoRelevant
    ensures Ranked(content, questionLower) != [] ==>
              var sentences := Sentences(content);
              var best := Ranked(content, questionLower)[0];
              var n := Min(|best.sentence|, MaxAnswer);
              var answer := GeneralAnswer(content, questionLower);
              (forall i | 0 <= i < |sentences| :: ScoreOf(sentences, Keywords(questionLower), i) <= best.score) &&
              n <= |answer| <= MaxAnswer + |Ellipsis| && answer[..n] == best.sentence[..n]
  {
    var sentences := Sentences(content);
    var keywords := Keywords(questionLower);
    RankedEmpty(sentences, keywords);
    var ranked := Ranked(content, questionLower);
    if ranked != [] {
      BestScoreHighest(sentences, keywords);
      var parts := Texts(Prefix(ranked, MaxParts));
      assert parts[0] == ranked[0].sentence;
      JoinStartsWithFirst(parts, " ");
      TruncateKeepsStart(Join(parts, " "), ranked[0].sentence);
      TruncateSpec(Join(parts, " "));
    }
  }

  /** No sentence scores above the first ranked entry. */
  lemma BestScoreHighest(sentences: seq<string>, keywords: seq<string>)
    requires SortByScore(Relevant(sentences, keywords, |sentences|)) != []
    ensures forall i | 0 <= i < |sentences| ::
              ScoreOf(sentences, keywords, i) <= SortByScore(Relevant(sentences, keywords, |sentences|))[0].score
  {
    var relevant := Relevant(sentences, keywords, |sentences|);
    var ranked := SortByScore(relevant);
    SortPermutation(relevant);
    SortDescending(relevant);
    forall i | 0 <= i < |sentences| && ScoreOf(sentences, keywords, i) > 0
      ensures ScoreOf(sentences, keywords, i) <= ranked[0].score
    {
      var e := Scored(Strip(sentences[i]), ScoreOf(sentences, keywords, i));
      RelevantHas(sentences, keywords, |sentences|, i);
      assert e in multiset(ranked);
      var j :| 0 <= j < |ranked| && ranked[j] == e;
      if j > 0 {
        assert ranked[0].score >= ranked[j].score;
      }
    }
  }

  /** `' '.join(parts)` opens with the first part. */
  lemma JoinStartsWithFirst(parts: seq<string>, sep: string)
    requires parts != []
    ensures parts[0] <= Join(parts, sep)
  {
    if |parts| > 1 {
      assert Join(parts, sep) == parts[0] + (sep + Join(parts[1..], sep));
    }
  }

  /** Cutting to length keeps whatever the answer opened with, up to 800 characters. */
  lemma TruncateKeepsStart(answer: string, first: string)
    requires first <= answer
    ensures Min(|first|, MaxAnswer) <= |Truncate(answer)|
    ensures Truncate(answer)[..Min(|first|, MaxAnswer)] == first[..Min(|first|, MaxAnswer)]
  {
    var n := Min(|first|, MaxAnswer);
    assert answer[..n] == first[..n];
    if |answer| > MaxAnswer {
      assert Truncate(answer)[..n] == answer[..n];
    }
  }

  // ------------------------------------------------------ words and breaks

  /** s[a..b] is a word for `\b\w+\b`: a run of word characters with no word character just before or just after it. */
  ghost predicate WordRun(s: string, a: nat, b: nat) {
    a < b <= |s| && RunIn(s, a, b, Word) && (a == 0 || !IsWordChar(s[a - 1])) && (b == |s| || !IsWordChar(s[b]))
  }

  /** A sentence break can start at i: one of ".", "!", "?" followed by whitespace. */
  predicate BreakAt(s: string, i: nat) {
    i + 1 < |s| && s[i] in ".!?" && IsSpace(s[i + 1])
  }

  /** The word pattern matches exactly where a word starts, and reads the whole word. */
  lemma WordTokenAt(s: string, i: nat)
    requires i <= |s|
    ensures MatchAt(WordToken, s, i) ==
              if i < |s| && IsWordChar(s[i]) && (i == 0 || !IsWordChar(s[i - 1]))
              then Some(i + MaxRun(Word, s, i)) else None
  {
    var p := WordToken;
    assert p[1..] == [Repeat(Word, 1, Unbounded), Boundary];
    assert p[1..][1..] == [Boundary];
    assert p[1..][1..][1..] == [];
    var n := MaxRun(Word, s, i);
    MaxRunIn(Word, s, i);
    if n > 0 {
      assert InClass(s[i + n - 1], Word);
      assert AtBoundary(s, i + n);
      assert MatchAt(p[1..][1..], s, i + n) == Some(i + n);
    }
  }

  /** The break pattern matches exactly where a break starts, and reads the whole run of whitespace after the mark. */
  lemma SentenceBreakAt(s: string, i: nat)
    requires i <= |s|
    ensures MatchAt(SentenceBreak, s, i) ==
              if BreakAt(s, i) then Some(i + 1 + MaxRun(Space, s, i + 1)) else None
  {
    var p := SentenceBreak;
    assert p[1..] == [Repeat(Space, 1, Unbounded)];
    assert p[1..][1..] == [];
    var marks := MaxRun(AnyOf(".!?"), s, i);
    MaxRunIn(AnyOf(".!?"), s, i);
    if marks > 0 {
      var n := MaxRun(Space, s, i + 1);
      MaxRunIn(Space, s, i + 1);
      assert Cap(AtMost(1), marks) == 1;
      if n > 0 {
        assert Cap(Unbounded, n) == n;
        assert MatchAt(p[1..][1..], s, i + 1 + n) == Some(i + 1 + n);
        assert MatchAt(p[1..], s, i + 1) == Some(i + 1 + n);
      } else {
        assert MatchAt(p[1..], s, i + 1) == None;
      }
    }
  }

  /** Every word the search finds is a whole word of the question, and the search finds them left to right. */
  lemma WordSpansAreWords(question: string)
    ensures var r := WordSpans(question);
            forall k | 0 <= k < |r| :: WordRun(question, r[k].start, r[k].end)
  {
    var r := WordSpans(question);
    forall k | 0 <= k < |r| ensures WordRun(question, r[k].start, r[k].end) {
      WordTokenAt(question, r[k].start);
      MaxRunIn(Word, question, r[k].start);
    }
  }

  /** No word of the question is skipped: every word is found, from any position at or before its start. */
  lemma {:induction false} WordRunFound(question: string, from: nat, a: nat, b: nat)
    requires from <= a && WordRun(question, a, b) && MinLength(WordToken) > 0
    ensures exists k | 0 <= k < |FindSpans(WordToken, question, from)| :: FindSpans(WordToken, question, from)[k] == Span(a, b)
    decreases |question| - from
  {
    WordMatch(question, a, b);
    var r := FindSpans(WordToken, question, from);
    match Search(WordToken, question, from)
    case None =>
      assert false;
    case Some(sp) =>
      if sp.start == a {
        assert r[0] == Span(a, b);
      } else {
        assert sp.start < a;
        WordMatchEndsBefore(question, sp.start, sp.end, a, b);
        WordRunFound(question, sp.end, a, b);
        var rest := FindSpans(WordToken, question, sp.end);
        var k :| 0 <= k < |rest| && rest[k] == Span(a, b);
        assert r == [sp] + rest;
        assert r[k + 1] == rest[k];
      }
  }

  /** The word pattern reads a whole word from its start. */
  lemma WordMatch(question: string, a: nat, b: nat)
    requires WordRun(question, a, b)
    ensures MatchAt(WordToken, question, a) == Some(b)
  {
    WordTokenAt(question, a);
    RunMaximal(Word, question, a, b);
  }

  /** A match of the word pattern that starts before a word ends at or before that word's start. */
  lemma WordMatchEndsBefore(question: string, c: nat, e: nat, a: nat, b: nat)
    requires c < a && c <= |question| && MatchAt(WordToken, question, c) == Some(e) && WordRun(question, a, b)
    ensures e <= a
  {
    WordTokenAt(question, c);
    MaxRunIn(Word, question, c);
    assert !InClass(question[a - 1], Word);
  }

  /**
   * The keywords are the words of the question in order: keyword k is the
   * text of the k-th word span, every span is a whole word, spans strictly
   * increase, and every word of the question is among them.
   */
  lemma KeywordsAreWords(question: string)
    ensures var r := WordSpans(question);
            |Keywords(question)| == |r| &&
            (forall k | 0 <= k < |r| ::
               WordRun(question, r[k].start, r[k].end) && Keywords(question)[k] == question[r[k].start..r[k].end]) &&
            (forall k | 0 <= k < |r| - 1 :: r[k].end < r[k + 1].start) &&
            (forall a, b | WordRun(question, a, b) :: exists k | 0 <= k < |r| :: r[k] == Span(a, b))
  {
    var r := WordSpans(question);
    WordSpansAreWords(question);
    forall a, b | WordRun(question, a, b) ensures exists k | 0 <= k < |r| :: r[k] == Span(a, b) {
      WordRunFound(question, 0, a, b);
    }
    forall k | 0 <= k < |r| - 1 ensures r[k].end < r[k + 1].start {
      assert WordRun(question, r[k + 1].start, r[k + 1].end);
    }
  }

  /** `re.split(r'[.!?]\s+', content)`: the sentences are the texts between successive breaks, the last one running to the end. */
  lemma SentencesBetweenBreaks(content: string)
    ensures var r := BreakSpans(content);
            |Sentences(content)| == |r| + 1 &&
            forall k | 0 <= k <= |r| ::
              ResumeAt(r, 0, k) <= (if k < |r| then r[k].start else |content|) <= |content| &&
              Sentences(content)[k] == content[ResumeAt(r, 0, k)..if k < |r| then r[k].start else |content|]
  {
    SplitPieces(SentenceBreak, content, 0);
  }

  /** Each break the split cuts at is a mark followed by its whole run of whitespace. */
  lemma BreakSpansAreBreaks(content: string)
    ensures var r := BreakSpans(content);
            forall k | 0 <= k < |r| ::
              BreakAt(content, r[k].start) && r[k].end == r[k].start + 1 + MaxRun(Space, content, r[k].start + 1)
  {
    var r := BreakSpans(content);
    forall k | 0 <= k < |r|
      ensures BreakAt(content, r[k].start) && r[k].end == r[k].start + 1 + MaxRun(Space, content, r[k].start + 1)
    {
      SentenceBreakAt(content, r[k].start);
    }
  }

  /** The split skips no break: none starts between two breaks it cuts at, or after the last one. */
  lemma NoBreakSkipped(content: string)
    ensures var r := BreakSpans(content);
            forall k | 0 <= k < |r| :: forall i | ResumeAt(r, 0, k) <= i < r[k].start :: !BreakAt(content, i)
    ensures var r := BreakSpans(content);
            forall i | ResumeAt(r, 0, |r|) <= i <= |content| :: !BreakAt(content, i)
  {
    var r := BreakSpans(content);
    forall k, i | 0 <= k < |r| && ResumeAt(r, 0, k) <= i < r[k].start ensures !BreakAt(content, i) {
      GapHasNoMatch(SentenceBreak, content, 0, k, i);
      SentenceBreakAt(content, i);
    }
    forall i | ResumeAt(r, 0, |r|) <= i <= |content| ensures !BreakAt(content, i) {
      GapHasNoMatch(SentenceBreak, content, 0, |r|, i);
      SentenceBreakAt(content, i);
    }
  }
}
