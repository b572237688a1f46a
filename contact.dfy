/**
 * The e-mail and telephone extractors: each answers with the first match of a
 * regular expression over the whole document text.
 */
module ContactExtractors {
  import opened Wrappers
  import opened Text
  import opened Regex
  import opened Answers

  // ------------------------------------------------------------------ e-mail

  /** `[A-Za-z0-9._%+-]` */
  const EmailLocal: CharClass := Either(Either(Letter, Digit), AnyOf("._%+-"))
  /** `[A-Za-z0-9.-]` */
  const EmailDomain: CharClass := Either(Either(Letter, Digit), AnyOf(".-"))
  /** `[A-Z|a-z]`: inside the brackets the bar is a literal character. */
  const EmailTld: CharClass := Either(Letter, AnyOf("|"))

  /** `\b[A-Za-z0-9._%+-]+@[A-Za-z0-9.-]+\.[A-Z|a-z]{2,}\b` */
  const EmailPattern: Pattern := [
    Boundary,
    Repeat(EmailLocal, 1, Unbounded),
    Repeat(AnyOf("@"), 1, AtMost(1)),
    Repeat(EmailDomain, 1, Unbounded),
    Repeat(AnyOf("."), 1, AtMost(1)),
    Repeat(EmailTld, 2, Unbounded),
    Boundary
  ]

  const EmailFound := "The email address is: "
  const NoEmail := CouldNotFind + "an email address in the document."

  /** `find_email_in_content`: the first address `re.findall` reports, or the not-found message. */
  function FindEmail(content: string): string {
    var emails := FindAll(EmailPattern, content, 0);
    if emails != [] then EmailFound + emails[0] else NoEmail
  }

  /**
   * The e-mail answer quotes the leftmost text of the document that the
   * address pattern describes; when the pattern describes no text anywhere,
   * the answer is the not-found message.
   */
  lemma FindEmailSpec(content: string)
    ensures FindEmail(content) == NoEmail <==> !Describes(EmailPattern, content)
    ensures FindEmail(content) != NoEmail ==>
              exists a, b | 0 <= a <= b <= |content| ::
                FindEmail(content) == EmailFound + content[a..b] && Leftmost(EmailPattern, content, a, b)
  {
    FindAllFirst(EmailPattern, content);
    var emails := FindAll(EmailPattern, content, 0);
    if emails != [] {
      var a, b :| 0 <= a <= b <= |content| && emails[0] == content[a..b] && Leftmost(EmailPattern, content, a, b);
      var answer := EmailFound + content[a..b];
      FoundIsNotMissing(EmailFound, "an email address in the document.", content[a..b]);
      assert FindEmail(content) == answer;
    }
  }

  // --------------------------------------------------------------- telephone

  /** `[-.]` */
  const DashOrDot: CharClass := AnyOf("-.")
  /** `[-.\s]` */
  const PhoneSeparator: CharClass := Either(AnyOf("-."), Space)

  /** `\b\d{3}[-.]?\d{3}[-.]?\d{4}\b`, the plain US format. */
  const UsPhone: Pattern := [
    Boundary,
    Repeat(Digit, 3, AtMost(3)),
    Repeat(DashOrDot, 0, AtMost(1)),
    Repeat(Digit, 3, AtMost(3)),
    Repeat(DashOrDot, 0, AtMost(1)),
    Repeat(Digit, 4, AtMost(4)),
    Boundary
  ]

  /** `\(\d{3}\)\s?\d{3}[-.]?\d{4}\b`, the parenthesised area code. */
  const ParenPhone: Pattern := [
    Repeat(AnyOf("("), 1, AtMost(1)),
    Repeat(Digit, 3, AtMost(3)),
    Repeat(AnyOf(")"), 1, AtMost(1)),
    Repeat(Space, 0, AtMost(1)),
    Repeat(Digit, 3, AtMost(3)),
    Repeat(DashOrDot, 0, AtMost(1)),
    Repeat(Digit, 4, AtMost(4)),
    Boundary
  ]

  /** `\+\d{1,3}[-.\s]?\d{3,4}[-.\s]?\d{3,4}[-.\s]?\d{3,4}\b`, the international format. */
  const IntlPhone: Pattern := [
    Repeat(AnyOf("+"), 1, AtMost(1)),
    Repeat(Digit, 1, AtMost(3)),
    Repeat(PhoneSeparator, 0, AtMost(1)),
    Repeat(Digit, 3, AtMost(4)),
    Repeat(PhoneSeparator, 0, AtMost(1)),
    Repeat(Digit, 3, AtMost(4)),
    Repeat(PhoneSeparator, 0, AtMost(1)),
    Repeat(Digit, 3, AtMost(4)),
    Boundary
  ]

  /** The second pattern as the source writes it, `\b\(\d{3}\)...`: a boundary before the parenthesis. */
  const ParenPhoneAsWritten: Pattern := [Boundary] + ParenPhone

  /** The third pattern as the source writes it, `\b\+\d{1,3}...`: a boundary before the plus sign. */
  const IntlPhoneAsWritten: Pattern := [Boundary] + IntlPhone

  /** The patterns in the order the extractor tries them, as the source writes them. */
  const PhonePatterns: seq<Pattern> := [UsPhone, ParenPhoneAsWritten, IntlPhoneAsWritten]

  /** The same patterns without the boundary before "(" and "+". */
  const PhonePatternsCorrected: seq<Pattern> := [UsPhone, ParenPhone, IntlPhone]

  const PhoneFound := "The phone number is: "
  const NoPhone := CouldNotFind + "a phone number in the document."

  /** The pattern has at least one match in s. */
  predicate HasMatch(s: string, p: Pattern) {
    MinLength(p) > 0 && FindAll(p, s, 0) != []
  }

  /** The answer of the phone extractor when it tries the given patterns in order. */
  function PhoneAnswer(patterns: seq<Pattern>, content: string): string {
    match FirstIndex(patterns, p => HasMatch(content, p))
    case Some(k) => PhoneFound + FindAll(patterns[k], content, 0)[0]
    case None => NoPhone
  }

  /**
   * `find_phone_in_content`: the patterns are tried in order and the first
   * one with any match answers with its first match.
   */
  method FindPhone(content: string) returns (answer: string)
    ensures answer == PhoneAnswer(PhonePatterns, content)
  {
    var patterns := PhonePatterns;
    PhoneMinLengths();
    for k := 0 to |patterns|
      invariant forall q | 0 <= q < k :: !HasMatch(content, patterns[q])
    {
      assert MinLength(patterns[k]) > 0;
      var phones := FindAll(patterns[k], content, 0);
      if phones != [] {
        FirstIndexIs(patterns, p => HasMatch(content, p), k);
        return PhoneFound + phones[0];
      }
    }
    return NoPhone;
  }

  /**
   * The phone answer is the leftmost match of the first pattern that matches
   * anything; every earlier pattern describes no text of the document, and
   * when no pattern matches the answer is the not-found message.
   */
  lemma PhoneAnswerSpec(patterns: seq<Pattern>, content: string)
    requires forall k | 0 <= k < |patterns| :: MinLength(patterns[k]) > 0
    ensures PhoneAnswer(patterns, content) == NoPhone <==>
              forall k | 0 <= k < |patterns| :: !Describes(patterns[k], content)
    ensures PhoneAnswer(patterns, content) != NoPhone ==>
              exists k, a, b | 0 <= k < |patterns| && 0 <= a <= b <= |content| ::
                PhoneAnswer(patterns, content) == PhoneFound + content[a..b] &&
                Leftmost(patterns[k], content, a, b) &&
                forall q | 0 <= q < k :: !Describes(patterns[q], content)
  {
    var first := FirstIndex(patterns, p => HasMatch(content, p));
    forall q | 0 <= q < |patterns| ensures HasMatch(content, patterns[q]) <==> Describes(patterns[q], content) {
      HasMatchIff(content, patterns[q]);
    }
    if first.Some? {
      var k := first.value;
      FindAllFirst(patterns[k], content);
      var a, b :| 0 <= a <= b <= |content| && FindAll(patterns[k], content, 0)[0] == content[a..b] &&
                  Leftmost(patterns[k], content, a, b);
      FoundIsNotMissing(PhoneFound, "a phone number in the document.", content[a..b]);
      assert PhoneAnswer(patterns, content) == PhoneFound + content[a..b];
    }
  }

  /** The not-found half of PhoneAnswerSpec. */
  lemma PhoneMissingIff(patterns: seq<Pattern>, content: string)
    requires forall k | 0 <= k < |patterns| :: MinLength(patterns[k]) > 0
    ensures PhoneAnswer(patterns, content) == NoPhone <==>
              forall k | 0 <= k < |patterns| :: !Describes(patterns[k], content)
  {
    PhoneAnswerSpec(patterns, content);
  }

  lemma HasMatchIff(s: string, p: Pattern)
    requires MinLength(p) > 0
    ensures HasMatch(s, p) <==> Describes(p, s)
  {
    FindAllFirst(p, s);
  }

  /** Once a pattern matches, the patterns after it are never consulted. */
  lemma PhoneLaterPatternsIgnored(patterns: seq<Pattern>, later: seq<Pattern>, content: string)
    requires exists k | 0 <= k < |patterns| :: HasMatch(content, patterns[k])
    ensures PhoneAnswer(patterns + later, content) == PhoneAnswer(patterns, content)
  {
    var p := (q: Pattern) => HasMatch(content, q);
    FirstIndexAppend(patterns, later, p);
    var k := FirstIndex(patterns, p).value;
    assert (patterns + later)[k] == patterns[k];
  }

  // ----------------------------------------- the boundary before "(" and "+"

  /** As written, the parenthesised pattern can only match right after a word character. */
  lemma ParenPhoneAsWrittenNeedsWordBefore(s: string, i: nat, j: nat)
    requires Accepts(ParenPhoneAsWritten, s, i, j)
    ensures 0 < i < |s| && IsWordChar(s[i - 1]) && s[i] == '('
  {
    assert ParenPhoneAsWritten[1..] == ParenPhone;
    var m :| i + 1 <= m <= |s| && Allows(AtMost(1), m - i) && RunIn(s, i, m, AnyOf("(")) && Accepts(ParenPhone[1..], s, m, j);
    assert s[i] == '(';
  }

  /** As written, the international pattern can only match right after a word character. */
  lemma IntlPhoneAsWrittenNeedsWordBefore(s: string, i: nat, j: nat)
    requires Accepts(IntlPhoneAsWritten, s, i, j)
    ensures 0 < i < |s| && IsWordChar(s[i - 1]) && s[i] == '+'
  {
    assert IntlPhoneAsWritten[1..] == IntlPhone;
    var m :| i + 1 <= m <= |s| && Allows(AtMost(1), m - i) && RunIn(s, i, m, AnyOf("+")) && Accepts(IntlPhone[1..], s, m, j);
    assert s[i] == '+';
  }

  /**
   * As written, "(555) 123-4567" at the start of the text (or after a space)
   * is never matched by the pattern meant for it.
   */
  lemma ParenFormatMissedAsWritten()
    ensures FindAll(ParenPhoneAsWritten, "(555) 123-4567", 0) == []
  {
    var s := "(555) 123-4567";
    forall i: nat, j: nat ensures !Accepts(ParenPhoneAsWritten, s, i, j) {
      if Accepts(ParenPhoneAsWritten, s, i, j) {
        ParenPhoneAsWrittenNeedsWordBefore(s, i, j);
        assert false;
      }
    }
    assert !Describes(ParenPhoneAsWritten, s);
    FindAllFirst(ParenPhoneAsWritten, s);
  }

  /** As written, "+44 1234 567 890" at the start of the text is never matched by the international pattern. */
  lemma IntlFormatMissedAsWritten()
    ensures FindAll(IntlPhoneAsWritten, "+44 1234 567 890", 0) == []
  {
    var s := "+44 1234 567 890";
    forall i: nat, j: nat ensures !Accepts(IntlPhoneAsWritten, s, i, j) {
      if Accepts(IntlPhoneAsWritten, s, i, j) {
        IntlPhoneAsWrittenNeedsWordBefore(s, i, j);
        assert false;
      }
    }
    assert !Describes(IntlPhoneAsWritten, s);
    FindAllFirst(IntlPhoneAsWritten, s);
  }

  /**
   * Without the leading boundary, the parenthesised pattern matches a number
   * "(ddd) ddd-dddd" wherever it starts, provided no word character follows it.
   */
  lemma ParenFormatFoundCorrected(s: string, i: nat)
    requires i + 14 <= |s|
    requires s[i] == '(' && RunIn(s, i + 1, i + 4, Digit) && s[i + 4] == ')' && s[i + 5] == ' '
    requires RunIn(s, i + 6, i + 9, Digit) && s[i + 9] == '-' && RunIn(s, i + 10, i + 14, Digit)
    requires i + 14 == |s| || !IsWordChar(s[i + 14])
    ensures MatchAt(ParenPhone, s, i).Some?
  {
    var p := ParenPhone;
    assert Accepts(p[8..], s, i + 14, i + 14);
    AcceptsBoundary(p[7..], s, i + 14, i + 14);
    assert p[7..][1..] == p[8..];
    AcceptsRepeat(p[6..], s, i + 10, i + 14, i + 14);
    assert p[6..][1..] == p[7..];
    AcceptsRepeat(p[5..], s, i + 9, i + 10, i + 14);
    assert p[5..][1..] == p[6..];
    AcceptsRepeat(p[4..], s, i + 6, i + 9, i + 14);
    assert p[4..][1..] == p[5..];
    AcceptsRepeat(p[3..], s, i + 5, i + 6, i + 14);
    assert p[3..][1..] == p[4..];
    AcceptsRepeat(p[2..], s, i + 4, i + 5, i + 14);
    assert p[2..][1..] == p[3..];
    AcceptsRepeat(p[1..], s, i + 1, i + 4, i + 14);
    assert p[1..][1..] == p[2..];
    AcceptsRepeat(p, s, i, i + 1, i + 14);
    MatchAtComplete(p, s, i, i + 14);
  }

  /** Without the leading boundary, "(555) 123-4567" is matched from its first character. */
  lemma ParenFormatFoundCorrectedExample()
    ensures var s := "(555) 123-4567"; Search(ParenPhone, s, 0).Some? && Search(ParenPhone, s, 0).value.start == 0
  {
    ParenFormatFoundCorrected("(555) 123-4567", 0);
  }

  /**
   * Without the leading boundary, the international pattern matches a number
   * "+cc dddd ddd ddd" wherever it starts, provided no word character follows it.
   */
  lemma IntlFormatFoundCorrected(s: string, i: nat)
    requires i + 16 <= |s|
    requires s[i] == '+' && RunIn(s, i + 1, i + 3, Digit) && s[i + 3] == ' ' && RunIn(s, i + 4, i + 8, Digit)
    requires s[i + 8] == ' ' && RunIn(s, i + 9, i + 12, Digit) && s[i + 12] == ' ' && RunIn(s, i + 13, i + 16, Digit)
    requires i + 16 == |s| || !IsWordChar(s[i + 16])
    ensures MatchAt(IntlPhone, s, i).Some?
  {
    var p := IntlPhone;
    IntlGroupsAccepted(s, i + 8);
    AcceptsRepeat(p[4..], s, i + 8, i + 9, i + 16);
    assert p[4..][1..] == p[5..];
    AcceptsRepeat(p[3..], s, i + 4, i + 8, i + 16);
    assert p[3..][1..] == p[4..];
    AcceptsRepeat(p[2..], s, i + 3, i + 4, i + 16);
    assert p[2..][1..] == p[3..];
    AcceptsRepeat(p[1..], s, i + 1, i + 3, i + 16);
    assert p[1..][1..] == p[2..];
    AcceptsRepeat(p, s, i, i + 1, i + 16);
    MatchAtComplete(p, s, i, i + 16);
  }

  /** The last two digit groups of an international number, " ddd ddd" read from its first digit, then the boundary. */
  lemma IntlGroupsAccepted(s: string, k: nat)
    requires k + 8 <= |s|
    requires RunIn(s, k + 1, k + 4, Digit) && s[k + 4] == ' ' && RunIn(s, k + 5, k + 8, Digit)
    requires k + 8 == |s| || !IsWordChar(s[k + 8])
    ensures Accepts(IntlPhone[5..], s, k + 1, k + 8)
  {
    var p := IntlPhone;
    assert Accepts(p[9..], s, k + 8, k + 8);
    AcceptsBoundary(p[8..], s, k + 8, k + 8);
    assert p[8..][1..] == p[9..];
    AcceptsRepeat(p[7..], s, k + 5, k + 8, k + 8);
    assert p[7..][1..] == p[8..];
    AcceptsRepeat(p[6..], s, k + 4, k + 5, k + 8);
    assert p[6..][1..] == p[7..];
    AcceptsRepeat(p[5..], s, k + 1, k + 4, k + 8);
  }

  /** Without the leading boundary, "+44 1234 567 890" is matched from its first character. */
  lemma IntlFormatFoundCorrectedExample()
    ensures var s := "+44 1234 567 890"; Search(IntlPhone, s, 0).Some? && Search(IntlPhone, s, 0).value.start == 0
  {
    IntlFormatFoundCorrected("+44 1234 567 890", 0);
  }

  /** Dropping a leading boundary never loses a match. */
  lemma BoundaryDropped(p: Pattern, s: string, i: nat, j: nat)
    requires Accepts([Boundary] + p, s, i, j)
    ensures Accepts(p, s, i, j)
  {
    assert ([Boundary] + p)[1..] == p;
  }

  /** The corrected patterns find a number in every document where the source's patterns find one. */
  lemma CorrectedNeverMisses(content: string)
    ensures PhoneAnswer(PhonePatterns, content) != NoPhone ==> PhoneAnswer(PhonePatternsCorrected, content) != NoPhone
  {
    PhoneMinLengths();
    PhoneMissingIff(PhonePatterns, content);
    PhoneMissingIff(PhonePatternsCorrected, content);
    if PhoneAnswer(PhonePatterns, content) != NoPhone {
      var k :| 0 <= k < |PhonePatterns| && Describes(PhonePatterns[k], content);
      CorrectedDescribes(content, k);
    }
  }

  /** Every phone pattern, as written or corrected, spans at least one character. */
  lemma PhoneMinLengths()
    ensures forall k | 0 <= k < |PhonePatterns| :: MinLength(PhonePatterns[k]) > 0
    ensures forall k | 0 <= k < |PhonePatternsCorrected| :: MinLength(PhonePatternsCorrected[k]) > 0
  {
    RepeatFirstPositive(ParenPhone);
    RepeatFirstPositive(IntlPhone);
    BoundaryFirst(UsPhone);
    RepeatFirstPositive(UsPhone[1..]);
    BoundaryFirst(ParenPhoneAsWritten);
    assert ParenPhoneAsWritten[1..] == ParenPhone;
    BoundaryFirst(IntlPhoneAsWritten);
    assert IntlPhoneAsWritten[1..] == IntlPhone;
  }

  lemma RepeatFirstPositive(p: Pattern)
    requires p != [] && p[0].Repeat? && p[0].min > 0
    ensures MinLength(p) > 0
  {
  }

  lemma BoundaryFirst(p: Pattern)
    requires p != [] && p[0].Boundary?
    ensures MinLength(p) == MinLength(p[1..])
  {
  }

  /** Each corrected pattern describes some text wherever the source's pattern does. */
  lemma CorrectedDescribes(content: string, k: nat)
    requires k < |PhonePatterns| && Describes(PhonePatterns[k], content)
    ensures Describes(PhonePatternsCorrected[k], content)
  {
    var i, j :| Accepts(PhonePatterns[k], content, i, j);
    if k > 0 {
      BoundaryDropped(PhonePatternsCorrected[k], content, i, j);
    }
    assert Accepts(PhonePatternsCorrected[k], content, i, j);
  }
}
