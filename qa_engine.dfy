/**
 * `get_answer`: a question about an uploaded document is answered from the
 * document's extracted text. A question that mentions one of the known
 * topics goes to that topic's extractor; any other question goes to the
 * keyword search.
 */
module QaEngine {
  import opened Wrappers
  import opened Text
  import opened NameExtractor
  import opened ContactExtractors
  import opened SectionExtractors
  import opened KeywordSearch

  const NameTriggers: seq<string> := ["what is my name", "what's my name", "my name", "who am i"]
  const EmailTriggers: seq<string> := ["what is my email", "email address", "contact email"]
  const PhoneTriggers: seq<string> := ["what is my phone", "phone number", "contact number"]
  const JobTriggers: seq<string> := ["where do i work", "current job", "current position", "work at"]
  const EducationTriggers: seq<string> := ["education", "degree", "university", "college", "studied"]

  /** The answer when the document's extracted text is missing. */
  const ContentNotFound := "Document content not found. Please re-upload the document."

  /** What a question asks for, in the order the topics are tried. */
  datatype Intent = AskName | AskEmail | AskPhone | AskJob | AskEducation | General

  /** The position of a topic in the order the topics are tried. */
  function Rank(intent: Intent): nat {
    match intent
    case AskName => 0
    case AskEmail => 1
    case AskPhone => 2
    case AskJob => 3
    case AskEducation => 4
    case General => 5
  }

  /** The phrases that send a question to a topic; the keyword search has none. */
  function Triggers(intent: Intent): seq<string> {
    match intent
    case AskName => NameTriggers
    case AskEmail => EmailTriggers
    case AskPhone => PhoneTriggers
    case AskJob => JobTriggers
    case AskEducation => EducationTriggers
    case General => []
  }

  /** `any(phrase in question_lower for phrase in ...)`: the question mentions a phrase of the topic. */
  predicate Mentions(questionLower: string, intent: Intent) {
    exists k | 0 <= k < |Triggers(intent)| :: Contains(questionLower, Triggers(intent)[k])
  }

  /**
   * The chain of `if any(...)` tests: the first topic whose phrases the
   * question mentions, and the keyword search when it mentions none.
   */
  function Classify(questionLower: string): (r: Intent)
    ensures r != General ==> Mentions(questionLower, r)
    ensures forall earlier: Intent | Rank(earlier) < Rank(r) :: !Mentions(questionLower, earlier)
  {
    if Mentions(questionLower, AskName) then AskName
    else if Mentions(questionLower, AskEmail) then AskEmail
    else if Mentions(questionLower, AskPhone) then AskPhone
    else if Mentions(questionLower, AskJob) then AskJob
    else if Mentions(questionLower, AskEducation) then AskEducation
    else General
  }

  /** `question.lower().strip()` */
  function Normalize(question: string): string {
    Strip(Lower(question))
  }

  /** The answer of `get_answer`, given the document's text or None when it is missing. */
  function Answer(content: Option<string>, question: string): string {
    match content
    case None => ContentNotFound
    case Some(text) =>
      var questionLower := Normalize(question);
      match Classify(questionLower)
      case AskName => NameAnswer(text)
      case AskEmail => FindEmail(text)
      case AskPhone => PhoneAnswer(PhonePatterns, text)
      case AskJob => JobAnswer(text)
      case AskEducation => EducationAnswer(text)
      case General => GeneralAnswer(text, questionLower)
  }

  /** `get_answer`, with reading the text file replaced by its content, None when the file is missing. */
  method GetAnswer(content: Option<string>, question: string) returns (answer: string)
    ensures answer == Answer(content, question)
    ensures content.None? ==> answer == ContentNotFound
  {
    if content.None? {
      return ContentNotFound;
    }
    var text := content.value;
    var questionLower := Normalize(question);
    match Classify(questionLower)
    case AskName =>
      answer := FindName(text);
    case AskEmail =>
      answer := FindEmail(text);
    case AskPhone =>
      answer := FindPhone(text);
    case AskJob =>
      answer := FindCurrentJob(text);
    case AskEducation =>
      answer := FindEducation(text);
    case General =>
      answer := GeneralSearch(text, questionLower);
  }

  // ------------------------------------------------------------------ lemmas

  /** A question goes to the keyword search exactly when it mentions no phrase of any topic. */
  lemma GeneralIff(questionLower: string)
    ensures Classify(questionLower) == General <==> forall intent: Intent :: !Mentions(questionLower, intent)
  {
    var r := Classify(questionLower);
    if r == General {
      forall intent: Intent ensures !Mentions(questionLower, intent) {
        if intent == General {
          assert Triggers(intent) == [];
        } else {
          assert Rank(intent) < Rank(r);
        }
      }
    } else {
      assert Mentions(questionLower, r);
    }
  }

  /**
   * Only "my name" and "who am i" matter among the name phrases: the two
   * longer ones contain "my name".
   */
  lemma NamePhrasesReduce(questionLower: string)
    ensures Mentions(questionLower, AskName) <==>
            Contains(questionLower, "my name") || Contains(questionLower, "who am i")
  {
    var phrases := Triggers(AskName);
    assert phrases[0] == "what is my name" && phrases[1] == "what's my name";
    assert phrases[2] == "my name" && phrases[3] == "who am i";
    if Contains(questionLower, "my name") {
      assert Contains(questionLower, phrases[2]);
    }
    if Contains(questionLower, "who am i") {
      assert Contains(questionLower, phrases[3]);
    }
    if Mentions(questionLower, AskName) {
      var k :| 0 <= k < |phrases| && Contains(questionLower, phrases[k]);
      if k == 0 {
        ContainsWitness("what is my name", "my name", 8);
        ContainsTrans(questionLower, "what is my name", "my name");
      } else if k == 1 {
        assert "what's my name"[7..14] == "my name";
        ContainsWitness("what's my name", "my name", 7);
        ContainsTrans(questionLower, "what's my name", "my name");
      }
    }
  }

  /** A question that mentions "my name" is answered by the name extractor, whatever else it asks. */
  lemma MyNameWins(content: string, question: string)
    requires Contains(Normalize(question), "my name")
    ensures Answer(Some(content), question) == NameAnswer(content)
  {
    NamePhrasesReduce(Normalize(question));
  }

  /** The case of the question and whitespace around it do not change the answer. */
  lemma AnswerIgnoresPadding(content: Option<string>, question: string, pre: string, post: string)
    requires AllSpace(pre) && AllSpace(post)
    ensures Answer(content, pre + question + post) == Answer(content, question)
    ensures Answer(content, Lower(question)) == Answer(content, question)
  {
    NormalizePadded(question, pre, post);
  }

  lemma NormalizePadded(question: string, pre: string, post: string)
    requires AllSpace(pre) && AllSpace(post)
    ensures Normalize(pre + question + post) == Normalize(question)
    ensures Normalize(Lower(question)) == Normalize(question)
  {
    LowerAppend(pre, question);
    LowerAppend(pre + question, post);
    StripPadded(Lower(pre), Lower(question), Lower(post));
    assert Lower(Lower(question)) == Lower(question);
  }
}
