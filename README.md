# PDF question answering engine, modelled in Dafny

The backend of the PDF Q&A application answers a question about an uploaded
document from the text extracted from it. The answer always comes from
`get_answer`. This project models `get_answer` and everything it calls:

- The dispatcher lower-cases and strips the question. It then tries five
  lists of trigger phrases in a fixed order: name, e-mail, phone, current job,
  education. The first list with a phrase in the question picks the extractor.
  A question that matches no list goes to a keyword search. A missing text file
  gives a fixed "re-upload" message.
- The name extractor looks for a short, capitalised line among the first ten
  lines. If it finds none, it searches for a `name: First Last` label.
- The e-mail and phone extractors report the first regular-expression match.
  The phone extractor tries three patterns in turn, exactly as the source
  writes them (see "## Findings" for two of them).
- The job extractor takes the first suitable line after a work-experience
  header.
- The education extractor collects up to six non-blank lines after the first
  education header.
- The keyword search cuts the text into sentences and scores each one by the
  words of the question it contains. It answers with the best five sentences,
  highest score first, cut to 800 characters.

Modules, one per concern:

- `Wrappers`: `Option` and small sequence helpers.
- `Text`: `lower`, `strip`, `in`, `split('\n')`, `split()`, `join`.
- `Regex`: a backtracking matcher for the regular-expression subset the source
  uses: `\b`, character classes, and bounded or unbounded repetition. It also
  gives `re.search`, `re.findall` and `re.split`. The matcher and the search
  are proved against the declarative meaning of a pattern; `re.findall` is
  proved to resume each search where the previous match ended and to skip no
  match, and each piece of `re.split` is the text between two matches.
- `Answers`: the shared not-found prefix.
- `NameExtractor`, `ContactExtractors`, `SectionExtractors`: the extractors.
- `Ranking`: the stable descending sort.
- `KeywordSearch`: the general search.
- `QaEngine`: the dispatcher.

Each loop of the source is a `method`. Its `ensures` ties the result to a
specification function. The properties the source promises are proved about
those functions as lemmas.

Three behaviours of the code that are easy to misread, all modelled as the
code has them:

- The job extractor does not stop at the first experience header. A header
  whose window holds no candidate line is passed over, and a later header can
  answer.
- The e-mail pattern's top-level domain class is `[A-Z|a-z]`. It admits a
  literal `|`, not only letters.
- The education extractor also gives the not-found message when a header
  exists but its window holds only blank lines.

## Model

| member | source | states |
|---|---|---|
| QaEngine.GetAnswer | backend/app/services/qa_engine.py:4-37 | the answer is the dispatcher's answer; without the document's text it is the fixed re-upload message whatever the question |
| QaEngine.Classify | backend/app/services/qa_engine.py:21-37 | the topic chosen has a trigger phrase in the question, and no topic tried before it has one (name, e-mail, phone, job, education, then the keyword search) |
| QaEngine.GeneralIff | backend/app/services/qa_engine.py:21-37 | the keyword search answers exactly when the question holds no trigger phrase of any topic |
| QaEngine.NamePhrasesReduce | backend/app/services/qa_engine.py:21 | the name phrases match exactly when "my name" or "who am i" occurs, because the two longer phrases contain "my name" |
| QaEngine.MyNameWins | backend/app/services/qa_engine.py:21-22 | a question containing "my name" gets the name answer, whatever other topic's phrases it also holds (for example "email address") |
| QaEngine.AnswerIgnoresPadding | backend/app/services/qa_engine.py:17 | whitespace around the question and its letter case do not change the answer |
| QaEngine.NormalizePadded | backend/app/services/qa_engine.py:17 | lower-casing then stripping ignores surrounding whitespace and is unchanged by lower-casing first |
| NameExtractor.FindName | backend/app/services/qa_engine.py:40-60 | the loop over the first ten lines, then the label search, gives the name extractor's answer |
| NameExtractor.NameLineSpec | backend/app/services/qa_engine.py:45-53 | a name taken from a line is one of the first ten lines, stripped, that passes the name test, with no earlier line passing it; when there is none, no line among the first ten passes |
| NameExtractor.NameLineOnlyHead | backend/app/services/qa_engine.py:45 | lines after the tenth never affect the line-based name |
| NameExtractor.HeadingIsNotName | backend/app/services/qa_engine.py:52 | a line containing resume, cv, curriculum, profile or summary in any case is never taken as the name |
| NameExtractor.LowerCaseWordIsNotName | backend/app/services/qa_engine.py:47-50 | a line with a word made only of lower-case letters is never taken as the name, whatever its other words ("john smith", "John smith") |
| NameExtractor.NameMarksAt | backend/app/services/qa_engine.py:46-52 | the mark computed for each line is the name test on that line |
| NameExtractor.NameLineFromIn | backend/app/services/qa_engine.py:45-53 | the scan settles on a marked line among the first ten and passes over no marked line before it |
| NameExtractor.NameSearch | backend/app/services/qa_engine.py:56 | the label search reports a position where the label pattern matches, and it does not match anywhere before that position |
| NameExtractor.NameFieldSpec | backend/app/services/qa_engine.py:56-58 | the label search fails exactly when no text matches `name\s*:?\s*[A-Z][a-z]+(\s+[A-Z][a-z]+)*` case-insensitively; otherwise it captures the longest group of the leftmost match |
| NameExtractor.NameGroupAtSound | backend/app/services/qa_engine.py:56 | every group the matcher captures is a reading of the label pattern |
| NameExtractor.NameGroupAtComplete | backend/app/services/qa_engine.py:56 | every reading of the label pattern from a position is found by the matcher there, with the same group start and a group no shorter |
| NameExtractor.NameTailLongest | backend/app/services/qa_engine.py:56 | the repeated `\s+[A-Z][a-z]+` group is read as far as any reading of it goes |
| NameExtractor.LabelEndComplete | backend/app/services/qa_engine.py:56 | a reading of `name\s*:?\s*` followed by a letter ends where the matcher's does |
| ContactExtractors.FindEmail | backend/app/services/qa_engine.py:63-69 | the e-mail answer: the first text `re.findall` returns, or the not-found message; its contract is stated by FindEmailSpec |
| ContactExtractors.FindEmailSpec | backend/app/services/qa_engine.py:63-69 | the e-mail answer quotes the leftmost text the address pattern describes, and is the not-found message exactly when the pattern describes no text |
| ContactExtractors.FindPhone | backend/app/services/qa_engine.py:72-85 | the loop over the three patterns, as the source writes them (with `\b` before `(` and `+`), gives the phone answer for that list |
| ContactExtractors.PhoneAnswerSpec | backend/app/services/qa_engine.py:80-85 | the phone answer is the leftmost match of the first pattern that matches anything, with every earlier pattern matching nothing; it is the not-found message exactly when no pattern matches |
| ContactExtractors.PhoneLaterPatternsIgnored | backend/app/services/qa_engine.py:80-83 | once a pattern matches, patterns after it are never consulted |
| ContactExtractors.HasMatchIff | backend/app/services/qa_engine.py:81-82 | `re.findall` returns something exactly when the pattern describes some text |
| ContactExtractors.ParenPhoneAsWrittenNeedsWordBefore | backend/app/services/qa_engine.py:76 | as written, the `(ddd)` pattern can only match right after a word character |
| ContactExtractors.IntlPhoneAsWrittenNeedsWordBefore | backend/app/services/qa_engine.py:77 | as written, the `+cc` pattern can only match right after a word character |
| ContactExtractors.ParenFormatMissedAsWritten | backend/app/services/qa_engine.py:76 | as written, "(555) 123-4567" is not matched |
| ContactExtractors.IntlFormatMissedAsWritten | backend/app/services/qa_engine.py:77 | as written, "+44 1234 567 890" is not matched |
| ContactExtractors.ParenFormatFoundCorrected | backend/app/services/qa_engine.py:76 | without the leading `\b`, every "(ddd) ddd-dddd" not followed by a word character is matched where it starts |
| ContactExtractors.ParenFormatFoundCorrectedExample | backend/app/services/qa_engine.py:76 | without the leading `\b`, "(555) 123-4567" is found from its first character |
| ContactExtractors.IntlFormatFoundCorrected | backend/app/services/qa_engine.py:77 | without the leading `\b`, every "+cc dddd ddd ddd" not followed by a word character is matched where it starts |
| ContactExtractors.IntlFormatFoundCorrectedExample | backend/app/services/qa_engine.py:77 | without the leading `\b`, "+44 1234 567 890" is found from its first character |
| ContactExtractors.CorrectedNeverMisses | backend/app/services/qa_engine.py:74-78 | the corrected pattern list finds a number in every document where the list as written finds one |
| ContactExtractors.CorrectedDescribes | backend/app/services/qa_engine.py:74-78 | each corrected pattern describes some text wherever the pattern as written does |
| ContactExtractors.BoundaryDropped | backend/app/services/qa_engine.py:76-77 | removing a leading `\b` never loses a match |
| ContactExtractors.PhoneMissingIff | backend/app/services/qa_engine.py:80-85 | the phone answer is the not-found message exactly when no pattern of the list describes any text |
| ContactExtractors.IntlGroupsAccepted | backend/app/services/qa_engine.py:77 | the last two digit groups of an international number are read by the end of the pattern |
| SectionExtractors.FindCurrentJob | backend/app/services/qa_engine.py:88-100 | the nested loops over headers and their windows give the job answer |
| SectionExtractors.JobAnswerSpec | backend/app/services/qa_engine.py:93-100 | the job answer quotes, stripped, the first non-blank line not starting with a space within nine lines after the first header that has one; it is the not-found message exactly when no header has such a line |
| SectionExtractors.JobFromSpec | backend/app/services/qa_engine.py:93-98 | the scan from any line finds the first header with a position line in its window, and that line, passing over headers without one |
| SectionExtractors.WindowHit | backend/app/services/qa_engine.py:96 | a hit lies in the window, strictly after the header and before header + 10 and the end of the text |
| SectionExtractors.WindowHitIn | backend/app/services/qa_engine.py:96-98 | the hit is a position line and no line before it in the window is one |
| SectionExtractors.HeaderPairs | backend/app/services/qa_engine.py:94-98 | a header line contributes the first pair exactly when its window holds a position line |
| SectionExtractors.FindEducation | backend/app/services/qa_engine.py:103-121 | the scan for the first header and the collection after it give the education answer |
| SectionExtractors.CollectEducation | backend/app/services/qa_engine.py:111-115 | the inner loop collects the first six non-blank lines, stripped, of the eleven after the header |
| SectionExtractors.EducationAnswerSpec | backend/app/services/qa_engine.py:108-121 | at most six lines are listed, joined by spaces after "Education: "; the answer is the not-found message exactly when there is no header or the window after the first one is blank |
| SectionExtractors.EducationItemsEmpty | backend/app/services/qa_engine.py:112-118 | nothing is collected exactly when there is no header or the lines after the first header are all blank |
| SectionExtractors.EducationItemsFromWindow | backend/app/services/qa_engine.py:111-113 | each collected line is a non-blank line of the first header's window, stripped |
| SectionExtractors.EducationOnlyFirstHeader | backend/app/services/qa_engine.py:116 | only the first header is read: lines after its window change nothing, even when they hold another header |
| SectionExtractors.HeaderFromFirst | backend/app/services/qa_engine.py:108-109 | the scan's header is the first line of the document holding education, academic or degree |
| SectionExtractors.HeaderFromAppend | backend/app/services/qa_engine.py:108-109 | lines added after a header do not change which header is first |
| SectionExtractors.NonBlankEmpty | backend/app/services/qa_engine.py:112-113 | a range yields no lines exactly when all its lines are blank |
| SectionExtractors.NonBlankSplit | backend/app/services/qa_engine.py:111-113 | collecting over neighbouring ranges is collecting over their union |
| SectionExtractors.PrefixOfFull | backend/app/services/qa_engine.py:114-115 | once six lines are held, later lines do not change them |
| SectionExtractors.NonBlankFrom | backend/app/services/qa_engine.py:112-113 | every collected line is non-blank and is a stripped line of the range |
| SectionExtractors.NonBlankPrefix | backend/app/services/qa_engine.py:111 | only the lines of the range are read |
| KeywordSearch.GeneralSearch | backend/app/services/qa_engine.py:124-149 | the loop collecting scored sentences, the sort, the join and the cut give the keyword-search answer |
| KeywordSearch.ScoreCounts | backend/app/services/qa_engine.py:127-132 | a sentence's score is the number of positions of the keyword list whose word the lower-cased sentence contains, so a repeated word counts each time |
| KeywordSearch.ScorePositive | backend/app/services/qa_engine.py:132-133 | a sentence scores above zero exactly when it contains some keyword |
| KeywordSearch.ScoreAppend | backend/app/services/qa_engine.py:132 | scores over two keyword lists add up |
| KeywordSearch.RelevantFrom | backend/app/services/qa_engine.py:130-134 | every kept entry is a sentence with a positive score, stripped, with that score |
| KeywordSearch.RelevantHas | backend/app/services/qa_engine.py:130-134 | every sentence with a positive score is kept, stripped, with its score |
| KeywordSearch.RelevantEmpty | backend/app/services/qa_engine.py:133-139 | nothing is kept exactly when every sentence scores zero |
| KeywordSearch.RankedEmpty | backend/app/services/qa_engine.py:136-139 | the sorted list is empty exactly when no sentence contains a keyword |
| KeywordSearch.TopSentences | backend/app/services/qa_engine.py:136-142 | the answer holds min(5, kept) sentences; they are in descending score order and score no lower than any left out; they are kept sentences; sentences of equal score keep document order |
| KeywordSearch.WithScorePrefix | backend/app/services/qa_engine.py:142 | the first five keep the leading entries of each score |
| KeywordSearch.TruncateSpec | backend/app/services/qa_engine.py:146-147 | an answer over 800 characters becomes exactly its first 800 and "...", 803 characters; a shorter one is unchanged |
| KeywordSearch.GeneralAnswerSpec | backend/app/services/qa_engine.py:136-149 | the answer is the not-found message exactly when no sentence contains a keyword; otherwise it opens with the first ranked sentence (up to the 800-character cut), whose score no sentence beats, and it is at most 803 characters long |
| KeywordSearch.BestScoreHighest | backend/app/services/qa_engine.py:136 | no sentence scores above the first entry after the sort |
| KeywordSearch.JoinStartsWithFirst | backend/app/services/qa_engine.py:143 | `" ".join(parts)` opens with the first part |
| KeywordSearch.TruncateKeepsStart | backend/app/services/qa_engine.py:146-147 | the cut keeps what the answer opened with, up to 800 characters |
| KeywordSearch.Sentences | backend/app/services/qa_engine.py:126 | splitting on `[.!?]\s+` yields at least one piece; SentencesBetweenBreaks, BreakSpansAreBreaks and NoBreakSkipped state what the pieces are |
| KeywordSearch.SentencesBetweenBreaks | backend/app/services/qa_engine.py:126 | there is one sentence more than there are breaks; sentence k is the text from the end of break k - 1 (or the start) to the start of break k (or the end) |
| KeywordSearch.BreakSpansAreBreaks | backend/app/services/qa_engine.py:126 | each break is one of ".", "!", "?" followed by whitespace, and it takes the whole run of whitespace after the mark |
| KeywordSearch.NoBreakSkipped | backend/app/services/qa_engine.py:126 | no mark followed by whitespace starts between two breaks the split cuts at, or after the last one |
| KeywordSearch.SentenceBreakAt | backend/app/services/qa_engine.py:126 | `[.!?]\s+` matches at a position exactly when a mark followed by whitespace starts there, and its match runs to the end of that whitespace |
| KeywordSearch.Keywords | backend/app/services/qa_engine.py:127 | `re.findall(r'\b\w+\b', question_lower)`; its contract is stated by KeywordsAreWords |
| KeywordSearch.KeywordsAreWords | backend/app/services/qa_engine.py:127 | the keywords are the question's words in order: keyword k is the text of the k-th span, each span is a whole run of word characters, the spans strictly increase, and every run of word characters is among them |
| KeywordSearch.WordTokenAt | backend/app/services/qa_engine.py:127 | `\b\w+\b` matches at a position exactly when a run of word characters starts there, and its match is the whole run |
| KeywordSearch.WordSpansAreWords | backend/app/services/qa_engine.py:127 | every span the word search reports is a whole run of word characters |
| KeywordSearch.WordRunFound | backend/app/services/qa_engine.py:127 | every run of word characters at or after the search's starting point is among the reported spans |
| KeywordSearch.WordMatch | backend/app/services/qa_engine.py:127 | the word pattern reads a whole run of word characters from its start |
| KeywordSearch.WordMatchEndsBefore | backend/app/services/qa_engine.py:127 | a word match that starts before a run of word characters ends at or before that run's start |
| Ranking.SortPermutation | backend/app/services/qa_engine.py:136 | the sort only reorders the kept sentences |
| Ranking.SortDescending | backend/app/services/qa_engine.py:136 | after the sort no entry has a higher score than one before it |
| Ranking.SortStable | backend/app/services/qa_engine.py:136 | after the sort the entries of each score are in their original order |
| Ranking.SortUnique | backend/app/services/qa_engine.py:136 | any descending order that keeps each score's entries in order is this sort's result, so the model agrees with any stable descending sort |
| Ranking.DescendingUnique | backend/app/services/qa_engine.py:136 | two descending sequences with the same entries of every score in the same order are equal |
| Ranking.InsertPermutation | backend/app/services/qa_engine.py:136 | one sorting step adds exactly one entry |
| Ranking.InsertDescending | backend/app/services/qa_engine.py:136 | one sorting step keeps the order descending |
| Ranking.InsertWithScore | backend/app/services/qa_engine.py:136 | one sorting step puts the entry first among those of its score |
| Regex.MatchAtSound | backend/app/services/qa_engine.py:65-77 | every match the backtracking matcher reports is a text the pattern describes |
| Regex.MatchAtComplete | backend/app/services/qa_engine.py:65-77 | whenever the pattern describes a text starting at a position, the matcher finds a match there |
| Regex.MatchAtNoneIff | backend/app/services/qa_engine.py:65-77 | the matcher fails at a position exactly when the pattern describes no text starting there |
| Regex.Search | backend/app/services/qa_engine.py:126-127 | `re.search` reports the leftmost position where the matcher succeeds |
| Regex.SearchLeftmost | backend/app/services/qa_engine.py:126-127 | the search's match is a text the pattern describes, and no text starts earlier |
| Regex.FindSpans | backend/app/services/qa_engine.py:66 | `re.findall` reports non-empty, non-overlapping matches in increasing order, the first being the search's, and none exactly when the search fails; FindSpansNext and FindSpansLeftmost state that no match is skipped |
| Regex.FindSpansNext | backend/app/services/qa_engine.py:66 | span k is what `re.search` reports when it resumes where span k - 1 ended, and a search resumed after the last span finds nothing |
| Regex.FindSpansGaps | backend/app/services/qa_engine.py:66 | between successive spans, and after the last one, the matcher matches nowhere |
| Regex.FindSpansLeftmost | backend/app/services/qa_engine.py:66 | each span is a text the pattern describes, and no described text starts between it and the previous span, or after the last span |
| Regex.GapHasNoMatch | backend/app/services/qa_engine.py:66 | the matcher fails at any one position of such a gap |
| Regex.FindAll | backend/app/services/qa_engine.py:66 | one matched text per span, text k being the text of span k |
| Regex.FindAllFirst | backend/app/services/qa_engine.py:66-68 | the first text `re.findall` returns is the leftmost text the pattern describes, and it returns nothing exactly when the pattern describes no text |
| Regex.Split | backend/app/services/qa_engine.py:126 | `re.split` returns one piece more than there are matches |
| Regex.SplitPieces | backend/app/services/qa_engine.py:126 | piece k of `re.split` is the text from the end of match k - 1 (or the starting point) to the start of match k (or the end of the text) |
| Regex.SplitFindAllInterleave | backend/app/services/qa_engine.py:126 | the pieces of `re.split`, with the matches between them, give back the text |
| Regex.MaxRunIn | backend/app/services/qa_engine.py:65-77 | the greedy run is in the class, and the character after it is not |
| Regex.RunWithin | backend/app/services/qa_engine.py:65-77 | no run of the class is longer than the greedy one |
| Regex.RunMaximal | backend/app/services/qa_engine.py:65-77 | a run that ends at the end of the text or before a character outside the class is the greedy run |
| Text.Lower | backend/app/services/qa_engine.py:17 | the lower-cased string has the same length, and each character is the lower-case form of the original one |
| Text.LowerAppend | backend/app/services/qa_engine.py:17 | lower-casing works character by character and keeps whitespace |
| Text.ContainsIff | backend/app/services/qa_engine.py:21 | `in` holds exactly when the phrase occurs at some position |
| Text.ContainsAnyIff | backend/app/services/qa_engine.py:52 | `any(... in ...)` holds exactly when one of the phrases is contained |
| Text.ContainsTrans | backend/app/services/qa_engine.py:21 | what a part of a string contains, the string contains |
| Text.StripIsSlice | backend/app/services/qa_engine.py:46 | `strip()` returns the slice left between whitespace at both ends, and that slice neither starts nor ends with whitespace |
| Text.StripUnique | backend/app/services/qa_engine.py:46 | that slice is the only one with these properties |
| Text.StripEmpty | backend/app/services/qa_engine.py:47 | a stripped line is empty exactly when the line is all whitespace |
| Text.StripIdempotent | backend/app/services/qa_engine.py:46 | stripping twice is stripping once |
| Text.StripPadded | backend/app/services/qa_engine.py:17 | whitespace added at either end does not change the stripped string |
| Text.JoinSplitOn | backend/app/services/qa_engine.py:42 | joining the lines with line breaks gives back the text |
| Text.SplitOnJoin | backend/app/services/qa_engine.py:42 | splitting a join of break-free lines gives back the lines |
| Text.LinesHoldNoBreak | backend/app/services/qa_engine.py:42 | no line holds a line break |
| Text.LinesAppend | backend/app/services/qa_engine.py:42 | the lines of a text extended after a line break start with the text's own lines |
| Text.WordsAreWords | backend/app/services/qa_engine.py:47-49 | every word `split()` returns is non-empty and holds no whitespace |
| Text.WordsEmpty | backend/app/services/qa_engine.py:47 | `split()` returns no words exactly when the string is all whitespace |
| Text.WordsJoin | backend/app/services/qa_engine.py:47-49 | splitting words joined by single spaces gives back the words |
| Text.JoinLength | backend/app/services/qa_engine.py:143 | a join is as long as its parts plus one separator between each neighbouring pair |
| Wrappers.Prefix | backend/app/services/qa_engine.py:142 | taking the first n keeps min(n, length) entries, and they lead the sequence |

## Left out

- Reading the text file is left out: deriving its path, checking it exists and opening it (backend/app/services/qa_engine.py:7-15). The model takes the file's content as `Option<string>`, with `None` for a missing file.
- `content_lower` (backend/app/services/qa_engine.py:18) is computed but never used by the source, so it is not modelled.
- Character classes are ASCII only. `lower()`, `isupper()`, `isalpha()`, `\w`, `\d` and `\s` follow their meaning on ASCII characters. Whitespace includes the characters Python's `isspace()` accepts below 0x80.
- Regular expressions are modelled only as far as the source uses them: sequences of `\b` and repeated character classes. Group capture is modelled only for the name pattern, which is hand-written. Its `re.IGNORECASE` makes `[A-Z]` and `[a-z]` both mean "any ASCII letter".
- Python's `list.sort` (Timsort) is modelled by an insertion sort. `Ranking.SortUnique` proves that any stable descending sort gives the same result.
- The HTTP endpoints, database records, PDF text extraction and frontend are outside this model.
- FindSpans: its own contract ties only the first span to `re.search`. That no later match is skipped is stated by FindSpansNext, FindSpansGaps and FindSpansLeftmost instead, because those quantified facts on the recursive function itself make every proof that mentions it run out of resource.
- Sentences: its own contract states only that there is at least one piece. What the pieces and the breaks are is stated by SentencesBetweenBreaks, BreakSpansAreBreaks and NoBreakSkipped, for the same reason.

## Findings

| source | as written | input that shows it | evidently intended | confidence | as-written member | corrected member |
|---|---|---|---|---|---|---|
| backend/app/services/qa_engine.py:76 | `\b\(\d{3}\)\s?\d{3}[-.]?\d{4}\b` has `\b` before `(`, a non-word character. The pattern therefore only matches right after a letter, digit or underscore. | "(555) 123-4567" at the start of the text or after a space | the "(123) 456-7890" format is found wherever it stands | not executed | ContactExtractors.ParenFormatMissedAsWritten | ContactExtractors.ParenFormatFoundCorrected |
| backend/app/services/qa_engine.py:77 | `\b\+\d{1,3}...` has `\b` before `+`, a non-word character. The pattern therefore only matches right after a letter, digit or underscore. | "+44 1234 567 890" at the start of the text or after a space | international numbers are found wherever they stand | not executed | ContactExtractors.IntlFormatMissedAsWritten | ContactExtractors.IntlFormatFoundCorrected |

The engine in the model (`QaEngine.Answer`, `ContactExtractors.FindPhone`)
uses the patterns as the source writes them (`PhonePatterns`), so it gives the
not-found message for "Call (555) 123-4567 now", as the source does. The
corrected list without the leading `\b` (`PhonePatternsCorrected`) sits next
to it. `ContactExtractors.PhoneAnswer` is generic in its pattern list, so
PhoneAnswerSpec describes both lists. `ContactExtractors.CorrectedNeverMisses`
proves that the corrected list finds a number wherever the list as written
does.
