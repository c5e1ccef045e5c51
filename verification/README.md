# A verified model of the Flask chatbot's question/answer core

The chatbot keeps one store of question/answer pairs (`qa_data`). It fills the store from
an uploaded PDF and answers questions against it. This project models the deterministic
part of that service in Dafny and proves what it does:

- **`extract_qa` (app.py:22-24).** `re.findall` with the pattern
  `Q:\s*(.*?)\s*\nA:\s*((?:.*?\n?)+?)(?=\nQ:|\Z)` and the DOTALL flag, then a dict
  comprehension that strips both groups and turns each line feed of an answer into a space.
  - The regex becomes an explicit left-to-right scanner over the characters (`QaScan`).
  - The comprehension becomes a last-wins fold of the pairs into a map (`QaDict`).
  - `ExtractApp` puts the two together.
- **The older parser in extract_qa.py (lines 7, 13, 18).** It skips page texts that are
  missing or empty, joins the rest with `"\n"`, and scans with the marker `A:` instead of
  `\nA:`. The dict keeps the stripped answers with their line feeds (`ExtractLegacy`).
- **The service (app.py:13, 30-39, 42-71).** `ChatService` holds the store.
  - `Upload` replaces the store with what `extract_qa`, its pattern exactly as written, reads
    from the stripped text of the upload, or reports that no file came.
  - `Ask` runs the gates of `ask_question` in their order: empty store, greeting, keyword
    relevance. Its result is the pure `Classify`. The keyword gathering loop of lines 56-58
    is the method `TopicKeywords`.

`QaLayout` describes the documents the parsers are meant for, "Q: <q>\nA: <a>" entries
separated by one line feed. It proves what each pattern reads back from them.

**Approximations:**
- The regex classes `\s` and `\w`, and `strip`, `split` and `lower`, use their ASCII meaning.
  Whitespace is space, tab, line feed, vertical tab, form feed and carriage return. Word
  characters are ASCII letters, digits and `_`.
- PDF text extraction is not modelled. `Upload` takes the extracted text, and the
  extract_qa.py parse takes the page texts as a sequence of optional strings.
- The sentence-embedding step after line 71 is the outcome `NeedsSemantic`.

**Where the documented behaviour and the code disagree:** the code is followed. The
lookahead `(?=\nQ:|\Z)` at app.py:23, and the same lookahead in extract_qa.py:13, show that
each answer is meant to end at the next "\nQ:". The pattern as written does not end it there
(see Findings). `ExtractQa` takes the reading of the pattern as a parameter:
- `AppAsWritten` is the pattern as written. It is what the service stores.
- `App` is the corrected reading, which ends each answer at the next "\nQ:".

The general properties of `extract_qa` are proved for both readings. The round trip of
whole documents holds for the corrected reading only.

## Model

| member | source | states |
|---|---|---|
| Text.Strip | app.py:24 | the result has no leading or trailing whitespace, is no longer than the input, and equals an input that is already stripped |
| Text.StripPadded | app.py:24 | stripping removes exactly the whitespace padding around a stripped core, whatever that padding is |
| Text.StripKeepsOut | extract_qa.py:18 | a substring absent from a text is absent from the stripped text |
| Text.ReplaceNewlines | app.py:24 | same length; each line feed becomes exactly one space and every other character is kept, so runs are not merged; no line feed is left; a stripped string stays stripped |
| Text.Lower | app.py:45 | same length; each character is lowered on its own (ASCII capitals to small letters, everything else unchanged) |
| Text.RemovePunct | app.py:52 | a character is in the result exactly when it is in the input and is a word character or whitespace; the result is never longer; an input without punctuation is unchanged |
| Text.RemovePunctAppend | app.py:52 | removing punctuation distributes over concatenation, so it keeps the order and the number of the kept characters |
| Text.RemovePunctChar | app.py:52 | one character is kept exactly when it is a word character or whitespace, and dropped otherwise |
| Text.Split | app.py:58 | every word is a non-empty run without whitespace; there are no words exactly when the text is all whitespace |
| Text.SplitWs | app.py:58 | leading whitespace adds no word; an all-whitespace text has none |
| Text.SplitWord | app.py:58 | a word followed by whitespace or by nothing is the first word, followed by the words of the rest; with SplitWs this fixes the words of every text as its maximal runs without whitespace, in order |
| Text.Find | app.py:23 | the first occurrence at or after the start, or none at all from there on |
| QaScan.QuestionGroup | app.py:23 | the question group lies between the scan position and an occurrence of the answer marker; no earlier marker lies inside or after the group; there is no group exactly when no marker follows |
| QaScan.QuestionText | app.py:23 | only whitespace lies between the scan position and the question and between the question and its marker; the question is the stripped text before the marker; the marker is the first one after the skipped whitespace, or, when none follows, the one whose line feed that whitespace took |
| QaScan.AnswerEnd | app.py:23 | as written, the answer can only stop after the first line feed of a "\n\nQ:" or at the end of the text; corrected (and in extract_qa.py:13), it stops at the first "\nQ:" or at the end, with no "\nQ:" before |
| QaScan.MatchAt | app.py:23 | the match the pattern makes at a "Q:", if any: its groups lie in order after the "Q:"; MatchAtGroups and MatchAtCaptures say what they hold |
| QaScan.MatchAtGroups | app.py:23 | a "Q:" starts a match exactly when an answer marker follows; its question holds no marker, and a corrected answer holds no "\nQ:" |
| QaScan.MatchAtCaptures | app.py:23 | a match at a "Q:" captures, as its question, the stripped text up to that first marker, and as its answer the text after the marker up to where the reading stops it |
| QaScan.FindAllGroups | extract_qa.py:13 | across all matches, no question holds the answer marker and no answer of the corrected or extract_qa.py pattern holds "\nQ:" |
| QaScan.Matches | app.py:23 | the spans of `re.findall`, never more than the characters left; MatchesLeftmost, MatchesOrdered and MatchesExhaustive say which they are |
| QaScan.FindAll | app.py:23 | `re.findall` from a position yields at most one pair per remaining character |
| QaScan.MatchesLeftmost | app.py:23 | each match starts at a "Q:" where the scan resumed or later, and no "Q:" in between starts a match: the scan finds the leftmost match each time |
| QaScan.MatchesOrdered | app.py:23 | matches do not overlap: each next question starts after the previous answer and a "Q:" |
| QaScan.MatchesExhaustive | app.py:23 | the scan misses no match: from where the last answer stopped, or from the start when there is none, no "Q:" starts a match |
| QaScan.FindAllReads | app.py:23 | every pair `re.findall` yields is read at some "Q:": the question is the stripped text up to its marker, and the answer is the text after that marker; the marker is the first one after the whitespace skipped after "Q:", or, when none follows, the one whose line feed that whitespace took |
| QaScan.NoQuestionNoPairs | app.py:23 | with no "Q:" from some position on, the scan finds nothing there |
| QaScan.NoMarkerNoPairs | app.py:23 | with no answer marker from some position on, the scan finds nothing there |
| QaLayout.RenderLayout | app.py:23 | rendering pairs one after the other, with any trailing whitespace, gives a document in the expected layout |
| QaLayout.FindAllLayout | app.py:23 | the corrected pattern and extract_qa.py's pattern read a laid-out document back pair by pair: the same number of pairs, the questions exactly, the answers up to surrounding whitespace |
| QaLayout.NoBlankQuestion | app.py:23 | a laid-out app.py document holds no "\n\nQ:" |
| QaLayout.AsWrittenLayout | app.py:23 | the pattern as written reads a laid-out document as a single match whose answer runs to the end of the text |
| QaDict.Questions | app.py:24 | the question set holds exactly the questions of the pairs |
| QaDict.BuildMap | app.py:24 | the keys of the dict are exactly the questions of the pairs |
| QaDict.Untouched | app.py:24 | adding a pair leaves every other question's entry as it was |
| QaDict.Stored | app.py:24 | the last pair added is stored |
| QaDict.LastWins | extract_qa.py:18 | a pair that no later pair shares a question with decides that question's answer |
| QaDict.FromLast | extract_qa.py:18 | every entry is the last pair with that question |
| QaDict.MapSize | app.py:24 | the dict never has more entries than there are pairs |
| QaDict.DistinctSize | app.py:24 | with no repeated question there is one entry per pair |
| ExtractApp.CleanPair | app.py:24 | the key is the stripped question; the question and answer come out stripped; the answer has the length of the stripped answer, each of its line feeds becomes one space, and no line feed is left |
| ExtractApp.CleanAll | app.py:24 | every pair is cleaned, in order |
| ExtractApp.ExtractQa | app.py:22-24 | `extract_qa` for a reading of the pattern; what it returns is stated by ExtractQaClean, ExtractQaFromLast, ExtractQaEntry, ExtractQaLastWins, ExtractQaSize, NoQuestionEmpty, NoAnswerEmpty and SingleEntry |
| ExtractApp.ExtractQaClean | app.py:24 | for both readings of the pattern: every key and every value is stripped, and no value holds a line feed |
| ExtractApp.ExtractQaFromLast | app.py:24 | for both readings of the pattern: every entry comes from the last match with that stripped question, with the answer stripped and its line feeds replaced |
| ExtractApp.ExtractQaEntry | app.py:23-24 | for both readings, every key is the stripped text between some "Q:" and its marker (the first one after the whitespace skipped after "Q:", or, when none follows, the one whose line feed that whitespace took), and its value is the answer after that marker, stripped, with line feeds turned into spaces |
| ExtractApp.ExtractQaLastWins | app.py:24 | for both readings of the pattern: a match whose stripped question no later match repeats decides that key's value |
| ExtractApp.ExtractQaSize | app.py:24 | for both readings of the pattern: there are never more entries than matches |
| ExtractApp.NoQuestionEmpty | app.py:23-24 | for both readings, a text without "Q:" gives the empty dict, not an error |
| ExtractApp.NoAnswerEmpty | app.py:23-24 | for both readings, a text without "\nA:" gives the empty dict |
| ExtractApp.TrailingQuestion | app.py:23 | for both readings, a "Q:" with no "\nA:" after it yields no pair |
| ExtractApp.CleanLayout | app.py:23-24 | corrected reading only: the cleaned matches of a laid-out document are exactly the pairs it was laid out from |
| ExtractApp.RoundTrip | app.py:23-24 | corrected reading only: pairs with non-empty, stripped, single-line questions and answers, laid out and followed by any whitespace, come back as the dict of those pairs |
| ExtractApp.PairCount | app.py:23-24 | corrected reading only: a laid-out document with N distinct questions gives exactly N entries |
| ExtractApp.SingleEntry | app.py:23-24 | for both readings, a one-pair document followed by any whitespace gives exactly that pair |
| ExtractApp.OneEntry | app.py:23-24 | for both readings, "Q: What is X?\nA: X is Y.\n" gives exactly {"What is X?": "X is Y."} |
| ExtractApp.OneEntryStripped | app.py:38 | for both readings, so does the same text once the upload has stripped it |
| ExtractApp.AsWrittenFindAll | app.py:23 | as written, a laid-out document yields one match: its first question, and everything after it as the answer |
| ExtractApp.AsWrittenKeys | app.py:23-24 | as written, a laid-out document's dict has the first question as its only key |
| ExtractApp.TwoPairs | app.py:23 | "Q: a\nA: X\nQ: b\nA: Y" is the layout of two single-line pairs, well formed for both readings of the pattern |
| ExtractApp.AsWrittenMerges | app.py:23-24 | as written, "Q: a\nA: X\nQ: b\nA: Y" gives {"a": "X Q: b A: Y"} |
| ExtractApp.MergedAnswer | app.py:24 | the swallowed answer becomes "X Q: b A: Y" once its line feeds are replaced |
| ExtractApp.CorrectedSplits | app.py:23-24 | corrected, the same text gives {"a": "X", "b": "Y"} |
| ExtractLegacy.KeptPages | extract_qa.py:7 | only non-empty texts are kept, each from some page, and every page with text is kept |
| ExtractLegacy.KeptAppend | extract_qa.py:7 | filtering a concatenation of page lists filters each part |
| ExtractLegacy.NoneKept | extract_qa.py:7 | pages without text leave nothing |
| ExtractLegacy.LineFeeds | extract_qa.py:7 | n line feeds and nothing else |
| ExtractLegacy.Join | extract_qa.py:7 | joining gives "" for no texts, and otherwise exactly the texts' characters plus one line feed fewer than there are texts |
| ExtractLegacy.JoinChars | extract_qa.py:7 | putting a text and a line feed in front of the join of the rest adds exactly that text's characters and one line feed |
| ExtractLegacy.JoinAppend | extract_qa.py:7 | joining two non-empty lists of texts puts exactly one line feed between their joins, which fixes where every page sits |
| ExtractLegacy.PagesText | extract_qa.py:7 | the text built from the page texts; KeptPages, Join, SkippedPage and JoinedPages state what it holds |
| ExtractLegacy.SkippedPage | extract_qa.py:7 | a missing page or a page with empty text leaves the joined text unchanged, wherever it stands |
| ExtractLegacy.JoinedPages | extract_qa.py:7 | two pages with text are joined by a single line feed |
| ExtractLegacy.NoPages | extract_qa.py:7-18 | without any page text, the text is "" and the dict is empty |
| ExtractLegacy.StripAll | extract_qa.py:18 | every pair is stripped on both sides, in order |
| ExtractLegacy.LegacyDict | extract_qa.py:13-18 | the dict built from a text; LegacyClean, LegacyLastWins, LegacySize, LegacyNoAnswer, LegacyNoQuestion and LegacyRoundTrip state what it holds |
| ExtractLegacy.ExtractQaFromPages | extract_qa.py:4-23 | `extract_qa_from_pdf` on the page texts: LegacyDict of PagesText; NoPages gives the case without text |
| ExtractLegacy.LegacyClean | extract_qa.py:13-18 | keys and values are stripped, and no key contains "A:" |
| ExtractLegacy.LegacyLastWins | extract_qa.py:18 | a match whose stripped question no later match repeats decides that key's value |
| ExtractLegacy.LegacySize | extract_qa.py:18 | there are never more entries than matches |
| ExtractLegacy.LegacyNoAnswer | extract_qa.py:13-18 | a text without "A:" gives the empty dict |
| ExtractLegacy.LegacyNoQuestion | extract_qa.py:13-18 | a text without "Q:" gives the empty dict |
| ExtractLegacy.StripLayout | extract_qa.py:13-18 | the stripped matches of a laid-out document are exactly its pairs |
| ExtractLegacy.LegacyRoundTrip | extract_qa.py:13-18 | pairs whose questions hold no "A:" and whose answers hold no "\nQ:" come back as the dict of those pairs, line feeds inside answers included |
| ExtractLegacy.TwoLineDocument | extract_qa.py:13 | the two-line sample is such a laid-out document |
| ExtractLegacy.TwoLineAnswer | extract_qa.py:13-18 | "Q: What?\nA: one\ntwo" gives {"What?": "one\ntwo"}, keeping the line feed |
| ExtractLegacy.SameLineMarker | extract_qa.py:13-18 | "Q: Why? A: Because." gives {"Why?": "Because."}: no line feed is needed before "A:" |
| ExtractLegacy.SameLineMatches | extract_qa.py:13 | its scan finds exactly one match |
| ExtractLegacy.SameLineGroup | extract_qa.py:13 | its question group is "Why?", ending at the whitespace before the "A:" |
| ExtractLegacy.SameLineAnswerEnd | extract_qa.py:13 | its answer runs to the end of the text |
| Chatbot.Normalize | app.py:45 | a missing question reads as ""; a given one is stripped and then lowered character by character, with the stripped length; the result holds no capital letter |
| Chatbot.Words | app.py:60 | every element is a word, and there are none exactly when the text is all whitespace |
| Chatbot.WordsWs | app.py:60 | leading whitespace adds no word |
| Chatbot.WordsWord | app.py:60 | a word followed by whitespace or by nothing adds exactly itself to the words of the rest |
| Chatbot.Reply | app.py:47-71 | a specification of the fixed reply strings, which `Ask` does not produce itself: only the semantic match has no fixed reply; an empty store replies "No Q&A data available.", a greeting "Hello! How can I help you today?", and an irrelevant question the "Irrelevant. Please try a question related to Microsoft AI, …" text |
| Chatbot.Vocabulary | app.py:56-58 | the topic keywords; TopicKeywords, VocabularyEmpty, VocabularyAdd and InVocabulary state what they are |
| Chatbot.IsGreeting | app.py:51-53 | the greeting gate; GreetingRule, HiIsGreeting, HelloIsGreeting, HiThereIsNot and WhatIsXNoGreeting state what it accepts |
| Chatbot.Relevance | app.py:61-62 | the relevant and irrelevant words partition the question's words; the relevant ones are topic words and the irrelevant ones are not |
| Chatbot.Classify | app.py:45-71 | the decision of `ask_question`; NoDataFirst, GreetingRule, RelevanceRule, BlankQuestion, NoOverlap and StoredQuestion state it gate by gate |
| Chatbot.NoDataFirst | app.py:47-48 | the answer is NoData exactly when the store is empty, whatever the question, greetings included |
| Chatbot.GreetingRule | app.py:51-54 | with data stored, the answer is Greeting exactly when the normalised question without punctuation is one of the seven phrases |
| Chatbot.RelevanceRule | app.py:56-71 | past the greeting gate, the answer is Irrelevant exactly when there are at least as many irrelevant words as relevant ones; otherwise the normalised question goes on to the semantic match |
| Chatbot.BlankQuestion | app.py:45-71 | a missing or blank question is rejected as irrelevant |
| Chatbot.NoOverlap | app.py:60-71 | a question sharing no word with the stored questions is rejected |
| Chatbot.InVocabulary | app.py:56-58 | the words of a lowercased stored question all belong to the topic keywords |
| Chatbot.StoredQuestion | app.py:45-71 | in a store whose keys are stripped, as every upload leaves them, asking a stored question that has a word and is no greeting reaches the semantic match |
| Chatbot.HiIsGreeting | app.py:45-54 | "Hi!" is a greeting |
| Chatbot.HelloIsGreeting | app.py:45-54 | "HELLO" is a greeting |
| Chatbot.HiThereIsNot | app.py:45-54 | "hi there" is not a greeting |
| Chatbot.WhatIsXNoGreeting | app.py:51-53 | "What is X?" is not a greeting |
| Chatbot.TopicKeywords | app.py:56-58 | the loop gathers exactly the words of all lowercased stored questions |
| Chatbot.VocabularyEmpty | app.py:56 | there are no topic keywords without questions |
| Chatbot.VocabularyAdd | app.py:57-58 | one more question adds exactly its words to the topic keywords |
| Chatbot.ChatService.constructor | app.py:13 | the store starts empty |
| Chatbot.ChatService.Upload | app.py:30-39 | without a file it reports NoFile and leaves the store unchanged; with one, the store becomes exactly extract_qa, its pattern as written, of the stripped text, whatever it held, and the count reported is its size; stored keys and values stay stripped |
| Chatbot.ChatService.Ask | app.py:42-71 | the outcome is Classify on the current store: NoData, Greeting, Irrelevant or NeedsSemantic, decided in that order |
| Chatbot.UploadThenAsk | app.py:30-71 | after uploading "Q: What is X?\nA: X is Y.\n", the store the program builds is exactly {"What is X?": "X is Y."} and asking "What is X?" reaches the semantic match |
| Chatbot.UploadTwice | app.py:38 | after two uploads, the store is what the pattern as written reads from the second document, and nothing of the first is merged in |

## Left out

- Flask routing, `request`/`jsonify`, CORS and the port handling are web glue. An upload's
  response is the datatype `UploadStatus`; the 400 status is its `NoFile` case.
- PDF text extraction (pdfminer at app.py:16-19, PyPDF2 at extract_qa.py:5-7) is a foreign
  library. `Upload` takes the extracted text, `None` standing for a request without a "file"
  part, and applies the final `.strip()` of app.py:20. A malformed PDF, which raises there,
  is not modelled.
- The sentence-embedding match, cosine scores and the 0.7 threshold (app.py:73-90) are an
  external model with floating point. They are the outcome `NeedsSemantic`, which carries the
  normalised question.
- A JSON body whose "question" is not a string, or a request without a JSON body, raises in
  app.py:44-45 and is not modelled. `Ask` takes an optional string, `None` standing for a
  missing "question".
- Debug printing (app.py:64-66, 83; extract_qa.py:10, 16, 21) and the module-level run of
  extract_qa.py on a fixed path (lines 25-31) are output only.
- The unsynchronised global `qa_data` under concurrent requests is not modelled. Upload and
  ask are sequential calls on one `ChatService`.
- Unicode meanings of `\s`, `\w`, `strip`, `split` and `lower` are replaced by ASCII ones.
- The regex engine in general is not modelled. The two patterns are written out as scanners
  whose results follow Python's backtracking order for those patterns.
- QuestionGroup: the contract gives what the question group avoids. QuestionText gives what
  it is.
- MatchAtGroups: the contract gives what the groups avoid. MatchAtCaptures gives what they
  capture.
- FindAll: the contract is a length bound. FindAllReads gives what each pair is;
  MatchesLeftmost, MatchesOrdered and MatchesExhaustive give that the matches are the
  leftmost ones, in order, and that none is missed.
- RemovePunct: the contract gives which characters occur. RemovePunctAppend and
  RemovePunctChar fix their order and number.
- Split: the contract gives the shape of each word. SplitWs and SplitWord fix which words
  there are, and in what order.
- Words: the contract gives the shape of each word. WordsWs and WordsWord fix the set.
- CleanLayout: holds for the corrected reading only. As written, a laid-out document is one
  match (AsWrittenFindAll).
- RoundTrip: holds for the corrected reading only. As written, the dict of a laid-out
  document has its first question as its only key (AsWrittenKeys).
- PairCount: holds for the corrected reading only. As written, a laid-out document of
  several pairs gives one entry.
- ExtractApp.AsWrittenKeys: for the pattern as written, the contract gives only the keys of a
  laid-out document, not the general shape of the swallowed answer. AsWrittenMerges gives
  that answer for one document.
- ExtractLegacy.Join: the contract gives the characters of the joined text, not where each
  page sits. JoinAppend gives that for any number of pages.
- ExtractLegacy.LegacyRoundTrip: the round trip covers documents with "\nA:" before each
  answer. SameLineMarker shows the marker without a line feed on one document only.

## Findings

| source | as written | input that shows it | evidently intended | confidence | as-written member | corrected member |
|---|---|---|---|---|---|---|
| app.py:23 | the answer group `(?:.*?\n?)+?` takes the line feed of a following "\nQ:" into the answer, so the lookahead `(?=\nQ:\|\Z)` can only end an answer before a blank line or at the end of the text; a document of consecutive entries becomes one pair | "Q: a\nA: X\nQ: b\nA: Y" gives {"a": "X Q: b A: Y"} | each answer ends at the next "\nQ:", giving {"a": "X", "b": "Y"} | high; derived from the regex's backtracking order; not executed | ExtractApp.AsWrittenMerges | ExtractApp.CorrectedSplits |
