/**
 * The chatbot service of app.py: one store of question/answer pairs that an upload
 * replaces (`upload_pdf`, lines 30-39), and the gates `ask_question` runs before its
 * semantic matching (lines 45-71): no data, greeting, keyword relevance.
 */
module Chatbot {
  import opened Wrappers
  import opened Text
  import opened QaScan
  import opened ExtractApp

  /** How `ask_question` answers, up to the point where sentence embeddings take over. */
  datatype Outcome =
    | NoData                         // "No Q&A data available."
    | Greeting                       // "Hello! How can I help you today?"
    | Irrelevant                     // the "Irrelevant. Please try a question ..." reply
    | NeedsSemantic(question: string)  // handed on to the embedding match with the normalised question

  const NoDataReply: string := "No Q&A data available."
  const GreetingReply: string := "Hello! How can I help you today?"
  const IrrelevantReply: string := "Irrelevant. Please try a question related to Microsoft AI, such as 'What is Microsoft AI?' or 'Azure AI'."

  /** The fixed reply of each outcome the gates decide on their own; only the semantic match has none. */
  function Reply(o: Outcome): (r: Option<string>)
    ensures r.None? <==> o.NeedsSemantic?
    ensures o == NoData ==> r == Some(NoDataReply)
    ensures o == Greeting ==> r == Some(GreetingReply)
    ensures o == Irrelevant ==> r == Some(IrrelevantReply)
  {
    match o
    case NoData => Some(NoDataReply)
    case Greeting => Some(GreetingReply)
    case Irrelevant => Some(IrrelevantReply)
    case NeedsSemantic(_) => None
  }

  const Greetings: seq<string> := ["hi", "hello", "hey", "greetings", "good morning", "good afternoon", "good evening"]

  /** `data.get("question", "").strip().lower()`: a missing question reads as "". */
  function Normalize(question: Option<string>): (u: string)
    ensures question.None? ==> u == ""
    ensures question.Some? ==> |u| == |Strip(question.value)|
    ensures question.Some? ==> forall k :: 0 <= k < |u| ==> u[k] == LowerChar(Strip(question.value)[k])
    ensures forall k :: 0 <= k < |u| ==> !('A' <= u[k] <= 'Z')
  {
    Lower(Strip(if question.Some? then question.value else ""))
  }

  /** `set(s.split())` */
  function Words(s: string): (ws: set<string>)
    ensures forall w | w in ws :: IsWord(w)
    ensures ws == {} <==> AllWs(s)
  {
    var r := set w | w in Split(s);
    assert |Split(s)| > 0 ==> Split(s)[0] in r;
    r
  }

  /** Leading whitespace adds no word. */
  lemma WordsWs(ws: string, s: string)
    requires AllWs(ws)
    ensures Words(ws + s) == Words(s)
  {
    SplitWs(ws, s);
  }

  /** A word followed by whitespace, or by nothing, is one of the words. */
  lemma WordsWord(w: string, s: string)
    requires IsWord(w) && (|s| == 0 || IsWs(s[0]))
    ensures Words(w + s) == {w} + Words(s)
  {
    SplitWord(w, s);
    assert Split(w + s) == [w] + Split(s);
    forall x ensures x in Split(w + s) <==> x == w || x in Split(s) {
      if x in Split(w + s) && x != w {
        var k :| 0 <= k < |Split(w + s)| && Split(w + s)[k] == x;
        assert Split(s)[k - 1] == x;
      }
      if x in Split(s) {
        var k :| 0 <= k < |Split(s)| && Split(s)[k] == x;
        assert Split(w + s)[k + 1] == x;
      }
    }
  }

  /** The `topic_keywords` of app.py:56-58: every word of every lowercased stored question. */
  function Vocabulary(questions: set<string>): set<string> {
    set q, w | q in questions && w in Split(Lower(q)) :: w
  }

  /** The relevant and irrelevant words of a question split its words in two. */
  function Relevance(words: set<string>, topic: set<string>): (r: (set<string>, set<string>))
    ensures r.0 + r.1 == words && r.0 !! r.1
    ensures r.0 <= topic && r.1 !! topic
  {
    (words * topic, words - topic)
  }

  /** The greeting gate: the question without punctuation is one of the fixed phrases. */
  predicate IsGreeting(u: string) {
    RemovePunct(u) in Greetings
  }

  /** The decision `ask_question` takes on `question` against `store`, gate by gate. */
  function Classify(store: map<string, string>, question: Option<string>): Outcome {
    var u := Normalize(question);
    if store == map[] then NoData
    else if IsGreeting(u) then Greeting
    else
      var r := Relevance(Words(u), Vocabulary(store.Keys));
      if |r.1| >= |r.0| then Irrelevant else NeedsSemantic(u)
  }

  /** An empty store answers every question, greetings included, with NoData, and only an empty store does. */
  lemma NoDataFirst(store: map<string, string>, question: Option<string>)
    ensures Classify(store, question) == NoData <==> store == map[]
  {
  }

  /** With data stored, the greeting gate decides before any keyword is looked at. */
  lemma GreetingRule(store: map<string, string>, question: Option<string>)
    requires store != map[]
    ensures Classify(store, question) == Greeting <==> IsGreeting(Normalize(question))
  {
  }

  /** Past the greeting gate, a question is rejected exactly when its irrelevant words are at least as many as its relevant ones. */
  lemma RelevanceRule(store: map<string, string>, question: Option<string>)
    requires store != map[] && !IsGreeting(Normalize(question))
    ensures Classify(store, question) == Irrelevant <==>
      |Words(Normalize(question)) - Vocabulary(store.Keys)| >= |Words(Normalize(question)) * Vocabulary(store.Keys)|
    ensures Classify(store, question).NeedsSemantic? <==> Classify(store, question) == NeedsSemantic(Normalize(question))
  {
  }

  /** A missing or blank question is never a greeting and always irrelevant. */
  lemma BlankQuestion(store: map<string, string>, question: Option<string>)
    requires store != map[]
    requires question.Some? ==> AllWs(question.value)
    ensures Classify(store, question) == Irrelevant
  {
    var u := Normalize(question);
    assert Strip(if question.Some? then question.value else "") == "" by {
      if question.Some? {
        StripPadded(question.value, "", "");
        assert question.value + "" + "" == question.value;
      }
    }
    assert u == "" && RemovePunct(u) == "";
  }

  /** A question that shares no word with the stored questions is rejected. */
  lemma NoOverlap(store: map<string, string>, question: Option<string>)
    requires store != map[] && !IsGreeting(Normalize(question))
    requires Words(Normalize(question)) !! Vocabulary(store.Keys)
    ensures Classify(store, question) == Irrelevant
  {
    var ws := Words(Normalize(question));
    assert ws * Vocabulary(store.Keys) == {};
  }

  /** The words of a stored question all belong to the vocabulary. */
  lemma InVocabulary(questions: set<string>, q: string)
    requires q in questions
    ensures Words(Lower(q)) <= Vocabulary(questions)
  {
    forall w | w in Words(Lower(q)) ensures w in Vocabulary(questions) {
      assert w in Split(Lower(q));
    }
  }

  /**
   * Asking a stored question of a store extract_qa built (so its keys are stripped) that is
   * not a greeting and has a word gets past every gate to the semantic match.
   */
  lemma StoredQuestion(store: map<string, string>, q: string)
    requires CleanStore(store) && q in store && !AllWs(q)
    requires !IsGreeting(Lower(q))
    ensures Classify(store, Some(q)) == NeedsSemantic(Lower(q))
  {
    hide Vocabulary, Words, Split, Strip, IsGreeting;
    assert IsStripped(q);
    InVocabulary(store.Keys, q);
    assert Normalize(Some(q)) == Lower(q);
    assert !AllWs(Lower(q)) by {
      var k :| 0 <= k < |q| && !IsWs(q[k]);
      assert !IsWs(Lower(q)[k]);
    }
    assert Words(Lower(q)) - Vocabulary(store.Keys) == {};
    assert |Words(Lower(q)) * Vocabulary(store.Keys)| > 0 by {
      var w :| w in Words(Lower(q));
      assert w in Words(Lower(q)) * Vocabulary(store.Keys);
    }
  }

  /** "Hi!" is a greeting: lowercased to "hi!", its "!" removed. */
  lemma HiIsGreeting()
    ensures IsGreeting(Normalize(Some("Hi!")))
  {
    hide Strip, Lower;
    assert IsStripped("Hi!");
    var u := Normalize(Some("Hi!"));
    assert u == "hi!" by {
      assert Lower("Hi!")[0] == 'h' && Lower("Hi!")[1] == 'i' && Lower("Hi!")[2] == '!';
    }
    assert RemovePunct("hi!") == "hi";
  }

  /** "HELLO" is a greeting: lowercased to "hello". */
  lemma HelloIsGreeting()
    ensures IsGreeting(Normalize(Some("HELLO")))
  {
    hide Strip, Lower;
    assert IsStripped("HELLO");
    var u := Normalize(Some("HELLO"));
    assert u == "hello" by {
      var l := Lower("HELLO");
      assert l[0] == 'h' && l[1] == 'e' && l[2] == 'l' && l[3] == 'l' && l[4] == 'o';
    }
    assert RemovePunct("hello") == "hello";
  }

  /** "hi there" is not: only a whole phrase counts, so it goes on to the keyword gate. */
  lemma HiThereIsNot()
    ensures !IsGreeting(Normalize(Some("hi there")))
  {
    hide Strip, Lower, RemovePunct;
    assert IsStripped("hi there");
    var u := Normalize(Some("hi there"));
    assert u == "hi there" by {
      var l := Lower("hi there");
      forall k | 0 <= k < 8 ensures l[k] == "hi there"[k] { }
    }
    assert RemovePunct("hi there") == "hi there" by {
      forall k | 0 <= k < 8 ensures Kept("hi there"[k]) { }
    }
    assert forall g | g in Greetings :: |g| != 8;
  }

  /** What an upload reports. */
  datatype UploadStatus =
    | NoFile             // 400 with "No file uploaded."
    | Uploaded(count: nat)  // "Q&A extracted successfully!" with the number of pairs stored

  /** Every stored key and value is stripped and no value holds a line feed. */
  predicate CleanStore(store: map<string, string>) {
    forall q | q in store :: IsStripped(q) && IsStripped(store[q]) && '\n' !in store[q]
  }

  /** The service: the `qa_data` store of app.py:13, which an upload replaces and a question reads. */
  class ChatService {
    var store: map<string, string>

    /** Every stored key and value has the form extract_qa gives it. */
    predicate Valid()
      reads this
    {
      CleanStore(store)
    }

    /** The service starts with no data. */
    constructor()
      ensures store == map[] && Valid()
    {
      store := map[];
    }

    /**
     * `upload_pdf` on the text the PDF extraction gives (absent when the request has no
     * "file"): without a file nothing changes; with one the store becomes exactly what
     * extract_qa, its pattern as app.py:23 writes it, reads from the stripped text, whatever
     * the store held before.
     */
    method Upload(file: Option<string>) returns (status: UploadStatus)
      requires Valid()
      modifies this
      ensures Valid()
      ensures file.None? ==> status == NoFile && store == old(store)
      ensures file.Some? ==> store == ExtractQa(AppAsWritten, Strip(file.value)) && status == Uploaded(|store|)
    {
      if file.None? {
        return NoFile;
      }
      store := ExtractQa(AppAsWritten, Strip(file.value));
      ExtractQaClean(AppAsWritten, Strip(file.value));
      status := Uploaded(|store|);
    }

    /**
     * `ask_question` up to the semantic match: the gates in their order, the topic keywords
     * gathered question by question.
     */
    method Ask(question: Option<string>) returns (o: Outcome)
      ensures o == Classify(store, question)
    {
      hide Vocabulary, Words, Split, Lower, Strip, RemovePunct;
      var u := Normalize(question);
      if store == map[] {
        return NoData;
      }
      if RemovePunct(u) in Greetings {
        return Greeting;
      }
      var topic := TopicKeywords(store.Keys);
      var words := Words(u);
      var relevant := words * topic;
      var irrelevant := words - topic;
      if |irrelevant| >= |relevant| {
        return Irrelevant;
      }
      return NeedsSemantic(u);
    }
  }

  /** The loop of app.py:56-58: the words of the lowercased questions, gathered one question at a time. */
  method TopicKeywords(questions: set<string>) returns (topic: set<string>)
    ensures topic == Vocabulary(questions)
  {
    hide Vocabulary, Words;
    topic := {};
    var rest := questions;
    VocabularyEmpty();
    assert questions - rest == {};
    while rest != {}
      invariant rest <= questions
      invariant topic == Vocabulary(questions - rest)
      decreases |rest|
    {
      var q :| q in rest;
      VocabularyAdd(questions - rest, q);
      assert questions - (rest - {q}) == (questions - rest) + {q};
      topic := topic + Words(Lower(q));
      rest := rest - {q};
    }
    assert questions - rest == questions;
  }

  lemma VocabularyEmpty()
    ensures Vocabulary({}) == {}
  {
  }

  /** Adding a question adds its words to the vocabulary. */
  lemma VocabularyAdd(questions: set<string>, q: string)
    ensures Vocabulary(questions + {q}) == Vocabulary(questions) + Words(Lower(q))
  {
    forall w | w in Vocabulary(questions + {q}) ensures w in Vocabulary(questions) + Words(Lower(q)) {
      var q' :| q' in questions + {q} && w in Split(Lower(q'));
      if q' != q {
        assert w in Vocabulary(questions);
      }
    }
    forall w | w in Words(Lower(q)) ensures w in Vocabulary(questions + {q}) {
      assert w in Split(Lower(q));
    }
  }

  /** "What is X?" is no greeting: its words keep a 'w', which no phrase short enough has. */
  lemma WhatIsXNoGreeting()
    ensures !IsGreeting(Lower("What is X?"))
  {
    hide Lower, RemovePunct;
    var l := Lower("What is X?");
    assert l[0] == 'w';
    var r := RemovePunct(l);
    assert 'w' in r && |r| <= 10;
    assert 'w' !in "hi" && 'w' !in "hello" && 'w' !in "hey" && 'w' !in "greetings";
    assert |"good morning"| > 10 && |"good afternoon"| > 10 && |"good evening"| > 10;
  }

  /**
   * Upload a document reading "Q: What is X?\nA: X is Y.\n", then ask "What is X?": the store
   * holds exactly that pair and the question gets past every gate to the semantic match.
   */
  method UploadThenAsk() returns (store: map<string, string>, o: Outcome)
    ensures store == map["What is X?" := "X is Y."]
    ensures o == NeedsSemantic(Lower("What is X?"))
  {
    hide ExtractQa, Classify, Strip, Lower, IsGreeting, CleanStore;
    var service := new ChatService();
    var status := service.Upload(Some("Q: What is X?\nA: X is Y.\n"));
    OneEntryStripped(AppAsWritten);
    o := service.Ask(Some("What is X?"));
    store := service.store;
    assert !AllWs("What is X?") by { assert !IsWs("What is X?"[0]); }
    WhatIsXNoGreeting();
    StoredQuestion(store, "What is X?");
  }

  /** Two uploads in a row: the store is what the second document gives, nothing of the first is kept. */
  method UploadTwice(first: string, second: string) returns (store: map<string, string>)
    ensures store == ExtractQa(AppAsWritten, Strip(second))
  {
    var service := new ChatService();
    var status := service.Upload(Some(first));
    status := service.Upload(Some(second));
    store := service.store;
  }
}
