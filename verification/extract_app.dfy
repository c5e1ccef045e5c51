/**
 * app.py's `extract_qa` (lines 22-24): the findall scan, then a dict whose keys are the
 * stripped questions and whose values are the stripped answers with every line feed
 * turned into a space, the last pair with a question deciding its answer.
 *
 * ExtractQa takes the reading of app.py:23's pattern as a parameter: AppAsWritten is the
 * pattern exactly as written, which is what the program runs and which runs an answer on to
 * the first blank line before a "Q:"; App is the corrected reading, whose answer ends at
 * the next "\nQ:". The general properties hold for both; the round trip of whole documents
 * holds for the corrected reading only.
 */
module ExtractApp {
  import opened Text
  import opened QaScan
  import opened QaLayout
  import opened QaDict

  /** `(q.strip(), a.strip().replace("\n", " "))` */
  function CleanPair(pr: (string, string)): (c: (string, string))
    ensures c.0 == Strip(pr.0)
    ensures IsStripped(c.0) && IsStripped(c.1) && '\n' !in c.1
    ensures |c.1| == |Strip(pr.1)|
    ensures forall k :: 0 <= k < |c.1| ==> c.1[k] == (if Strip(pr.1)[k] == '\n' then ' ' else Strip(pr.1)[k])
  {
    (Strip(pr.0), ReplaceNewlines(Strip(pr.1)))
  }

  /** CleanPair applied to every pair, in order. */
  function CleanAll(pairs: seq<(string, string)>): (r: seq<(string, string)>)
    ensures |r| == |pairs|
    ensures forall k :: 0 <= k < |pairs| ==> r[k] == CleanPair(pairs[k])
  {
    if |pairs| == 0 then [] else [CleanPair(pairs[0])] + CleanAll(pairs[1..])
  }

  /** `extract_qa(text)`, scanning with the reading p of app.py:23's pattern. */
  function ExtractQa(p: Pattern, text: string): map<string, string>
    requires p != Legacy
  {
    BuildMap(CleanAll(FindAll(p, text, 0)))
  }

  /** Every key and every value is stripped, and no value holds a line feed. */
  lemma ExtractQaClean(p: Pattern, text: string)
    requires p != Legacy
    ensures forall q | q in ExtractQa(p, text) :: IsStripped(q) && IsStripped(ExtractQa(p, text)[q]) && '\n' !in ExtractQa(p, text)[q]
  {
    hide BuildMap, FindAll, Strip, ReplaceNewlines;
    var pairs := CleanAll(FindAll(p, text, 0));
    forall q | q in BuildMap(pairs) ensures IsStripped(q) && IsStripped(BuildMap(pairs)[q]) && '\n' !in BuildMap(pairs)[q] {
      FromLast(pairs, q);
      var j :| LastOf(pairs, j) && pairs[j] == (q, BuildMap(pairs)[q]);
    }
  }

  /** Each entry comes from the last match with that stripped question. */
  lemma ExtractQaFromLast(p: Pattern, text: string, q: string)
    requires p != Legacy && q in ExtractQa(p, text)
    ensures exists k :: (0 <= k < |FindAll(p, text, 0)|
      && Strip(FindAll(p, text, 0)[k].0) == q
      && ExtractQa(p, text)[q] == ReplaceNewlines(Strip(FindAll(p, text, 0)[k].1))
      && forall i :: k < i < |FindAll(p, text, 0)| ==> Strip(FindAll(p, text, 0)[i].0) != q)
  {
    hide BuildMap, FindAll, Strip, ReplaceNewlines;
    var found := FindAll(p, text, 0);
    var pairs := CleanAll(found);
    FromLast(pairs, q);
    var j :| LastOf(pairs, j) && pairs[j] == (q, BuildMap(pairs)[q]);
    forall i | j < i < |found| ensures Strip(found[i].0) != q {
      assert pairs[i].0 != pairs[j].0;
    }
    assert pairs[j] == CleanPair(found[j]);
    assert 0 <= j < |found| && Strip(found[j].0) == q && ExtractQa(p, text)[q] == ReplaceNewlines(Strip(found[j].1));
  }

  /**
   * What an entry is, read off the text: its key is the stripped text between some "Q:" and
   * the answer marker its question runs up to, its value the answer after that marker,
   * stripped, with line feeds turned into spaces.
   */
  lemma ExtractQaEntry(p: Pattern, text: string, q: string)
    requires p != Legacy && q in ExtractQa(p, text)
    ensures exists j: nat, m: nat :: (OccursAt(text, "Q:", j) && FirstMarker(p, text, j, m)
      && q == Strip(text[j + 2..m])
      && ExtractQa(p, text)[q] == ReplaceNewlines(Strip(AnswerText(p, text, m))))
  {
    hide BuildMap, Strip, ReplaceNewlines, FirstMarker, AnswerText, ExtractQa;
    var found := FindAll(p, text, 0);
    ExtractQaFromLast(p, text, q);
    var k :| 0 <= k < |found| && Strip(found[k].0) == q && ExtractQa(p, text)[q] == ReplaceNewlines(Strip(found[k].1));
    FindAllReads(p, text, 0, k);
    var j: nat, m: nat :| OccursAt(text, "Q:", j) && Captures(p, text, j, m, found[k]);
    CapturesParts(p, text, j, m, found[k]);
  }

  /** A later match with the same stripped question overrides an earlier one. */
  lemma ExtractQaLastWins(p: Pattern, text: string, k: nat)
    requires p != Legacy && k < |FindAll(p, text, 0)|
    requires forall i :: k < i < |FindAll(p, text, 0)| ==> Strip(FindAll(p, text, 0)[i].0) != Strip(FindAll(p, text, 0)[k].0)
    ensures Strip(FindAll(p, text, 0)[k].0) in ExtractQa(p, text)
    ensures ExtractQa(p, text)[Strip(FindAll(p, text, 0)[k].0)] == ReplaceNewlines(Strip(FindAll(p, text, 0)[k].1))
  {
    var found := FindAll(p, text, 0);
    var pairs := CleanAll(found);
    forall i | k < i < |pairs| ensures pairs[i].0 != pairs[k].0 {
    }
    LastWins(pairs, k);
  }

  /** There are never more entries than matches. */
  lemma ExtractQaSize(p: Pattern, text: string)
    requires p != Legacy
    ensures |ExtractQa(p, text)| <= |FindAll(p, text, 0)|
  {
    MapSize(CleanAll(FindAll(p, text, 0)));
  }

  /** Without any "Q:" the result is the empty map, not an error. */
  lemma NoQuestionEmpty(p: Pattern, text: string)
    requires p != Legacy && !Contains(text, "Q:")
    ensures ExtractQa(p, text) == map[]
  {
    NoQuestionNoPairs(p, text, 0);
  }

  /** Without any "\nA:" the result is the empty map as well. */
  lemma NoAnswerEmpty(p: Pattern, text: string)
    requires p != Legacy && !Contains(text, "\nA:")
    ensures ExtractQa(p, text) == map[]
  {
    NoMarkerNoPairs(p, text, 0);
  }

  /** A "Q:" with no "\nA:" anywhere after it yields no pair. */
  lemma TrailingQuestion(p: Pattern, text: string, i: nat)
    requires p != Legacy && OccursAt(text, "Q:", i)
    requires forall j: nat :: i + 2 <= j ==> !OccursAt(text, "\nA:", j)
    ensures FindAll(p, text, i) == []
  {
    assert text[i] == 'Q' && text[i + 1] == ':' by { assert "Q:"[0] == 'Q' && "Q:"[1] == ':'; }
    NotOccursAt(text, "\nA:", i, 0);
    NotOccursAt(text, "\nA:", i + 1, 0);
    NoMarkerNoPairs(p, text, i);
  }

  /** Corrected reading: the cleaned matches of a laid-out document are the pairs it was laid out from. */
  lemma CleanLayout(text: string, ps: seq<(string, string)>)
    requires AllWellFormed(App, ps) && Layout(text, 0, ps)
    ensures CleanAll(FindAll(App, text, 0)) == ps
  {
    var found := FindAll(App, text, 0);
    FindAllLayout(App, text, 0, ps);
    forall k | 0 <= k < |ps| ensures CleanPair(found[k]) == ps[k] {
      assert WellFormed(App, ps[k]);
    }
  }

  /**
   * Round trip, corrected reading: pairs whose questions and answers are non-empty, stripped
   * and free of line feeds, written "Q: <q>\nA: <a>" one after the other and followed by any
   * whitespace, come back as the dict of those pairs.
   */
  lemma RoundTrip(ps: seq<(string, string)>, tail: string)
    requires AllWellFormed(App, ps) && AllWs(tail)
    ensures ExtractQa(App, Render(ps) + tail) == BuildMap(ps)
  {
    RenderLayout(ps, tail);
    CleanLayout(Render(ps) + tail, ps);
  }

  /** Corrected reading: a laid-out document with N distinct questions gives exactly N entries. */
  lemma PairCount(ps: seq<(string, string)>, tail: string)
    requires AllWellFormed(App, ps) && AllWs(tail)
    requires forall i, j :: 0 <= i < j < |ps| ==> ps[i].0 != ps[j].0
    ensures |ExtractQa(App, Render(ps) + tail)| == |ps|
  {
    RoundTrip(ps, tail);
    DistinctSize(ps);
  }

  /**
   * With the pattern as written, a laid-out document yields one match: its first
   * question, the answer running on to the end of the text.
   */
  lemma AsWrittenFindAll(ps: seq<(string, string)>, tail: string)
    requires |ps| > 0 && AllWellFormed(AppAsWritten, ps) && AllWs(tail)
    ensures 7 + |ps[0].0| <= |Render(ps) + tail|
    ensures FindAll(AppAsWritten, Render(ps) + tail, 0) == [(ps[0].0, (Render(ps) + tail)[7 + |ps[0].0|..])]
  {
    hide Render, Layout, AllWellFormed, Matches, MatchAt;
    var text := Render(ps) + tail;
    RenderLayout(ps, tail);
    AsWrittenLayout(text, ps);
    AsWrittenFirst(text, ps);
    EntrySlices(text, 0, ps[0].0, ps[0].1);
    var r := FindAll(AppAsWritten, text, 0);
    assert |r| == 1 && r[0] == (text[3..3 + |ps[0].0|], text[7 + |ps[0].0|..|text|]);
    assert text[7 + |ps[0].0|..|text|] == text[7 + |ps[0].0|..];
  }

  /** So the dict read with the pattern as written has the first question as its only key. */
  lemma AsWrittenKeys(ps: seq<(string, string)>, tail: string)
    requires |ps| > 0 && AllWellFormed(AppAsWritten, ps) && AllWs(tail)
    ensures ExtractQa(AppAsWritten, Render(ps) + tail).Keys == {ps[0].0}
  {
    hide Render, FindAll, Strip, ReplaceNewlines;
    AsWrittenFindAll(ps, tail);
    assert WellFormed(AppAsWritten, ps[0]);
  }

  /**
   * A document of a single pair, followed by any whitespace, comes back as that one entry in
   * both readings: as written, the answer that runs to the end of the text is that pair's.
   */
  lemma SingleEntry(p: Pattern, pr: (string, string), tail: string)
    requires p != Legacy && WellFormed(p, pr) && AllWs(tail)
    ensures ExtractQa(p, Render([pr]) + tail) == map[pr.0 := pr.1]
  {
    var ps := [pr];
    assert AllWellFormed(p, ps);
    if p == App {
      RoundTrip(ps, tail);
      assert BuildMap(ps) == BuildMap(ps[..0])[pr.0 := pr.1];
    } else {
      AsWrittenFindAll(ps, tail);
      AsWrittenSingle(pr, tail);
    }
  }

  lemma AsWrittenSingle(pr: (string, string), tail: string)
    requires WellFormed(AppAsWritten, pr) && AllWs(tail)
    requires 7 + |pr.0| <= |Render([pr]) + tail|
    requires FindAll(AppAsWritten, Render([pr]) + tail, 0) == [(pr.0, (Render([pr]) + tail)[7 + |pr.0|..])]
    ensures ExtractQa(AppAsWritten, Render([pr]) + tail) == map[pr.0 := pr.1]
  {
    hide FindAll, Strip, ReplaceNewlines;
    var text := Render([pr]) + tail;
    assert text == "Q: " + pr.0 + "\nA: " + pr.1 + tail;
    assert text[7 + |pr.0|..] == pr.1 + tail;
    StripPadded("", pr.1, tail);
    assert "" + pr.1 + tail == pr.1 + tail;
    var pairs := CleanAll(FindAll(AppAsWritten, text, 0));
    assert pairs == [pr];
    assert BuildMap(pairs) == BuildMap(pairs[..0])[pr.0 := pr.1];
  }

  /** `extract_qa("Q: What is X?\nA: X is Y.\n")` is `{"What is X?": "X is Y."}`, in both readings. */
  lemma OneEntry(p: Pattern)
    requires p != Legacy
    ensures ExtractQa(p, "Q: What is X?\nA: X is Y.\n") == map["What is X?" := "X is Y."]
  {
    var pr := ("What is X?", "X is Y.");
    assert Render([pr]) + "\n" == "Q: What is X?\nA: X is Y.\n";
    assert AllWs("\n") by { assert WsAt("\n", 0); }
    assert WellFormed(p, pr);
    SingleEntry(p, pr, "\n");
  }

  /** The same document once the upload has stripped it. */
  lemma OneEntryStripped(p: Pattern)
    requires p != Legacy
    ensures ExtractQa(p, Strip("Q: What is X?\nA: X is Y.\n")) == map["What is X?" := "X is Y."]
  {
    hide ExtractQa, Strip, Render, WellFormed, AllWs;
    OneEntryDocument();
    SingleEntry(p, ("What is X?", "X is Y."), "");
  }

  /** The sample document, stripped, is the one pair laid out with nothing after it. */
  lemma OneEntryDocument()
    ensures Strip("Q: What is X?\nA: X is Y.\n") == Render([("What is X?", "X is Y.")]) + ""
    ensures WellFormed(App, ("What is X?", "X is Y.")) && WellFormed(AppAsWritten, ("What is X?", "X is Y.")) && AllWs("")
  {
    hide Strip, Render, WellFormed;
    SampleLaidOut();
    SampleStripped();
  }

  lemma SampleLaidOut()
    ensures Render([("What is X?", "X is Y.")]) + "" == "Q: What is X?\nA: X is Y."
    ensures WellFormed(App, ("What is X?", "X is Y.")) && WellFormed(AppAsWritten, ("What is X?", "X is Y.")) && AllWs("")
  {
    assert WellFormed(App, ("What is X?", "X is Y."));
  }

  lemma SampleStripped()
    ensures Strip("Q: What is X?\nA: X is Y.\n") == "Q: What is X?\nA: X is Y."
  {
    var core := "Q: What is X?\nA: X is Y.";
    assert IsStripped(core);
    assert AllWs("\n") by { assert WsAt("\n", 0); }
    StripPadded("", core, "\n");
    assert "" + core + "\n" == "Q: What is X?\nA: X is Y.\n";
  }

  /** The two-pair document of the counterexample below. */
  lemma TwoPairs()
    ensures Render([("a", "X"), ("b", "Y")]) + "" == "Q: a\nA: X\nQ: b\nA: Y"
    ensures AllWellFormed(App, [("a", "X"), ("b", "Y")]) && AllWellFormed(AppAsWritten, [("a", "X"), ("b", "Y")])
    ensures AllWs("")
  {
    var ps := [("a", "X"), ("b", "Y")];
    assert WellFormed(App, ps[0]) && WellFormed(App, ps[1]);
  }

  /** "Q: a\nA: X\nQ: b\nA: Y": as written, the first answer swallows the second pair. */
  lemma AsWrittenMerges()
    ensures ExtractQa(AppAsWritten, "Q: a\nA: X\nQ: b\nA: Y") == map["a" := "X Q: b A: Y"]
  {
    hide Render, AllWellFormed, FindAll, AllWs, Strip, ReplaceNewlines;
    var ps := [("a", "X"), ("b", "Y")];
    var text := "Q: a\nA: X\nQ: b\nA: Y";
    TwoPairs();
    AsWrittenFindAll(ps, "");
    assert text == "Q: a\nA: " + "X\nQ: b\nA: Y";
    var rest := text[8..];
    assert rest == "X\nQ: b\nA: Y";
    assert IsStripped(rest) && IsStripped("a");
    MergedAnswer();
    var pairs := CleanAll(FindAll(AppAsWritten, text, 0));
    assert pairs == [("a", "X Q: b A: Y")];
    assert BuildMap(pairs) == BuildMap(pairs[..0])["a" := "X Q: b A: Y"];
  }

  /** The swallowed answer, its line feeds turned into spaces. */
  lemma MergedAnswer()
    ensures ReplaceNewlines("X\nQ: b\nA: Y") == "X Q: b A: Y"
  {
    hide ReplaceNewlines;
    var s := "X\nQ: b\nA: Y";
    var r := ReplaceNewlines(s);
    forall k | 0 <= k < |s| ensures r[k] == "X Q: b A: Y"[k] {
    }
  }

  /** The same document read with the answer ending at the next "\nQ:" gives both pairs. */
  lemma CorrectedSplits()
    ensures ExtractQa(App, "Q: a\nA: X\nQ: b\nA: Y") == map["a" := "X", "b" := "Y"]
  {
    hide Render, AllWellFormed, FindAll, AllWs, ExtractQa;
    var ps := [("a", "X"), ("b", "Y")];
    TwoPairs();
    RoundTrip(ps, "");
    assert BuildMap(ps) == BuildMap(ps[..1])["b" := "Y"];
  }
}
