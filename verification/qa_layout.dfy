/**
 * The document layout the parsers are meant for: each pair written as
 * "Q: <question>\nA: <answer>", consecutive pairs separated by a single line feed,
 * possibly followed by trailing whitespace. The lemmas say what each pattern
 * recovers from such a document.
 */
module QaLayout {
  import opened Wrappers
  import opened Text
  import opened QaScan

  function Entry(pr: (string, string)): string {
    "Q: " + pr.0 + "\nA: " + pr.1
  }

  /** The pairs laid out one after the other, separated by one line feed. */
  function Render(ps: seq<(string, string)>): string {
    if |ps| == 0 then ""
    else if |ps| == 1 then Entry(ps[0])
    else Entry(ps[0]) + "\n" + Render(ps[1..])
  }

  /** A pair whose entry the pattern reads back unchanged. */
  predicate WellFormed(p: Pattern, pr: (string, string)) {
    && pr.0 != "" && pr.1 != "" && IsStripped(pr.0) && IsStripped(pr.1)
    && if p == Legacy then !Contains(pr.0, "A:") && !Contains(pr.1, "\nQ:")
       else '\n' !in pr.0 && '\n' !in pr.1
  }

  predicate AllWellFormed(p: Pattern, ps: seq<(string, string)>) {
    forall k :: 0 <= k < |ps| ==> WellFormed(p, ps[k])
  }

  lemma AllWellFormedSplit(p: Pattern, ps: seq<(string, string)>)
    requires AllWellFormed(p, ps) && |ps| > 0
    ensures WellFormed(p, (ps[0].0, ps[0].1)) && AllWellFormed(p, ps[1..])
  {
    assert ps[0] == (ps[0].0, ps[0].1);
    forall k | 0 <= k < |ps| - 1 ensures WellFormed(p, ps[1..][k]) { assert ps[1..][k] == ps[k + 1]; }
  }

  /** The entry of (q, a) sits at index i of text, character by character. */
  predicate EntryAt(text: string, i: nat, q: string, a: string) {
    && i + 7 + |q| + |a| <= |text|
    && text[i] == 'Q' && text[i + 1] == ':' && text[i + 2] == ' '
    && (forall k :: 0 <= k < |q| ==> text[i + 3 + k] == q[k])
    && text[i + 3 + |q|] == '\n' && text[i + 4 + |q|] == 'A'
    && text[i + 5 + |q|] == ':' && text[i + 6 + |q|] == ' '
    && (forall k :: 0 <= k < |a| ==> text[i + 7 + |q| + k] == a[k])
  }

  /** Where an entry at i ends. */
  function EntryEnd(i: nat, q: string, a: string): nat {
    i + 7 + |q| + |a|
  }

  /** Only whitespace from index i on. */
  predicate WsFrom(text: string, i: nat) {
    forall k :: i <= k < |text| ==> WsAt(text, k)
  }

  /** ps laid out in text from index i on: entries separated by one line feed, then only whitespace. */
  predicate Layout(text: string, i: nat, ps: seq<(string, string)>)
    decreases |ps|
  {
    && i <= |text|
    && if |ps| == 0 then WsFrom(text, i)
       else
         var e := EntryEnd(i, ps[0].0, ps[0].1);
         && EntryAt(text, i, ps[0].0, ps[0].1)
         && if |ps| == 1 then WsFrom(text, e)
            else e < |text| && text[e] == '\n' && Layout(text, e + 1, ps[1..])
  }

  /** The characters of an entry, at the front of any text. */
  lemma EntryFront(q: string, a: string, rest: string)
    ensures EntryAt(Entry((q, a)) + rest, 0, q, a)
    ensures |Entry((q, a))| == EntryEnd(0, q, a)
  {
    var t := Entry((q, a)) + rest;
    assert t == "Q: " + (q + ("\nA: " + (a + rest)));
    assert t[3..] == q + ("\nA: " + (a + rest));
    forall k | 0 <= k < |q| ensures t[3 + k] == q[k] {
      assert t[3 + k] == t[3..][k];
    }
    var u := t[3 + |q|..];
    assert u == "\nA: " + (a + rest);
    assert u[4..] == a + rest;
    forall k | 0 <= k < |a| ensures t[7 + |q| + k] == a[k] {
      assert t[7 + |q| + k] == u[4..][k];
    }
  }

  /** Prepending text moves a layout along without changing it. */
  lemma {:induction false} LayoutShift(pre: string, t: string, j: nat, ps: seq<(string, string)>)
    requires Layout(t, j, ps)
    ensures Layout(pre + t, |pre| + j, ps)
    decreases |ps|
  {
    var u := pre + t;
    assert forall x :: 0 <= x < |t| ==> u[|pre| + x] == t[x];
    if |ps| == 0 {
      forall k | |pre| + j <= k < |u| ensures WsAt(u, k) { assert u[k] == t[k - |pre|] && WsAt(t, k - |pre|); }
    } else {
      var q, a := ps[0].0, ps[0].1;
      var e := EntryEnd(j, q, a);
      assert EntryAt(u, |pre| + j, q, a) by {
        forall k | 0 <= k < |q| ensures u[|pre| + j + 3 + k] == q[k] { assert t[j + 3 + k] == q[k]; }
        forall k | 0 <= k < |a| ensures u[|pre| + j + 7 + |q| + k] == a[k] { assert t[j + 7 + |q| + k] == a[k]; }
      }
      if |ps| == 1 {
        forall k | |pre| + e <= k < |u| ensures WsAt(u, k) { assert u[k] == t[k - |pre|] && WsAt(t, k - |pre|); }
      } else {
        assert u[|pre| + e] == t[e];
        LayoutShift(pre, t, e + 1, ps[1..]);
      }
    }
  }

  lemma AppendAssoc(x: string, y: string, z: string)
    ensures (x + y) + z == x + (y + z)
  {
  }

  /** Rendering ps and appending whitespace lays ps out. */
  lemma {:induction false} RenderLayout(ps: seq<(string, string)>, tail: string)
    requires AllWs(tail)
    ensures Layout(Render(ps) + tail, 0, ps)
    decreases |ps|, 1
  {
    if |ps| == 0 {
      assert Render(ps) + tail == tail;
      forall k | 0 <= k < |tail| ensures WsAt(tail, k) { }
    } else if |ps| == 1 {
      RenderOne(ps, tail);
    } else {
      RenderCons(ps, tail);
    }
  }

  /** One entry followed by whitespace. */
  lemma RenderOne(ps: seq<(string, string)>, tail: string)
    requires AllWs(tail) && |ps| == 1
    ensures Layout(Render(ps) + tail, 0, ps)
  {
    var q, a := ps[0].0, ps[0].1;
    assert ps[0] == (q, a);
    var t := Entry((q, a)) + tail;
    assert Render(ps) + tail == t;
    EntryFront(q, a, tail);
    var e := EntryEnd(0, q, a);
    forall k | e <= k < |t| ensures WsAt(t, k) { assert t[k] == tail[k - e]; }
  }

  /** The rendering of two or more pairs: the first entry, a line feed, then the rest. */
  lemma RenderSplit(ps: seq<(string, string)>, tail: string)
    requires |ps| > 1
    ensures Render(ps) + tail == Entry((ps[0].0, ps[0].1)) + ("\n" + (Render(ps[1..]) + tail))
  {
    assert ps[0] == (ps[0].0, ps[0].1);
    AppendAssoc(Entry(ps[0]) + "\n", Render(ps[1..]), tail);
    AppendAssoc(Entry(ps[0]), "\n", Render(ps[1..]) + tail);
  }

  /** An entry, a line feed and a layout of the rest make a layout. */
  lemma LayoutCons(t: string, i: nat, ps: seq<(string, string)>)
    requires |ps| > 1 && EntryAt(t, i, ps[0].0, ps[0].1)
    requires EntryEnd(i, ps[0].0, ps[0].1) < |t| && t[EntryEnd(i, ps[0].0, ps[0].1)] == '\n'
    requires Layout(t, EntryEnd(i, ps[0].0, ps[0].1) + 1, ps[1..])
    ensures Layout(t, i, ps)
  {
  }

  /** Two or more entries followed by whitespace. */
  lemma {:induction false} RenderCons(ps: seq<(string, string)>, tail: string)
    requires AllWs(tail) && |ps| > 1
    ensures Layout(Render(ps) + tail, 0, ps)
    decreases |ps|, 0
  {
    hide Render, Layout, EntryAt, Entry;
    var q, a := ps[0].0, ps[0].1;
    var r := Render(ps[1..]) + tail;
    var t := Render(ps) + tail;
    RenderSplit(ps, tail);
    RenderLayout(ps[1..], tail);
    EntryFront(q, a, "\n" + r);
    LayoutShift(Entry((q, a)) + "\n", r, 0, ps[1..]);
    AppendAssoc(Entry((q, a)), "\n", r);
    assert t[EntryEnd(0, q, a)] == '\n';
    LayoutCons(t, 0, ps);
  }

  /** The question and the answer of an entry are slices of the text. */
  lemma EntrySlices(text: string, i: nat, q: string, a: string)
    requires EntryAt(text, i, q, a)
    ensures text[i + 3..i + 3 + |q|] == q
    ensures text[i + 7 + |q|..EntryEnd(i, q, a)] == a
  {
  }

  /** Where the answer marker of an entry at i starts. */
  function MarkerPos(p: Pattern, i: nat, q: string): nat {
    if p == Legacy then i + 4 + |q| else i + 3 + |q|
  }

  /** In extract_qa.py's pattern the first "A:" after an entry's question is its own marker. */
  lemma LegacyMarkerSearch(text: string, i: nat, q: string, a: string)
    requires WellFormed(Legacy, (q, a)) && EntryAt(text, i, q, a)
    ensures Find(text, "A:", i + 3) == Some(i + 4 + |q|)
  {
    EntrySlices(text, i, q, a);
    var m := i + 4 + |q|;
    assert OccursAt(text, "A:", m) by { assert text[m] == 'A' && text[m + 1] == ':'; }
    forall j: nat | i + 3 <= j < m ensures !OccursAt(text, "A:", j) {
      if j + 2 <= i + 3 + |q| {
        NoneInSlice(text, i + 3, i + 3 + |q|, "A:", j);
      } else if j == i + 2 + |q| {
        NotOccursAt(text, "A:", j, 1);
      } else {
        NotOccursAt(text, "A:", j, 0);
      }
    }
    FindFirst(text, "A:", i + 3, m);
  }

  /** In app.py's pattern the first "\nA:" after an entry's question is its own marker. */
  lemma AppMarkerSearch(p: Pattern, text: string, i: nat, q: string, a: string)
    requires p != Legacy && WellFormed(p, (q, a)) && EntryAt(text, i, q, a)
    ensures Find(text, "\nA:", i + 3) == Some(i + 3 + |q|)
  {
    var m := i + 3 + |q|;
    assert OccursAt(text, "\nA:", m) by { assert text[m] == '\n' && text[m + 1] == 'A' && text[m + 2] == ':'; }
    forall j: nat | i + 3 <= j < m ensures !OccursAt(text, "\nA:", j) {
      assert text[j] == q[j - (i + 3)];
      NotOccursAt(text, "\nA:", j, 0);
    }
    FindFirst(text, "\nA:", i + 3, m);
  }

  /** Where the whitespace around an entry's question and before its answer begins and ends. */
  lemma EntryTrim(p: Pattern, text: string, i: nat, q: string, a: string)
    requires WellFormed(p, (q, a)) && EntryAt(text, i, q, a)
    ensures OccursAt(text, "Q:", i) && i + 7 + |q| + |a| <= |text|
    ensures SkipWs(text, i + 2) == i + 3
    ensures BackWs(text, i + 3, MarkerPos(p, i, q)) == i + 3 + |q|
    ensures SkipWs(text, i + 6 + |q|) == i + 7 + |q|
  {
    assert text[i + 3] == q[0];
    assert text[i + 2 + |q|] == q[|q| - 1];
    assert text[i + 7 + |q|] == a[0];
  }

  /** The question group of an entry at i is exactly its question. */
  lemma EntryQuestion(p: Pattern, text: string, i: nat, q: string, a: string)
    requires WellFormed(p, (q, a)) && EntryAt(text, i, q, a)
    ensures QuestionGroup(p, text, i + 2) == Some(Group(i + 3, i + 3 + |q|, MarkerPos(p, i, q)))
  {
    hide SkipWs, BackWs, Find, WellFormed, EntryAt;
    EntryTrim(p, text, i, q, a);
    if p == Legacy {
      LegacyMarkerSearch(text, i, q, a);
    } else {
      AppMarkerSearch(p, text, i, q, a);
    }
  }

  /** The pattern matches an entry at i exactly: its question, then its answer from the first answer character. */
  lemma EntryMatch(p: Pattern, text: string, i: nat, q: string, a: string)
    requires WellFormed(p, (q, a)) && EntryAt(text, i, q, a)
    ensures OccursAt(text, "Q:", i)
    ensures MatchAt(p, text, i) == Some(Span(i + 3, i + 3 + |q|, i + 7 + |q|, AnswerEnd(p, text, i + 7 + |q|)))
  {
    hide MatchAt, QuestionGroup, AnswerEnd, Find, SkipWs, BackWs, WellFormed, EntryAt;
    EntryTrim(p, text, i, q, a);
    EntryQuestion(p, text, i, q, a);
    MatchOfGroup(p, text, i, Group(i + 3, i + 3 + |q|, MarkerPos(p, i, q)), i + 7 + |q|);
  }

  /** The answer of an entry holds no "\nQ:" that the corrected pattern or extract_qa.py's could stop at. */
  lemma EntryAnswerEnd(p: Pattern, text: string, i: nat, q: string, a: string)
    requires p != AppAsWritten && WellFormed(p, (q, a)) && EntryAt(text, i, q, a)
    requires EntryEnd(i, q, a) == |text| || IsWs(text[EntryEnd(i, q, a)])
    ensures AnswerEnd(p, text, i + 7 + |q|) == AnswerEnd(p, text, EntryEnd(i, q, a))
  {
    EntrySlices(text, i, q, a);
    var s, e := i + 7 + |q|, EntryEnd(i, q, a);
    assert text[e - 1] == a[|a| - 1];
    forall j: nat | s <= j < e ensures !OccursAt(text, "\nQ:", j) {
      if p == Legacy {
        if j + 3 <= e {
          NoneInSlice(text, s, e, "\nQ:", j);
        } else if j + 1 == e {
          assert text[j] == a[|a| - 1];
          NotOccursAt(text, "\nQ:", j, 0);
        } else if e < |text| {
          assert IsWs(text[e]);
          NotOccursAt(text, "\nQ:", j, e - j);
        } else {
          NotOccursAt(text, "\nQ:", j, 2);
        }
      } else {
        assert text[j] == a[j - s];
        NotOccursAt(text, "\nQ:", j, 0);
      }
    }
    FindSkip(text, "\nQ:", s, e);
  }

  /** A text made of whitespace from i on holds no "Q:" and no line feed followed by "Q:" there, so nothing matches. */
  lemma NoQuestionInWs(p: Pattern, text: string, i: nat)
    requires i <= |text| && WsFrom(text, i)
    ensures Find(text, "\nQ:", i) == None && Find(text, "\n\nQ:", i) == None
    ensures Matches(p, text, i) == []
  {
    forall j: nat | i <= j ensures !OccursAt(text, "Q:", j) && !OccursAt(text, "\nQ:", j) && !OccursAt(text, "\n\nQ:", j) {
      if j < |text| {
        assert WsAt(text, j);
      }
      NotOccursAt(text, "Q:", j, 0);
      if j + 1 < |text| {
        assert WsAt(text, j + 1);
      }
      NotOccursAt(text, "\nQ:", j, 1);
      if j + 2 < |text| {
        assert WsAt(text, j + 2);
      }
      NotOccursAt(text, "\n\nQ:", j, 2);
    }
    NoQuestionNoPairs(p, text, i);
  }

  /** The last answer runs to the end of the text; stripping it leaves the answer. */
  lemma LastAnswer(text: string, s: nat, a: string)
    requires s + |a| <= |text| && IsStripped(a) && WsFrom(text, s + |a|)
    requires forall k :: 0 <= k < |a| ==> text[s + k] == a[k]
    ensures Strip(text[s..|text|]) == a
  {
    var post := text[s + |a|..|text|];
    assert AllWs(post) by {
      forall k | 0 <= k < |post| ensures IsWs(post[k]) { assert WsAt(text, s + |a| + k); }
    }
    assert text[s..|text|] == "" + a + post;
    StripPadded("", a, post);
  }

  /**
   * Where the groups of a laid-out document lie: each question where the entry holds it,
   * each answer from its first character up to the line feed before the next entry, the
   * last one up to the end of the text.
   */
  function LayoutSpans(text: string, i: nat, ps: seq<(string, string)>): (ms: seq<Span>)
    ensures |ms| == |ps|
    decreases |ps|
  {
    if |ps| == 0 then []
    else
      var q, e := ps[0].0, EntryEnd(i, ps[0].0, ps[0].1);
      if |ps| == 1 then [Span(i + 3, i + 3 + |q|, i + 7 + |q|, |text|)]
      else [Span(i + 3, i + 3 + |q|, i + 7 + |q|, e)] + LayoutSpans(text, e + 1, ps[1..])
  }

  /** The spans of two or more entries: the first one's, then those of the rest. */
  lemma LayoutSpansCons(text: string, i: nat, ps: seq<(string, string)>)
    requires |ps| > 1
    ensures LayoutSpans(text, i, ps)
      == [Span(i + 3, i + 3 + |ps[0].0|, i + 7 + |ps[0].0|, EntryEnd(i, ps[0].0, ps[0].1))] + LayoutSpans(text, EntryEnd(i, ps[0].0, ps[0].1) + 1, ps[1..])
  {
  }

  /** An entry followed by a line feed and another entry. */
  lemma LayoutNext(text: string, i: nat, ps: seq<(string, string)>)
    requires Layout(text, i, ps) && |ps| > 1
    ensures EntryAt(text, i, ps[0].0, ps[0].1)
    ensures OccursAt(text, "\nQ:", EntryEnd(i, ps[0].0, ps[0].1))
    ensures EntryEnd(i, ps[0].0, ps[0].1) < |text| && text[EntryEnd(i, ps[0].0, ps[0].1)] == '\n'
    ensures Layout(text, EntryEnd(i, ps[0].0, ps[0].1) + 1, ps[1..])
  {
    var e := EntryEnd(i, ps[0].0, ps[0].1);
    assert text[e + 1] == 'Q' && text[e + 2] == ':';
  }

  /** The match at an entry followed by "\nQ:": its answer stops at that line feed, where the scan goes on. */
  lemma EntryStep(p: Pattern, text: string, i: nat, q: string, a: string)
    requires p != AppAsWritten && WellFormed(p, (q, a)) && EntryAt(text, i, q, a)
    requires OccursAt(text, "\nQ:", EntryEnd(i, q, a))
    ensures Matches(p, text, i) == [Span(i + 3, i + 3 + |q|, i + 7 + |q|, EntryEnd(i, q, a))] + Matches(p, text, EntryEnd(i, q, a))
  {
    var e := EntryEnd(i, q, a);
    assert text[e] == "\nQ:"[0];
    EntryMatch(p, text, i, q, a);
    EntryAnswerEnd(p, text, i, q, a);
    AnswerEndAt(p, text, e);
    MatchesMatch(p, text, i, Span(i + 3, i + 3 + |q|, i + 7 + |q|, e));
  }

  /** The match at the last entry: its answer runs to the end of the text. */
  lemma LastMatch(p: Pattern, text: string, i: nat, q: string, a: string)
    requires p != AppAsWritten && WellFormed(p, (q, a)) && EntryAt(text, i, q, a) && WsFrom(text, EntryEnd(i, q, a))
    ensures OccursAt(text, "Q:", i)
    ensures MatchAt(p, text, i) == Some(Span(i + 3, i + 3 + |q|, i + 7 + |q|, |text|))
  {
    var e := EntryEnd(i, q, a);
    assert e == |text| || IsWs(text[e]) by {
      if e < |text| { assert WsAt(text, e); }
    }
    EntryMatch(p, text, i, q, a);
    EntryAnswerEnd(p, text, i, q, a);
    NoQuestionInWs(p, text, e);
  }

  /** The last entry is the last match. */
  lemma LastEntry(p: Pattern, text: string, i: nat, q: string, a: string)
    requires p != AppAsWritten && WellFormed(p, (q, a)) && EntryAt(text, i, q, a) && WsFrom(text, EntryEnd(i, q, a))
    ensures Matches(p, text, i) == [Span(i + 3, i + 3 + |q|, i + 7 + |q|, |text|)]
  {
    LastMatch(p, text, i, q, a);
    MatchesMatch(p, text, i, Span(i + 3, i + 3 + |q|, i + 7 + |q|, |text|));
    NoQuestionInWs(p, text, |text|);
  }

  /**
   * The corrected app.py pattern and extract_qa.py's pattern find exactly the groups of a
   * laid-out document.
   */
  lemma {:induction false} MatchesLayout(p: Pattern, text: string, i: nat, ps: seq<(string, string)>)
    requires p != AppAsWritten && AllWellFormed(p, ps) && Layout(text, i, ps)
    ensures Matches(p, text, i) == LayoutSpans(text, i, ps)
    decreases |ps|, 2
  {
    hide Matches;
    if |ps| == 0 {
      NoQuestionInWs(p, text, i);
    } else if |ps| == 1 {
      assert WellFormed(p, ps[0]) && ps[0] == (ps[0].0, ps[0].1);
      LastEntry(p, text, i, ps[0].0, ps[0].1);
    } else {
      MatchesLayoutCons(p, text, i, ps);
    }
  }

  /** A layout of two or more pairs: the first entry's match, then the matches of the rest. */
  lemma {:induction false} MatchesLayoutCons(p: Pattern, text: string, i: nat, ps: seq<(string, string)>)
    requires p != AppAsWritten && AllWellFormed(p, ps) && Layout(text, i, ps) && |ps| > 1
    ensures Matches(p, text, i) == LayoutSpans(text, i, ps)
    decreases |ps|, 1
  {
    hide Matches;
    var q, a := ps[0].0, ps[0].1;
    var e := EntryEnd(i, q, a);
    LayoutConsFacts(p, text, i, ps);
    MatchesSeparator(p, text, e, ps[1..]);
    MatchesCons(p, text, i, q, a, LayoutSpans(text, e + 1, ps[1..]));
    SpansCons(text, i, ps, Matches(p, text, i));
  }

  /** What a layout of two or more pairs says about its first entry and the rest. */
  lemma LayoutConsFacts(p: Pattern, text: string, i: nat, ps: seq<(string, string)>)
    requires AllWellFormed(p, ps) && Layout(text, i, ps) && |ps| > 1
    ensures WellFormed(p, (ps[0].0, ps[0].1)) && EntryAt(text, i, ps[0].0, ps[0].1)
    ensures OccursAt(text, "\nQ:", EntryEnd(i, ps[0].0, ps[0].1))
    ensures EntryEnd(i, ps[0].0, ps[0].1) < |text| && text[EntryEnd(i, ps[0].0, ps[0].1)] == '\n'
    ensures AllWellFormed(p, ps[1..]) && Layout(text, EntryEnd(i, ps[0].0, ps[0].1) + 1, ps[1..])
  {
    AllWellFormedSplit(p, ps);
    LayoutNext(text, i, ps);
  }

  /** The spans of a layout of two or more pairs: the first entry's, then those of the rest. */
  lemma SpansCons(text: string, i: nat, ps: seq<(string, string)>, ms: seq<Span>)
    requires |ps| > 1
    requires ms == [Span(i + 3, i + 3 + |ps[0].0|, i + 7 + |ps[0].0|, EntryEnd(i, ps[0].0, ps[0].1))] + LayoutSpans(text, EntryEnd(i, ps[0].0, ps[0].1) + 1, ps[1..])
    ensures ms == LayoutSpans(text, i, ps)
  {
  }

  /** An entry followed by "\nQ:": its match comes first, then whatever the scan finds from that line feed. */
  lemma MatchesCons(p: Pattern, text: string, i: nat, q: string, a: string, tail: seq<Span>)
    requires p != AppAsWritten && WellFormed(p, (q, a)) && EntryAt(text, i, q, a)
    requires OccursAt(text, "\nQ:", EntryEnd(i, q, a)) && Matches(p, text, EntryEnd(i, q, a)) == tail
    ensures Matches(p, text, i) == [Span(i + 3, i + 3 + |q|, i + 7 + |q|, EntryEnd(i, q, a))] + tail
  {
    EntryStep(p, text, i, q, a);
  }

  /** The line feed between two entries is passed over. */
  lemma {:induction false} MatchesSeparator(p: Pattern, text: string, e: nat, ps: seq<(string, string)>)
    requires p != AppAsWritten && AllWellFormed(p, ps) && e < |text| && text[e] == '\n' && Layout(text, e + 1, ps)
    ensures Matches(p, text, e) == LayoutSpans(text, e + 1, ps)
    decreases |ps|, 3
  {
    NotOccursAt(text, "Q:", e, 0);
    MatchesPass(p, text, e);
    MatchesLayout(p, text, e + 1, ps);
  }

  /** The groups the spans delimit give back ps: the questions exactly, the answers once stripped. */
  predicate SpansRead(text: string, ms: seq<Span>, ps: seq<(string, string)>) {
    && |ms| == |ps| && SpansIn(text, ms)
    && forall k :: 0 <= k < |ps| ==>
         text[ms[k].qStart..ms[k].qEnd] == ps[k].0 && Strip(text[ms[k].aStart..ms[k].aEnd]) == ps[k].1
  }

  lemma SpansReadCons(text: string, sp: Span, ms: seq<Span>, ps: seq<(string, string)>)
    requires |ps| > 0 && sp.qStart <= sp.qEnd <= sp.aStart <= sp.aEnd <= |text|
    requires text[sp.qStart..sp.qEnd] == ps[0].0 && Strip(text[sp.aStart..sp.aEnd]) == ps[0].1
    requires SpansRead(text, ms, ps[1..])
    ensures SpansRead(text, [sp] + ms, ps)
  {
    hide Strip;
    forall k | 0 < k < |ps| ensures ([sp] + ms)[k] == ms[k - 1] && ps[k] == ps[1..][k - 1] { }
  }

  /** An answer followed by a line feed and more text reads back as itself. */
  lemma InnerAnswer(text: string, i: nat, q: string, a: string)
    requires EntryAt(text, i, q, a) && IsStripped(a)
    ensures text[i + 3..i + 3 + |q|] == q
    ensures Strip(text[i + 7 + |q|..EntryEnd(i, q, a)]) == a
  {
    EntrySlices(text, i, q, a);
  }

  /** The spans of a laid-out document delimit its pairs. */
  lemma {:induction false} LayoutRead(text: string, i: nat, ps: seq<(string, string)>)
    requires Layout(text, i, ps) && forall k :: 0 <= k < |ps| ==> IsStripped(ps[k].1)
    ensures SpansRead(text, LayoutSpans(text, i, ps), ps)
    decreases |ps|, 1
  {
    if |ps| == 1 {
      LastRead(text, i, ps);
    } else if |ps| > 1 {
      ConsRead(text, i, ps);
    }
  }

  /** The last entry reads back as itself, whatever whitespace trails it. */
  lemma LastRead(text: string, i: nat, ps: seq<(string, string)>)
    requires Layout(text, i, ps) && |ps| == 1 && IsStripped(ps[0].1)
    ensures SpansRead(text, LayoutSpans(text, i, ps), ps)
  {
    hide Strip;
    var q, a := ps[0].0, ps[0].1;
    var s := i + 7 + |q|;
    EntrySlices(text, i, q, a);
    LastAnswer(text, s, a);
    SpansReadCons(text, Span(i + 3, i + 3 + |q|, s, |text|), [], ps);
  }

  /** An entry followed by more entries reads back as itself, then the rest as themselves. */
  lemma {:induction false} ConsRead(text: string, i: nat, ps: seq<(string, string)>)
    requires Layout(text, i, ps) && |ps| > 1 && forall k :: 0 <= k < |ps| ==> IsStripped(ps[k].1)
    ensures SpansRead(text, LayoutSpans(text, i, ps), ps)
    decreases |ps|, 0
  {
    hide Strip, SpansRead, LayoutSpans, Layout, EntryAt;
    var q, a := ps[0].0, ps[0].1;
    var e := EntryEnd(i, q, a);
    assert IsStripped(ps[0].1);
    assert forall k :: 0 <= k < |ps| - 1 ==> ps[1..][k] == ps[k + 1];
    LayoutNext(text, i, ps);
    InnerAnswer(text, i, q, a);
    LayoutRead(text, e + 1, ps[1..]);
    LayoutSpansCons(text, i, ps);
    SpansReadCons(text, Span(i + 3, i + 3 + |q|, i + 7 + |q|, e), LayoutSpans(text, e + 1, ps[1..]), ps);
  }

  /** r reads back ps: the same number of pairs, the same questions, and the answers up to surrounding whitespace. */
  predicate ReadsBack(r: seq<(string, string)>, ps: seq<(string, string)>) {
    |r| == |ps| && forall k :: 0 <= k < |ps| ==> r[k].0 == ps[k].0 && Strip(r[k].1) == ps[k].1
  }

  /**
   * The corrected app.py pattern and extract_qa.py's pattern read a laid-out document back
   * pair by pair: the questions exactly, the answers up to surrounding whitespace (trailing
   * whitespace after the last answer stays attached to it).
   */
  lemma FindAllLayout(p: Pattern, text: string, i: nat, ps: seq<(string, string)>)
    requires p != AppAsWritten && AllWellFormed(p, ps) && Layout(text, i, ps)
    ensures ReadsBack(FindAll(p, text, i), ps)
  {
    MatchesLayout(p, text, i, ps);
    LayoutRead(text, i, ps);
    var ms := Matches(p, text, i);
    forall k | 0 <= k < |ps| ensures FindAll(p, text, i)[k].0 == ps[k].0 && Strip(FindAll(p, text, i)[k].1) == ps[k].1 {
      assert FindAll(p, text, i)[k] == (text[ms[k].qStart..ms[k].qEnd], text[ms[k].aStart..ms[k].aEnd]);
    }
  }

  /** Inside an app.py entry the only line feed is the one before "A:", so no "\n\nQ:" starts there. */
  lemma EntryNoBlank(p: Pattern, text: string, i: nat, q: string, a: string)
    requires p != Legacy && WellFormed(p, (q, a)) && EntryAt(text, i, q, a)
    ensures forall j: nat :: i <= j < EntryEnd(i, q, a) ==> !OccursAt(text, "\n\nQ:", j)
  {
    forall j: nat | i <= j < EntryEnd(i, q, a) ensures !OccursAt(text, "\n\nQ:", j) {
      if j == i + 3 + |q| {
        NotOccursAt(text, "\n\nQ:", j, 1);
      } else {
        if i + 3 <= j < i + 3 + |q| {
          assert text[j] == q[j - (i + 3)];
        } else if i + 7 + |q| <= j {
          assert text[j] == a[j - (i + 7 + |q|)];
        }
        NotOccursAt(text, "\n\nQ:", j, 0);
      }
    }
  }

  /** A layout for app.py's pattern holds no blank line followed by "Q:". */
  lemma {:induction false} NoBlankQuestion(p: Pattern, text: string, i: nat, ps: seq<(string, string)>)
    requires p != Legacy && AllWellFormed(p, ps) && Layout(text, i, ps)
    ensures Find(text, "\n\nQ:", i) == None
    decreases |ps|, 1
  {
    if |ps| == 0 {
      NoQuestionInWs(p, text, i);
    } else if |ps| == 1 {
      LastNoBlank(p, text, i, ps);
    } else {
      ConsNoBlank(p, text, i, ps);
    }
  }

  lemma LastNoBlank(p: Pattern, text: string, i: nat, ps: seq<(string, string)>)
    requires p != Legacy && AllWellFormed(p, ps) && Layout(text, i, ps) && |ps| == 1
    ensures Find(text, "\n\nQ:", i) == None
  {
    var q, a := ps[0].0, ps[0].1;
    assert WellFormed(p, ps[0]) && ps[0] == (q, a);
    EntryNoBlank(p, text, i, q, a);
    NoQuestionInWs(p, text, EntryEnd(i, q, a));
    FindSkip(text, "\n\nQ:", i, EntryEnd(i, q, a));
  }

  lemma {:induction false} ConsNoBlank(p: Pattern, text: string, i: nat, ps: seq<(string, string)>)
    requires p != Legacy && AllWellFormed(p, ps) && Layout(text, i, ps) && |ps| > 1
    ensures Find(text, "\n\nQ:", i) == None
    decreases |ps|, 0
  {
    var q, a := ps[0].0, ps[0].1;
    var e := EntryEnd(i, q, a);
    LayoutConsFacts(p, text, i, ps);
    EntryNoBlank(p, text, i, q, a);
    NotOccursAt(text, "\n\nQ:", e, 1);
    NoBlankQuestion(p, text, e + 1, ps[1..]);
    FindSkip(text, "\n\nQ:", i, e + 1);
  }

  /**
   * app.py's pattern as written reads a whole laid-out document as a single match: the
   * first question, and an answer that runs to the end of the text, swallowing every
   * later entry.
   */
  lemma AsWrittenLayout(text: string, ps: seq<(string, string)>)
    requires |ps| > 0 && AllWellFormed(AppAsWritten, ps) && Layout(text, 0, ps)
    ensures Matches(AppAsWritten, text, 0) == [Span(3, 3 + |ps[0].0|, 7 + |ps[0].0|, |text|)]
  {
    hide Matches, MatchAt, Layout, AllWellFormed;
    var q, a := ps[0].0, ps[0].1;
    AsWrittenFirst(text, ps);
    EntryMatch(AppAsWritten, text, 0, q, a);
    NoBlankQuestion(AppAsWritten, text, 0, ps);
    FindSkip(text, "\n\nQ:", 0, 7 + |q|);
    MatchesMatch(AppAsWritten, text, 0, Span(3, 3 + |q|, 7 + |q|, |text|));
    NoQuestionInWs(AppAsWritten, text, |text|);
  }

  lemma AsWrittenFirst(text: string, ps: seq<(string, string)>)
    requires |ps| > 0 && AllWellFormed(AppAsWritten, ps) && Layout(text, 0, ps)
    ensures WellFormed(AppAsWritten, (ps[0].0, ps[0].1)) && EntryAt(text, 0, ps[0].0, ps[0].1)
  {
    assert WellFormed(AppAsWritten, ps[0]) && ps[0] == (ps[0].0, ps[0].1);
  }
}
