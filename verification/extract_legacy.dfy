/**
 * The parse inside extract_qa.py's `extract_qa_from_pdf`: the page texts that are neither
 * missing nor empty joined with line feeds (line 7), the findall scan with the marker "A:"
 * (line 13) and a dict of stripped questions to stripped answers (line 18). Answers keep
 * their inner line feeds.
 */
module ExtractLegacy {
  import opened Wrappers
  import opened Text
  import opened QaScan
  import opened QaLayout
  import opened QaDict

  /** A page that `filter(None, ...)` keeps: its text is there and not empty. */
  predicate HasText(page: Option<string>) {
    page.Some? && page.value != ""
  }

  /** `filter(None, texts)`: the texts of the kept pages, in order. */
  function KeptPages(pages: seq<Option<string>>): (r: seq<string>)
    ensures |r| <= |pages|
    ensures forall k :: 0 <= k < |r| ==> r[k] != "" && Some(r[k]) in pages
    ensures forall k :: 0 <= k < |pages| && HasText(pages[k]) ==> pages[k].value in r
  {
    if |pages| == 0 then []
    else if HasText(pages[0]) then [pages[0].value] + KeptPages(pages[1..])
    else KeptPages(pages[1..])
  }

  /** Filtering a concatenation filters each part. */
  lemma {:induction false} KeptAppend(a: seq<Option<string>>, b: seq<Option<string>>)
    ensures KeptPages(a + b) == KeptPages(a) + KeptPages(b)
    decreases |a|
  {
    if |a| > 0 {
      assert (a + b)[0] == a[0] && (a + b)[1..] == a[1..] + b;
      KeptAppend(a[1..], b);
      if HasText(a[0]) {
        calc {
          KeptPages(a + b);
          [a[0].value] + KeptPages(a[1..] + b);
          [a[0].value] + (KeptPages(a[1..]) + KeptPages(b));
          ([a[0].value] + KeptPages(a[1..])) + KeptPages(b);
        }
      }
    } else {
      assert a + b == b;
    }
  }

  /** Line feeds only, n of them. */
  function LineFeeds(n: nat): (r: string)
    ensures |r| == n && forall k :: 0 <= k < n ==> r[k] == '\n'
  {
    if n == 0 then "" else "\n" + LineFeeds(n - 1)
  }

  /** Every character of every text, counted with multiplicity. */
  function Chars(xs: seq<string>): multiset<char> {
    if |xs| == 0 then multiset{} else multiset(xs[0]) + Chars(xs[1..])
  }

  /** `"\n".join(xs)` */
  function Join(xs: seq<string>): (t: string)
    ensures |xs| == 0 ==> t == ""
    ensures |xs| > 0 ==> multiset(t) == Chars(xs) + multiset(LineFeeds(|xs| - 1))
  {
    if |xs| == 0 then ""
    else if |xs| == 1 then xs[0]
    else
      var rest := Join(xs[1..]);
      JoinChars(xs, rest);
      xs[0] + "\n" + rest
  }

  /** Putting xs[0] and a line feed in front of the join of the rest adds the characters of xs[0] and one line feed. */
  lemma JoinChars(xs: seq<string>, rest: string)
    requires |xs| > 1 && multiset(rest) == Chars(xs[1..]) + multiset(LineFeeds(|xs| - 2))
    ensures multiset(xs[0] + "\n" + rest) == Chars(xs) + multiset(LineFeeds(|xs| - 1))
  {
    var n := |xs| - 2;
    assert LineFeeds(n + 1) == "\n" + LineFeeds(n);
    assert Chars(xs) == multiset(xs[0]) + Chars(xs[1..]);
    assert multiset(xs[0] + "\n" + rest) == multiset(xs[0]) + multiset("\n") + multiset(rest);
  }

  /** The text line 7 builds from the page texts. */
  function PagesText(pages: seq<Option<string>>): string {
    Join(KeptPages(pages))
  }

  /** A missing page or a page with empty text leaves the text unchanged, wherever it is. */
  lemma SkippedPage(pre: seq<Option<string>>, page: Option<string>, post: seq<Option<string>>)
    requires !HasText(page)
    ensures PagesText(pre + [page] + post) == PagesText(pre + post)
  {
    hide Join, KeptPages;
    KeptAppend(pre + [page], post);
    KeptAppend(pre, [page]);
    KeptAppend(pre, post);
    NoneKept([page]);
    assert KeptPages(pre + [page] + post) == KeptPages(pre + post);
  }

  /** Consecutive kept pages are separated by exactly one line feed. */
  lemma JoinedPages(x: string, y: string)
    requires x != "" && y != ""
    ensures PagesText([Some(x), Some(y)]) == x + "\n" + y
  {
    var pages := [Some(x), Some(y)];
    assert pages[1..] == [Some(y)] && [Some(y)][1..] == [];
    assert KeptPages([Some(y)]) == [y];
    assert KeptPages(pages) == [x, y];
    assert [x, y][1..] == [y];
    assert Join([x, y]) == x + "\n" + Join([y]);
  }

  /**
   * Joining two non-empty lists of texts puts exactly one line feed between their joins.
   * With `Join([x]) == x` this fixes where every page sits in the joined text.
   */
  lemma {:induction false} JoinAppend(a: seq<string>, b: seq<string>)
    requires |a| > 0 && |b| > 0
    ensures Join(a + b) == Join(a) + "\n" + Join(b)
    decreases |a|
  {
    hide Join;
    JoinCons(a + b);
    if |a| == 1 {
      SplitFirst(a, b);
      JoinOne(a[0]);
    } else {
      SplitFirst(a, b);
      JoinAppend(a[1..], b);
      JoinCons(a);
      LineFeedAssoc(a[0], Join(a[1..]), Join(b));
    }
  }

  /** The first text and the rest of a + b. */
  lemma SplitFirst(a: seq<string>, b: seq<string>)
    requires |a| > 0
    ensures (a + b)[0] == a[0] && (a + b)[1..] == a[1..] + b
    ensures |a| == 1 ==> a == [a[0]] && (a + b)[1..] == b
  {
  }

  lemma LineFeedAssoc(x: string, r: string, t: string)
    ensures x + "\n" + (r + "\n" + t) == (x + "\n" + r) + "\n" + t
  {
  }

  lemma JoinOne(x: string)
    ensures Join([x]) == x
  {
  }

  lemma JoinCons(xs: seq<string>)
    requires |xs| > 1
    ensures Join(xs) == xs[0] + "\n" + Join(xs[1..])
  {
  }

  /** `(q.strip(), a.strip())` for every pair, in order. */
  function StripAll(pairs: seq<(string, string)>): (r: seq<(string, string)>)
    ensures |r| == |pairs|
    ensures forall k :: 0 <= k < |pairs| ==> r[k] == (Strip(pairs[k].0), Strip(pairs[k].1))
  {
    if |pairs| == 0 then [] else [(Strip(pairs[0].0), Strip(pairs[0].1))] + StripAll(pairs[1..])
  }

  /** Lines 13 and 18 on a given text. */
  function LegacyDict(text: string): map<string, string> {
    BuildMap(StripAll(FindAll(Legacy, text, 0)))
  }

  /** `extract_qa_from_pdf` on the page texts its reader returns. */
  function ExtractQaFromPages(pages: seq<Option<string>>): map<string, string> {
    LegacyDict(PagesText(pages))
  }

  /** Keys and values are stripped, and no key contains "A:". */
  lemma LegacyClean(text: string)
    ensures forall q | q in LegacyDict(text) :: IsStripped(q) && IsStripped(LegacyDict(text)[q]) && !Contains(q, "A:")
  {
    hide BuildMap, FindAll, Strip;
    var found := FindAll(Legacy, text, 0);
    var pairs := StripAll(found);
    FindAllGroups(Legacy, text, 0);
    forall q | q in BuildMap(pairs) ensures IsStripped(q) && IsStripped(BuildMap(pairs)[q]) && !Contains(q, "A:") {
      FromLast(pairs, q);
      var j :| LastOf(pairs, j) && pairs[j] == (q, BuildMap(pairs)[q]);
      StripKeepsOut(found[j].0, "A:");
    }
  }

  /** A later match with the same stripped question overrides an earlier one. */
  lemma LegacyLastWins(text: string, k: nat)
    requires k < |FindAll(Legacy, text, 0)|
    requires forall i :: k < i < |FindAll(Legacy, text, 0)| ==> Strip(FindAll(Legacy, text, 0)[i].0) != Strip(FindAll(Legacy, text, 0)[k].0)
    ensures Strip(FindAll(Legacy, text, 0)[k].0) in LegacyDict(text)
    ensures LegacyDict(text)[Strip(FindAll(Legacy, text, 0)[k].0)] == Strip(FindAll(Legacy, text, 0)[k].1)
  {
    var pairs := StripAll(FindAll(Legacy, text, 0));
    forall i | k < i < |pairs| ensures pairs[i].0 != pairs[k].0 {
    }
    LastWins(pairs, k);
  }

  /** There are never more entries than matches. */
  lemma LegacySize(text: string)
    ensures |LegacyDict(text)| <= |FindAll(Legacy, text, 0)|
  {
    MapSize(StripAll(FindAll(Legacy, text, 0)));
  }

  /** Without any "A:" nothing matches and the dict is empty. */
  lemma LegacyNoAnswer(text: string)
    requires !Contains(text, "A:")
    ensures LegacyDict(text) == map[]
  {
    NoMarkerNoPairs(Legacy, text, 0);
  }

  /** Without any "Q:" the dict is empty too. */
  lemma LegacyNoQuestion(text: string)
    requires !Contains(text, "Q:")
    ensures LegacyDict(text) == map[]
  {
    NoQuestionNoPairs(Legacy, text, 0);
  }

  /** No page text at all: the joined text is empty and so is the dict. */
  lemma NoPages(pages: seq<Option<string>>)
    requires forall k :: 0 <= k < |pages| ==> !HasText(pages[k])
    ensures PagesText(pages) == "" && ExtractQaFromPages(pages) == map[]
  {
    NoneKept(pages);
    NoQuestionNoPairs(Legacy, "", 0);
  }

  lemma {:induction false} NoneKept(pages: seq<Option<string>>)
    requires forall k :: 0 <= k < |pages| ==> !HasText(pages[k])
    ensures KeptPages(pages) == []
    decreases |pages|
  {
    if |pages| > 0 {
      forall k | 0 <= k < |pages| - 1 ensures !HasText(pages[1..][k]) {
        assert pages[1..][k] == pages[k + 1];
      }
      NoneKept(pages[1..]);
    }
  }

  /**
   * Round trip: pairs with non-empty stripped questions free of "A:" and non-empty
   * stripped answers free of "\nQ:", written "Q: <q>\nA: <a>" one after the other and
   * followed by any whitespace, come back as the dict of those pairs, inner line feeds
   * of the answers included.
   */
  lemma LegacyRoundTrip(ps: seq<(string, string)>, tail: string)
    requires AllWellFormed(Legacy, ps) && AllWs(tail)
    ensures LegacyDict(Render(ps) + tail) == BuildMap(ps)
  {
    hide Render, FindAll, BuildMap, Layout, AllWellFormed;
    RenderLayout(ps, tail);
    StripLayout(Render(ps) + tail, ps);
  }

  /** The stripped matches of a laid-out document are the pairs it was laid out from. */
  lemma StripLayout(text: string, ps: seq<(string, string)>)
    requires AllWellFormed(Legacy, ps) && Layout(text, 0, ps)
    ensures StripAll(FindAll(Legacy, text, 0)) == ps
  {
    hide FindAll, Layout, Strip, Contains;
    var found := FindAll(Legacy, text, 0);
    FindAllLayout(Legacy, text, 0, ps);
    forall k | 0 <= k < |ps| ensures StripAll(found)[k] == ps[k] {
      assert WellFormed(Legacy, ps[k]);
    }
  }

  /** An answer over two lines keeps its line feed: "Q: What?\nA: one\ntwo" gives {"What?": "one\ntwo"}. */
  lemma TwoLineAnswer()
    ensures LegacyDict("Q: What?\nA: one\ntwo") == map["What?" := "one\ntwo"]
  {
    hide Render, FindAll, LegacyDict;
    var ps := [("What?", "one\ntwo")];
    TwoLineDocument();
    LegacyRoundTrip(ps, "");
  }

  /** The document of TwoLineAnswer, and why its pair is read back. */
  lemma TwoLineDocument()
    ensures Render([("What?", "one\ntwo")]) + "" == "Q: What?\nA: one\ntwo"
    ensures AllWellFormed(Legacy, [("What?", "one\ntwo")]) && AllWs("")
  {
    var a := "one\ntwo";
    forall j: nat | j <= |a| ensures !OccursAt(a, "\nQ:", j) {
      if j != 3 { NotOccursAt(a, "\nQ:", j, 0); } else { NotOccursAt(a, "\nQ:", j, 1); }
    }
    var q := "What?";
    forall j: nat | j <= |q| ensures !OccursAt(q, "A:", j) {
      NotOccursAt(q, "A:", j, 1);
    }
    assert WellFormed(Legacy, ("What?", "one\ntwo"));
  }

  /** The marker needs no line feed before it: "Q: Why? A: Because." gives {"Why?": "Because."}. */
  lemma SameLineMarker()
    ensures LegacyDict("Q: Why? A: Because.") == map["Why?" := "Because."]
  {
    hide Matches, MatchAt, Strip;
    var text := "Q: Why? A: Because.";
    SameLineMatches();
    assert FindAll(Legacy, text, 0) == [(text[3..7], text[11..19])];
    assert text[3..7] == "Why?" && text[11..19] == "Because.";
    assert IsStripped("Why?") && IsStripped("Because.");
  }

  /** The scan of "Q: Why? A: Because." finds one match: question [3, 7), answer [11, 19). */
  lemma SameLineMatches()
    ensures Matches(Legacy, "Q: Why? A: Because.", 0) == [Span(3, 7, 11, 19)]
  {
    hide QuestionGroup, AnswerEnd, SkipWs, BackWs, Find;
    var text := "Q: Why? A: Because.";
    SameLineGroup();
    SameLineAnswerEnd();
    MatchOfGroup(Legacy, text, 0, Group(3, 7, 8), 11);
    MatchesMatch(Legacy, text, 0, Span(3, 7, 11, 19));
  }

  /** Its question group, and where its answer starts. */
  lemma SameLineGroup()
    ensures OccursAt("Q: Why? A: Because.", "Q:", 0)
    ensures QuestionGroup(Legacy, "Q: Why? A: Because.", 2) == Some(Group(3, 7, 8))
    ensures SkipWs("Q: Why? A: Because.", 10) == 11
  {
    hide SkipWs, BackWs, Find;
    SameLineSkips();
    SameLineMarkerAt();
    BackWsTo("Q: Why? A: Because.", 3, 8, 7);
  }

  lemma SameLineSkips()
    ensures SkipWs("Q: Why? A: Because.", 2) == 3 && SkipWs("Q: Why? A: Because.", 10) == 11
  {
    SkipWsTo("Q: Why? A: Because.", 2, 3);
    SkipWsTo("Q: Why? A: Because.", 10, 11);
  }

  lemma SameLineMarkerAt()
    ensures Find("Q: Why? A: Because.", "A:", 3) == Some(8)
  {
    hide Find;
    var text := "Q: Why? A: Because.";
    forall j: nat | 3 <= j < 8 ensures !OccursAt(text, "A:", j) {
      NotOccursAt(text, "A:", j, 0);
    }
    FindFirst(text, "A:", 3, 8);
  }

  /** Its answer runs to the end: the text holds no "\nQ:". */
  lemma SameLineAnswerEnd()
    ensures AnswerEnd(Legacy, "Q: Why? A: Because.", 11) == 19
  {
    var text := "Q: Why? A: Because.";
    forall j: nat | 11 <= j ensures !OccursAt(text, "\nQ:", j) {
      if j < 19 {
        NotOccursAt(text, "\nQ:", j, 0);
      }
    }
  }
}
