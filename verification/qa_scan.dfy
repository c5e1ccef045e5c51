/**
 * `re.findall` with the DOTALL flag for the two question/answer patterns of the
 * repository, written out as an explicit scanner over the characters of the text.
 *
 * Both patterns read "Q:", skip whitespace, take the question lazily up to an answer
 * marker (optionally preceded by whitespace), skip whitespace after the marker and take
 * the answer lazily up to a stopping point that is not consumed:
 *   - app.py:23 uses the marker "\nA:" and lets the answer grow by "anything, then an
 *     optional line feed" steps before looking for "\nQ:" or the end of the text;
 *   - extract_qa.py:13 uses the marker "A:" and stops the answer at "\nQ:" or the end.
 * The scan tries every start position left to right; after a match it resumes where the
 * match ended (the stopping point), after a failed attempt at the next position.
 */
module QaScan {
  import opened Wrappers
  import opened Text

  datatype Pattern =
    | AppAsWritten  // app.py's pattern as written
    | App           // app.py's pattern with the answer ending at the next "\nQ:"
    | Legacy        // extract_qa.py's pattern

  /** The text that separates a question from its answer. */
  function AnswerMarker(p: Pattern): (m: string)
    ensures |m| >= 2 && m[|m| - 2] == 'A'
  {
    if p == Legacy then "A:" else "\nA:"
  }

  /** One match: the question group is text[qStart..qEnd], the answer group text[aStart..aEnd]. */
  datatype Span = Span(qStart: nat, qEnd: nat, aStart: nat, aEnd: nat)

  /** The question group text[qStart..qEnd] of a match, and the index where its answer marker starts. */
  datatype Group = Group(qStart: nat, qEnd: nat, marker: nat)

  /**
   * The question group of a match whose "Q:" ends at a, and where its answer marker starts.
   * A leading greedy whitespace run is skipped; the lazy question then stops at the first
   * marker found after it, minus the whitespace just before the marker. When no marker
   * follows, the leading whitespace gives back its last character, which lets a marker
   * whose line feed was swallowed by it match with an empty question.
   */
  function QuestionGroup(p: Pattern, text: string, a: nat): (g: Option<Group>)
    requires a <= |text|
    ensures g.Some? ==> a <= g.value.qStart <= g.value.qEnd <= g.value.marker && OccursAt(text, AnswerMarker(p), g.value.marker)
    ensures g.Some? ==> forall j: nat :: g.value.qStart <= j < g.value.marker ==> !OccursAt(text, AnswerMarker(p), j)
    ensures g.None? <==> forall j: nat :: a <= j ==> !OccursAt(text, AnswerMarker(p), j)
  {
    var marker := AnswerMarker(p);
    var p0 := SkipWs(text, a);
    match Find(text, marker, p0)
    case Some(m) => Some(Group(p0, BackWs(text, p0, m), m))
    case None =>
      MarkerNotInWs(p, text, a, p0);
      if a < p0 && OccursAt(text, marker, p0 - 1) then Some(Group(p0 - 1, p0 - 1, p0 - 1)) else None
  }

  /**
   * What the question group is: the text from a to its marker, stripped, with only whitespace
   * around it. Its marker is the first one after the whitespace that follows a; only when no
   * marker lies there is it the one whose line feed that whitespace ends with.
   */
  lemma QuestionText(p: Pattern, text: string, a: nat)
    requires a <= |text| && QuestionGroup(p, text, a).Some?
    ensures var g := QuestionGroup(p, text, a).value;
      && AllWs(text[a..g.qStart]) && AllWs(text[g.qEnd..g.marker])
      && text[g.qStart..g.qEnd] == Strip(text[a..g.marker])
      && (forall j: nat :: SkipWs(text, a) <= j < g.marker ==> !OccursAt(text, AnswerMarker(p), j))
      && (g.marker < SkipWs(text, a) ==> forall j: nat :: g.marker < j ==> !OccursAt(text, AnswerMarker(p), j))
  {
    hide Strip, Find, SkipWs, BackWs, AllWs;
    var p0 := SkipWs(text, a);
    var g := QuestionGroup(p, text, a).value;
    match Find(text, AnswerMarker(p), p0)
    case Some(m) =>
      assert g == Group(p0, BackWs(text, p0, m), m);
      GroupShape(text, a, p0, BackWs(text, p0, m), m);
    case None =>
      MarkerNotInWs(p, text, a, p0);
      assert g == Group(p0 - 1, p0 - 1, p0 - 1);
      GroupShape(text, a, p0 - 1, p0 - 1, p0 - 1);
  }

  /** A question group is the text up to its marker, stripped: only whitespace lies around it. */
  lemma GroupShape(text: string, a: nat, s: nat, e: nat, m: nat)
    requires a <= s <= e <= m <= |text|
    requires forall k :: a <= k < s ==> WsAt(text, k)
    requires forall k :: e <= k < m ==> WsAt(text, k)
    requires s < e ==> !IsWs(text[s]) && !IsWs(text[e - 1])
    ensures AllWs(text[a..s]) && AllWs(text[e..m])
    ensures text[s..e] == Strip(text[a..m])
  {
    var pre, x, post := text[a..s], text[s..e], text[e..m];
    assert AllWs(pre) by { forall k | 0 <= k < |pre| ensures IsWs(pre[k]) { assert WsAt(text, a + k); } }
    assert AllWs(post) by { forall k | 0 <= k < |post| ensures IsWs(post[k]) { assert WsAt(text, e + k); } }
    assert IsStripped(x) by { if s < e { assert x[0] == text[s] && x[|x| - 1] == text[e - 1]; } }
    assert text[a..m] == pre + x + post;
    StripPadded(pre, x, post);
  }

  /** An answer marker holds an 'A', so none starts inside a whitespace run, short of its last character. */
  lemma MarkerNotInWs(p: Pattern, text: string, a: nat, p0: nat)
    requires a <= p0 <= |text|
    requires forall k :: a <= k < p0 ==> WsAt(text, k)
    ensures forall j: nat :: a <= j < p0 - 1 ==> !OccursAt(text, AnswerMarker(p), j)
  {
    var marker := AnswerMarker(p);
    forall j: nat | a <= j < p0 - 1 ensures !OccursAt(text, marker, j) {
      var k := j + |marker| - 2;
      assert a <= k < p0 && WsAt(text, k);
    }
  }

  /**
   * Where the answer group that starts at s stops. app.py as written can only stop right
   * after a line feed that is followed by "\nQ:" (its optional line feed step eats the line
   * feed of a single "\nQ:"), or at the end; the corrected app.py and extract_qa.py stop at
   * the first "\nQ:" or at the end.
   */
  function AnswerEnd(p: Pattern, text: string, s: nat): (e: nat)
    requires s <= |text|
    ensures s <= e <= |text|
    ensures p != AppAsWritten ==> e == |text| || OccursAt(text, "\nQ:", e)
    ensures p != AppAsWritten ==> forall j: nat :: s <= j < e ==> !OccursAt(text, "\nQ:", j)
    ensures p == AppAsWritten ==> e == |text| || (s < e && OccursAt(text, "\n\nQ:", e - 1))
    ensures p == AppAsWritten ==> forall j: nat :: s <= j < e - 1 ==> !OccursAt(text, "\n\nQ:", j)
  {
    if p == AppAsWritten then
      match Find(text, "\n\nQ:", s)
      case Some(j) => j + 1
      case None => |text|
    else
      match Find(text, "\nQ:", s)
      case Some(j) => j
      case None => |text|
  }

  /** The match whose question group is g: the answer starts after the whitespace that follows the marker. */
  function AnswerSpan(p: Pattern, text: string, g: Group): (sp: Span)
    requires g.qStart <= g.qEnd <= g.marker && g.marker + |AnswerMarker(p)| <= |text|
    ensures sp.qStart == g.qStart && sp.qEnd == g.qEnd
    ensures g.marker + |AnswerMarker(p)| <= sp.aStart <= sp.aEnd <= |text|
  {
    var s := SkipWs(text, g.marker + |AnswerMarker(p)|);
    Span(g.qStart, g.qEnd, s, AnswerEnd(p, text, s))
  }

  /** The match that starts with the "Q:" at i, if there is one. */
  function MatchAt(p: Pattern, text: string, i: nat): (r: Option<Span>)
    requires OccursAt(text, "Q:", i)
    ensures r.Some? ==> i + 2 <= r.value.qStart <= r.value.qEnd <= r.value.aStart <= r.value.aEnd <= |text|
  {
    var g := QuestionGroup(p, text, i + 2);
    if g.None? then None else Some(AnswerSpan(p, text, g.value))
  }

  /** A match is read off its question group. */
  lemma MatchOfGroup(p: Pattern, text: string, i: nat, g: Group, s: nat)
    requires OccursAt(text, "Q:", i) && QuestionGroup(p, text, i + 2) == Some(g)
    requires g.marker + |AnswerMarker(p)| <= |text| && SkipWs(text, g.marker + |AnswerMarker(p)|) == s
    ensures MatchAt(p, text, i) == Some(Span(g.qStart, g.qEnd, s, AnswerEnd(p, text, s)))
  {
    hide QuestionGroup, AnswerEnd, SkipWs;
  }

  /**
   * A match exists exactly when an answer marker follows the "Q:"; its question group holds
   * no answer marker, and (except in app.py as written) its answer group holds no "\nQ:".
   */
  lemma MatchAtGroups(p: Pattern, text: string, i: nat)
    requires OccursAt(text, "Q:", i)
    ensures MatchAt(p, text, i).None? <==> forall j: nat :: i + 2 <= j ==> !OccursAt(text, AnswerMarker(p), j)
    ensures MatchAt(p, text, i).Some? ==>
      var sp := MatchAt(p, text, i).value;
      && !Contains(text[sp.qStart..sp.qEnd], AnswerMarker(p))
      && (p != AppAsWritten ==> !Contains(text[sp.aStart..sp.aEnd], "\nQ:"))
  {
    var g := QuestionGroup(p, text, i + 2);
    if g.Some? {
      var sp := AnswerSpan(p, text, g.value);
      NoneInRange(text, sp.qStart, sp.qEnd, AnswerMarker(p));
      if p != AppAsWritten {
        NoneInRange(text, sp.aStart, sp.aEnd, "\nQ:");
      }
    }
  }

  /** The spans lie inside the text, each group before the next. */
  predicate SpansIn(text: string, ms: seq<Span>) {
    forall k :: 0 <= k < |ms| ==> ms[k].qStart <= ms[k].qEnd <= ms[k].aStart <= ms[k].aEnd <= |text|
  }

  /** The spans of the successive matches of the scan started at i. */
  function Matches(p: Pattern, text: string, i: nat): (r: seq<Span>)
    requires i <= |text|
    ensures |r| <= |text| - i
    decreases |text| - i
  {
    if |text| < i + 2 then []
    else if !OccursAt(text, "Q:", i) then Matches(p, text, i + 1)
    else
      match MatchAt(p, text, i)
      case None => Matches(p, text, i + 1)
      case Some(sp) => [sp] + Matches(p, text, sp.aEnd)
  }

  /** The (question, answer) groups that the spans delimit. */
  function Groups(text: string, ms: seq<Span>): (r: seq<(string, string)>)
    requires SpansIn(text, ms)
    ensures |r| == |ms|
    ensures forall k :: 0 <= k < |ms| ==> r[k] == (text[ms[k].qStart..ms[k].qEnd], text[ms[k].aStart..ms[k].aEnd])
  {
    if |ms| == 0 then []
    else [(text[ms[0].qStart..ms[0].qEnd], text[ms[0].aStart..ms[0].aEnd])] + Groups(text, ms[1..])
  }

  /** `re.findall(pattern, text[i:], re.DOTALL)`: the raw (question, answer) groups, in order. */
  function FindAll(p: Pattern, text: string, i: nat): (r: seq<(string, string)>)
    requires i <= |text|
    ensures |r| <= |text| - i
  {
    MatchesGroups(p, text, i);
    Groups(text, Matches(p, text, i))
  }

  /** No question group of ms holds an answer marker; except in app.py as written, no answer group holds "\nQ:". */
  predicate Clean(p: Pattern, text: string, ms: seq<Span>)
    requires SpansIn(text, ms)
  {
    forall k :: 0 <= k < |ms| ==>
      && !Contains(text[ms[k].qStart..ms[k].qEnd], AnswerMarker(p))
      && (p != AppAsWritten ==> !Contains(text[ms[k].aStart..ms[k].aEnd], "\nQ:"))
  }

  lemma CleanCons(p: Pattern, text: string, sp: Span, ms: seq<Span>)
    requires sp.qStart <= sp.qEnd <= sp.aStart <= sp.aEnd <= |text| && SpansIn(text, ms) && Clean(p, text, ms)
    requires !Contains(text[sp.qStart..sp.qEnd], AnswerMarker(p))
    requires p != AppAsWritten ==> !Contains(text[sp.aStart..sp.aEnd], "\nQ:")
    ensures SpansIn(text, [sp] + ms) && Clean(p, text, [sp] + ms)
  {
    assert forall k :: 0 < k < |ms| + 1 ==> ([sp] + ms)[k] == ms[k - 1];
  }

  /** Every match of the scan is clean: the question/answer split is where the pattern says. */
  lemma {:induction false} MatchesGroups(p: Pattern, text: string, i: nat)
    requires i <= |text|
    ensures SpansIn(text, Matches(p, text, i)) && Clean(p, text, Matches(p, text, i))
    decreases |text| - i, 1
  {
    if |text| < i + 2 {
    } else if !OccursAt(text, "Q:", i) || MatchAt(p, text, i).None? {
      GroupsPass(p, text, i);
    } else {
      GroupsMatch(p, text, i);
    }
  }

  lemma {:induction false} GroupsPass(p: Pattern, text: string, i: nat)
    requires i < |text| && (!OccursAt(text, "Q:", i) || MatchAt(p, text, i).None?)
    ensures SpansIn(text, Matches(p, text, i)) && Clean(p, text, Matches(p, text, i))
    decreases |text| - i, 0
  {
    MatchesPass(p, text, i);
    MatchesGroups(p, text, i + 1);
  }

  lemma {:induction false} GroupsMatch(p: Pattern, text: string, i: nat)
    requires OccursAt(text, "Q:", i) && MatchAt(p, text, i).Some?
    ensures SpansIn(text, Matches(p, text, i)) && Clean(p, text, Matches(p, text, i))
    decreases |text| - i, 0
  {
    var sp := MatchAt(p, text, i).value;
    MatchAtGroups(p, text, i);
    MatchesMatch(p, text, i, sp);
    MatchesGroups(p, text, sp.aEnd);
    CleanCons(p, text, sp, Matches(p, text, sp.aEnd));
  }

  /** No question group holds an answer marker; except in app.py as written, no answer group holds "\nQ:". */
  lemma FindAllGroups(p: Pattern, text: string, i: nat)
    requires i <= |text|
    ensures forall k :: 0 <= k < |FindAll(p, text, i)| ==> !Contains(FindAll(p, text, i)[k].0, AnswerMarker(p))
    ensures p != AppAsWritten ==> forall k :: 0 <= k < |FindAll(p, text, i)| ==> !Contains(FindAll(p, text, i)[k].1, "\nQ:")
  {
    MatchesGroups(p, text, i);
    var ms := Matches(p, text, i);
    assert forall k :: 0 <= k < |ms| ==> FindAll(p, text, i)[k] == (text[ms[k].qStart..ms[k].qEnd], text[ms[k].aStart..ms[k].aEnd]);
  }

  /** A match at i contributes its span, and the scan resumes where its answer ends. */
  lemma MatchesMatch(p: Pattern, text: string, i: nat, sp: Span)
    requires OccursAt(text, "Q:", i) && MatchAt(p, text, i) == Some(sp)
    ensures Matches(p, text, i) == [sp] + Matches(p, text, sp.aEnd)
  {
  }

  /** A position that does not start "Q:", or starts one that does not match, is passed over. */
  lemma MatchesPass(p: Pattern, text: string, i: nat)
    requires i < |text| && (!OccursAt(text, "Q:", i) || MatchAt(p, text, i).None?)
    ensures Matches(p, text, i) == Matches(p, text, i + 1)
  {
  }

  /** The corrected app.py pattern and extract_qa.py's stop an answer at a "\nQ:" right where it starts. */
  lemma AnswerEndAt(p: Pattern, text: string, s: nat)
    requires p != AppAsWritten && OccursAt(text, "\nQ:", s)
    ensures AnswerEnd(p, text, s) == s
  {
  }

  /** Without a "Q:" from i on, nothing matches. */
  lemma {:induction false} NoQuestionNoPairs(p: Pattern, text: string, i: nat)
    requires i <= |text|
    requires forall j: nat :: i <= j ==> !OccursAt(text, "Q:", j)
    ensures Matches(p, text, i) == [] && FindAll(p, text, i) == []
    decreases |text| - i
  {
    if i + 2 <= |text| {
      NoQuestionNoPairs(p, text, i + 1);
    }
  }

  /** Without an answer marker from i on, nothing matches, whatever "Q:" the text holds. */
  lemma {:induction false} NoMarkerNoPairs(p: Pattern, text: string, i: nat)
    requires i <= |text|
    requires forall j: nat :: i <= j ==> !OccursAt(text, AnswerMarker(p), j)
    ensures Matches(p, text, i) == [] && FindAll(p, text, i) == []
    decreases |text| - i
  {
    if i + 2 <= |text| {
      NoMarkerNoPairs(p, text, i + 1);
    }
  }

  /**
   * The answer marker at m is the one the question of the "Q:" at j runs up to: the first
   * marker after the whitespace that follows "Q:", or, when there is none, the marker whose
   * line feed ends that whitespace.
   */
  predicate FirstMarker(p: Pattern, text: string, j: nat, m: nat) {
    && j + 2 <= m && OccursAt(text, AnswerMarker(p), m)
    && (forall x: nat :: SkipWs(text, j + 2) <= x < m ==> !OccursAt(text, AnswerMarker(p), x))
    && (m < SkipWs(text, j + 2) ==> forall x: nat :: m < x <= |text| ==> !OccursAt(text, AnswerMarker(p), x))
  }

  /** The answer group of a match whose marker starts at m: after the whitespace that follows the marker, up to the stopping point. */
  function AnswerText(p: Pattern, text: string, m: nat): string
    requires m + |AnswerMarker(p)| <= |text|
  {
    var s := SkipWs(text, m + |AnswerMarker(p)|);
    text[s..AnswerEnd(p, text, s)]
  }

  /** The (question, answer) groups the "Q:" at j captures with its marker at m. */
  predicate Captures(p: Pattern, text: string, j: nat, m: nat, pr: (string, string)) {
    FirstMarker(p, text, j, m) && pr == (Strip(text[j + 2..m]), AnswerText(p, text, m))
  }

  /** The parts of Captures, with the bounds its slices rest on. */
  lemma CapturesParts(p: Pattern, text: string, j: nat, m: nat, pr: (string, string))
    requires Captures(p, text, j, m, pr)
    ensures j + 2 <= m && m + |AnswerMarker(p)| <= |text| && FirstMarker(p, text, j, m)
    ensures pr.0 == Strip(text[j + 2..m]) && pr.1 == AnswerText(p, text, m)
  {
  }

  /** The groups of the match at a "Q:": the question is the stripped text up to its marker. */
  lemma MatchAtCaptures(p: Pattern, text: string, j: nat)
    requires OccursAt(text, "Q:", j) && MatchAt(p, text, j).Some?
    ensures var sp := MatchAt(p, text, j).value;
      exists m: nat :: Captures(p, text, j, m, (text[sp.qStart..sp.qEnd], text[sp.aStart..sp.aEnd]))
  {
    hide Strip, SkipWs, AnswerEnd, Find, BackWs, Captures, AnswerText;
    var g := QuestionGroup(p, text, j + 2).value;
    GroupCaptures(p, text, j, g);
    var s := SkipWs(text, g.marker + |AnswerMarker(p)|);
    MatchOfGroup(p, text, j, g, s);
    AnswerTextAt(p, text, g.marker, s);
  }

  lemma AnswerTextAt(p: Pattern, text: string, m: nat, s: nat)
    requires m + |AnswerMarker(p)| <= |text| && s == SkipWs(text, m + |AnswerMarker(p)|)
    ensures AnswerText(p, text, m) == text[s..AnswerEnd(p, text, s)]
  {
  }

  /** What the "Q:" at j captures, read off its question group. */
  lemma GroupCaptures(p: Pattern, text: string, j: nat, g: Group)
    requires OccursAt(text, "Q:", j) && QuestionGroup(p, text, j + 2) == Some(g)
    ensures g.marker + |AnswerMarker(p)| <= |text|
    ensures Captures(p, text, j, g.marker, (text[g.qStart..g.qEnd], AnswerText(p, text, g.marker)))
  {
    hide Strip, SkipWs, AnswerEnd, Find, BackWs, AnswerText;
    QuestionText(p, text, j + 2);
    hide QuestionGroup;
    assert FirstMarker(p, text, j, g.marker);
  }

  /** The match sp is the one of the first "Q:" at or after lo that has a match, and it sits at j. */
  predicate Leftmost(p: Pattern, text: string, lo: nat, j: nat, sp: Span) {
    && lo <= j && OccursAt(text, "Q:", j) && MatchAt(p, text, j) == Some(sp)
    && forall x: nat :: lo <= x < j && OccursAt(text, "Q:", x) ==> MatchAt(p, text, x).None?
  }

  /** Where the scan looks for the k-th match: the start, or where the previous answer stopped. */
  function Resume(ms: seq<Span>, i: nat, k: nat): nat
    requires k <= |ms|
  {
    if k == 0 then i else ms[k - 1].aEnd
  }

  /**
   * `re.findall` misses nothing: from where the last answer stopped (or from the start, when
   * there is no match) no "Q:" starts a match.
   */
  lemma {:induction false} MatchesExhaustive(p: Pattern, text: string, i: nat)
    requires i <= |text|
    ensures forall j: nat :: Resume(Matches(p, text, i), i, |Matches(p, text, i)|) <= j && OccursAt(text, "Q:", j) ==> MatchAt(p, text, j).None?
    decreases |text| - i
  {
    hide QuestionGroup, AnswerSpan, AnswerEnd, SkipWs, Find, MatchAt;
    var ms := Matches(p, text, i);
    if |text| < i + 2 {
      assert ms == [] && Resume(ms, i, 0) == i;
    } else if !OccursAt(text, "Q:", i) || MatchAt(p, text, i).None? {
      hide Matches;
      MatchesPass(p, text, i);
      MatchesExhaustive(p, text, i + 1);
      var rest := Matches(p, text, i + 1);
      assert ms == rest;
      if |rest| == 0 {
        assert Resume(ms, i, 0) == i && Resume(rest, i + 1, 0) == i + 1;
      } else {
        assert Resume(ms, i, |ms|) == Resume(rest, i + 1, |rest|);
      }
    } else {
      hide Matches;
      var sp := MatchAt(p, text, i).value;
      MatchesMatch(p, text, i, sp);
      MatchesExhaustive(p, text, sp.aEnd);
      var rest := Matches(p, text, sp.aEnd);
      assert ms == [sp] + rest;
      if |rest| == 0 {
        assert Resume(ms, i, |ms|) == sp.aEnd && Resume(rest, sp.aEnd, 0) == sp.aEnd;
      } else {
        assert ms[|ms| - 1] == rest[|rest| - 1];
        assert Resume(ms, i, |ms|) == Resume(rest, sp.aEnd, |rest|);
      }
    }
  }

  /**
   * `re.findall` takes matches left to right: the first match is the one of the first "Q:"
   * from the start that has a match, and each later one that of the first such "Q:" from
   * where the previous answer stopped.
   */
  lemma {:induction false} MatchesLeftmost(p: Pattern, text: string, i: nat, k: nat)
    requires i <= |text| && k < |Matches(p, text, i)|
    ensures exists j: nat :: i <= j && Leftmost(p, text, Resume(Matches(p, text, i), i, k), j, Matches(p, text, i)[k])
    decreases |text| - i
  {
    hide QuestionGroup, AnswerSpan, AnswerEnd, SkipWs, Find, Leftmost;
    var ms := Matches(p, text, i);
    if !OccursAt(text, "Q:", i) || MatchAt(p, text, i).None? {
      MatchesPass(p, text, i);
      MatchesLeftmost(p, text, i + 1, k);
      var j: nat :| i + 1 <= j && Leftmost(p, text, Resume(ms, i + 1, k), j, ms[k]);
      if k == 0 {
        assert Resume(ms, i + 1, k) == i + 1 && Resume(ms, i, k) == i;
        LeftmostBack(p, text, i, j, ms[k]);
        assert i <= j && Leftmost(p, text, Resume(ms, i, k), j, ms[k]);
      } else {
        assert Resume(ms, i + 1, k) == Resume(ms, i, k);
      }
    } else {
      var sp := MatchAt(p, text, i).value;
      MatchesMatch(p, text, i, sp);
      if k == 0 {
        LeftmostHere(p, text, i, sp);
        assert ms[k] == sp && Resume(ms, i, k) == i;
      } else {
        var rest := Matches(p, text, sp.aEnd);
        MatchesLeftmost(p, text, sp.aEnd, k - 1);
        assert ms[k] == rest[k - 1];
        assert Resume(ms, i, k) == Resume(rest, sp.aEnd, k - 1);
        var j: nat :| sp.aEnd <= j && Leftmost(p, text, Resume(rest, sp.aEnd, k - 1), j, rest[k - 1]);
      }
    }
  }

  lemma LeftmostBack(p: Pattern, text: string, lo: nat, j: nat, sp: Span)
    requires Leftmost(p, text, lo + 1, j, sp)
    requires !OccursAt(text, "Q:", lo) || MatchAt(p, text, lo).None?
    ensures Leftmost(p, text, lo, j, sp)
  {
    hide MatchAt;
  }

  lemma LeftmostHere(p: Pattern, text: string, i: nat, sp: Span)
    requires OccursAt(text, "Q:", i) && MatchAt(p, text, i) == Some(sp)
    ensures Leftmost(p, text, i, i, sp)
  {
    hide MatchAt;
  }

  /** Matches do not overlap: each question starts past "Q:" after the previous answer stopped. */
  lemma MatchesOrdered(p: Pattern, text: string, i: nat, k: nat)
    requires i <= |text| && k + 1 < |Matches(p, text, i)|
    ensures Matches(p, text, i)[k].aEnd + 2 <= Matches(p, text, i)[k + 1].qStart
  {
    hide Matches;
    MatchesLeftmost(p, text, i, k + 1);
  }

  /**
   * Each pair `re.findall` returns is what some "Q:" from the start position captures: the
   * stripped text up to its first marker, and the answer after that marker.
   */
  lemma FindAllReads(p: Pattern, text: string, i: nat, k: nat)
    requires i <= |text| && k < |FindAll(p, text, i)|
    ensures exists j: nat, m: nat :: i <= j && OccursAt(text, "Q:", j) && Captures(p, text, j, m, FindAll(p, text, i)[k])
  {
    hide Captures;
    MatchesGroups(p, text, i);
    var ms := Matches(p, text, i);
    MatchesLeftmost(p, text, i, k);
    var j: nat :| i <= j && Leftmost(p, text, Resume(ms, i, k), j, ms[k]);
    MatchAtCaptures(p, text, j);
    var m: nat :| Captures(p, text, j, m, (text[ms[k].qStart..ms[k].qEnd], text[ms[k].aStart..ms[k].aEnd]));
    assert FindAll(p, text, i)[k] == (text[ms[k].qStart..ms[k].qEnd], text[ms[k].aStart..ms[k].aEnd]);
  }
}
