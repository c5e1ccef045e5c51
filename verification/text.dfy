/** An optional value, for results that may be absent. */
module Wrappers {
  datatype Option<+T> = None | Some(value: T)
}

/**
 * The character classes and string built-ins the chatbot relies on:
 * regex `\s` and `\w`, `str.strip`, `str.lower`, `str.split`,
 * `str.replace("\n", " ")`, `re.sub(r'[^\w\s]', '', ...)` and substring search.
 * Character classes are the ASCII ones.
 */
module Text {
  import opened Wrappers

  /** Whitespace: space, and tab, line feed, vertical tab, form feed, carriage return (codes 9 to 13). */
  predicate IsWs(c: char) {
    c == ' ' || '\t' <= c <= '\r'
  }

  /** A regex word character: an ASCII letter, a digit or an underscore. */
  predicate IsWordChar(c: char) {
    ('a' <= c <= 'z') || ('A' <= c <= 'Z') || ('0' <= c <= '9') || c == '_'
  }

  /** Index k of s holds whitespace. */
  predicate WsAt(s: string, k: int) {
    0 <= k < |s| && IsWs(s[k])
  }

  predicate AllWs(s: string) {
    forall k :: 0 <= k < |s| ==> IsWs(s[k])
  }

  /** No leading and no trailing whitespace. */
  predicate IsStripped(s: string) {
    |s| == 0 || (!IsWs(s[0]) && !IsWs(s[|s| - 1]))
  }

  /** The first index at or after i that does not hold whitespace (a greedy `\s*`). */
  function SkipWs(s: string, i: nat): (j: nat)
    requires i <= |s|
    ensures i <= j <= |s|
    ensures forall k :: i <= k < j ==> WsAt(s, k)
    ensures j == |s| || !IsWs(s[j])
    decreases |s| - i
  {
    if i < |s| && IsWs(s[i]) then SkipWs(s, i + 1) else i
  }

  /** The start of the whitespace run that ends at hi, not going below lo. */
  function BackWs(s: string, lo: nat, hi: nat): (k: nat)
    requires lo <= hi <= |s|
    ensures lo <= k <= hi
    ensures forall j :: k <= j < hi ==> WsAt(s, j)
    ensures k == lo || !IsWs(s[k - 1])
    decreases hi - lo
  {
    if lo < hi && IsWs(s[hi - 1]) then BackWs(s, lo, hi - 1) else hi
  }

  lemma SkipWsRun(s: string, i: nat)
    requires i <= |s|
    ensures forall k :: i <= k < SkipWs(s, i) ==> IsWs(s[k])
  {
    forall k | i <= k < SkipWs(s, i) ensures IsWs(s[k]) { assert WsAt(s, k); }
  }

  lemma BackWsRun(s: string, lo: nat, hi: nat)
    requires lo <= hi <= |s|
    ensures forall k :: BackWs(s, lo, hi) <= k < hi ==> IsWs(s[k])
  {
    forall k | BackWs(s, lo, hi) <= k < hi ensures IsWs(s[k]) { assert WsAt(s, k); }
  }

  /** SkipWs stops at the first non-whitespace character from i on. */
  lemma SkipWsTo(s: string, i: nat, j: nat)
    requires i <= j <= |s| && (j == |s| || !IsWs(s[j]))
    requires forall k :: i <= k < j ==> IsWs(s[k])
    ensures SkipWs(s, i) == j
  {
    assert j < SkipWs(s, i) ==> WsAt(s, j);
  }

  /** BackWs stops after the last non-whitespace character below hi. */
  lemma BackWsTo(s: string, lo: nat, hi: nat, j: nat)
    requires lo <= j <= hi <= |s| && (j == lo || !IsWs(s[j - 1]))
    requires forall k :: j <= k < hi ==> IsWs(s[k])
    ensures BackWs(s, lo, hi) == j
  {
    assert BackWs(s, lo, hi) < j ==> WsAt(s, j - 1);
  }

  /** The bounds of `s.strip()` inside s: only whitespace lies outside them. */
  function StripBounds(s: string): (b: (nat, nat))
    ensures b.0 <= b.1 <= |s|
    ensures AllWs(s[..b.0]) && AllWs(s[b.1..])
    ensures IsStripped(s[b.0..b.1])
  {
    var lo := SkipWs(s, 0);
    SkipWsRun(s, 0);
    BackWsRun(s, lo, |s|);
    (lo, BackWs(s, lo, |s|))
  }

  /** `s.strip()` */
  function Strip(s: string): (r: string)
    ensures IsStripped(r)
    ensures |r| <= |s|
    ensures IsStripped(s) ==> r == s
  {
    var b := StripBounds(s);
    s[b.0..b.1]
  }

  /** Strip removes exactly the whitespace around a stripped core, whatever that padding is. */
  lemma StripPadded(pre: string, x: string, post: string)
    requires AllWs(pre) && AllWs(post) && IsStripped(x)
    ensures Strip(pre + x + post) == x
  {
    var s := pre + x + post;
    var lo := SkipWs(s, 0);
    if |x| == 0 {
      assert AllWs(s) by {
        forall k | 0 <= k < |s| ensures IsWs(s[k]) {
          if k < |pre| { assert s[k] == pre[k]; } else { assert s[k] == post[k - |pre|]; }
        }
      }
      SkipWsTo(s, 0, |s|);
    } else {
      assert s[|pre|] == x[0];
      forall k | 0 <= k < |pre| ensures IsWs(s[k]) { assert s[k] == pre[k]; }
      SkipWsTo(s, 0, |pre|);
      var hi := BackWs(s, lo, |s|);
      assert s[|pre| + |x| - 1] == x[|x| - 1];
      forall k | |pre| + |x| <= k < |s| ensures IsWs(s[k]) {
        assert s[k] == post[k - |pre| - |x|];
      }
      BackWsTo(s, lo, |s|, |pre| + |x|);
      assert s[lo..hi] == x;
    }
  }

  function LowerChar(c: char): char {
    if 'A' <= c <= 'Z' then (c as int - 'A' as int + 'a' as int) as char else c
  }

  /** `s.lower()`: each ASCII capital becomes its small letter, nothing else changes. */
  function Lower(s: string): (r: string)
    ensures |r| == |s|
    ensures forall k :: 0 <= k < |s| ==> r[k] == LowerChar(s[k])
  {
    if |s| == 0 then [] else [LowerChar(s[0])] + Lower(s[1..])
  }

  /** `s.replace("\n", " ")`: each line feed becomes exactly one space; runs are not merged. */
  function ReplaceNewlines(s: string): (r: string)
    ensures |r| == |s|
    ensures forall k :: 0 <= k < |s| ==> r[k] == (if s[k] == '\n' then ' ' else s[k])
    ensures '\n' !in r
    ensures IsStripped(s) ==> IsStripped(r)
    ensures '\n' !in s ==> r == s
  {
    if |s| == 0 then [] else [if s[0] == '\n' then ' ' else s[0]] + ReplaceNewlines(s[1..])
  }

  predicate Kept(c: char) {
    IsWordChar(c) || IsWs(c)
  }

  /** `re.sub(r'[^\w\s]', '', s)`: deletes every character that is neither a word character nor whitespace. */
  function RemovePunct(s: string): (r: string)
    ensures forall c :: c in r <==> c in s && Kept(c)
    ensures |r| <= |s|
    ensures (forall k :: 0 <= k < |s| ==> Kept(s[k])) ==> r == s
  {
    if |s| == 0 then []
    else
      assert forall c :: c in s <==> c == s[0] || c in s[1..];
      (if Kept(s[0]) then [s[0]] else []) + RemovePunct(s[1..])
  }

  /** The end of the run of non-whitespace characters that starts at i. */
  function WordEnd(s: string, i: nat): (j: nat)
    requires i <= |s|
    ensures i <= j <= |s|
    ensures forall k :: i <= k < j ==> !IsWs(s[k])
    ensures j == |s| || IsWs(s[j])
    decreases |s| - i
  {
    if i < |s| && !IsWs(s[i]) then WordEnd(s, i + 1) else i
  }

  predicate IsWord(w: string) {
    |w| > 0 && forall k :: 0 <= k < |w| ==> !IsWs(w[k])
  }

  /** The words of s[i..], as `s[i:].split()` returns them. */
  function SplitFrom(s: string, i: nat): (ws: seq<string>)
    requires i <= |s|
    ensures forall w | w in ws :: IsWord(w)
    ensures |ws| == 0 <==> forall k :: i <= k < |s| ==> IsWs(s[k])
    decreases |s| - i
  {
    var b := SkipWs(s, i);
    SkipWsRun(s, i);
    if b == |s| then []
    else
      var e := WordEnd(s, b);
      [s[b..e]] + SplitFrom(s, e)
  }

  /** `s.split()` */
  function Split(s: string): (ws: seq<string>)
    ensures forall w | w in ws :: IsWord(w)
    ensures |ws| == 0 <==> AllWs(s)
  {
    SplitFrom(s, 0)
  }

  /** WordEnd stops at the first whitespace character from i on. */
  lemma {:induction false} WordEndTo(s: string, i: nat, j: nat)
    requires i <= j <= |s| && (j == |s| || IsWs(s[j]))
    requires forall k :: i <= k < j ==> !IsWs(s[k])
    ensures WordEnd(s, i) == j
    decreases j - i
  {
    if i < j {
      WordEndTo(s, i + 1, j);
    }
  }

  /** Skipping a whitespace run first does not change the words. */
  lemma SplitFromSkip(s: string, i: nat, j: nat)
    requires i <= j <= |s|
    requires forall k :: i <= k < j ==> IsWs(s[k])
    ensures SplitFrom(s, i) == SplitFrom(s, j)
  {
    var b := SkipWs(s, j);
    SkipWsRun(s, j);
    SkipWsTo(s, i, b);
  }

  /** The words of s[i..] do not depend on what precedes s. */
  lemma {:induction false} SplitFromShift(pre: string, s: string, i: nat)
    requires i <= |s|
    ensures SplitFrom(pre + s, |pre| + i) == SplitFrom(s, i)
    decreases |s| - i
  {
    hide SkipWs, WordEnd, SplitFrom;
    var t := pre + s;
    var b := SkipWs(s, i);
    SkipWsShift(pre, s, i);
    SplitFromStep(s, i);
    SplitFromStep(t, |pre| + i);
    if b < |s| {
      var e := WordEnd(s, b);
      WordEndShift(pre, s, b);
      SplitFromShift(pre, s, e);
    }
  }

  /** One step of SplitFrom: skip the whitespace, then take the word up to the next whitespace. */
  lemma SplitFromStep(s: string, i: nat)
    requires i <= |s|
    ensures SkipWs(s, i) == |s| ==> SplitFrom(s, i) == []
    ensures SkipWs(s, i) < |s| ==> SplitFrom(s, i) == [s[SkipWs(s, i)..WordEnd(s, SkipWs(s, i))]] + SplitFrom(s, WordEnd(s, SkipWs(s, i)))
  {
  }

  /** SkipWs moves with the text it runs over. */
  lemma SkipWsShift(pre: string, s: string, i: nat)
    requires i <= |s|
    ensures SkipWs(pre + s, |pre| + i) == |pre| + SkipWs(s, i)
  {
    var t := pre + s;
    var b := SkipWs(s, i);
    SkipWsRun(s, i);
    forall k | |pre| + i <= k < |pre| + b ensures IsWs(t[k]) { assert t[k] == s[k - |pre|]; }
    if b < |s| { assert t[|pre| + b] == s[b]; }
    SkipWsTo(t, |pre| + i, |pre| + b);
  }

  /** WordEnd moves with the text it runs over, and so does the word it ends. */
  lemma WordEndShift(pre: string, s: string, b: nat)
    requires b <= |s|
    ensures WordEnd(pre + s, |pre| + b) == |pre| + WordEnd(s, b)
    ensures (pre + s)[|pre| + b..|pre| + WordEnd(s, b)] == s[b..WordEnd(s, b)]
  {
    var t := pre + s;
    var e := WordEnd(s, b);
    forall k | |pre| + b <= k < |pre| + e ensures !IsWs(t[k]) { assert t[k] == s[k - |pre|]; }
    if e < |s| { assert t[|pre| + e] == s[e]; }
    WordEndTo(t, |pre| + b, |pre| + e);
  }

  /** Leading whitespace adds no word. */
  lemma SplitWs(ws: string, s: string)
    requires AllWs(ws)
    ensures Split(ws + s) == Split(s)
  {
    forall k | 0 <= k < |ws| ensures IsWs((ws + s)[k]) { assert (ws + s)[k] == ws[k]; }
    SplitFromSkip(ws + s, 0, |ws|);
    SplitFromShift(ws, s, 0);
  }

  /**
   * A word followed by whitespace or by nothing is the first word. With SplitWs this fixes
   * the words of every text: its maximal runs without whitespace, in order.
   */
  lemma SplitWord(w: string, s: string)
    requires IsWord(w) && (|s| == 0 || IsWs(s[0]))
    ensures Split(w + s) == [w] + Split(s)
  {
    var t := w + s;
    assert t[0] == w[0];
    SkipWsTo(t, 0, 0);
    forall k | 0 <= k < |w| ensures !IsWs(t[k]) { assert t[k] == w[k]; }
    if |s| > 0 { assert t[|w|] == s[0]; }
    WordEndTo(t, 0, |w|);
    assert t[0..|w|] == w;
    SplitFromShift(w, s, 0);
  }

  /** Removing punctuation works character by character, so it distributes over concatenation. */
  lemma {:induction false} RemovePunctAppend(a: string, b: string)
    ensures RemovePunct(a + b) == RemovePunct(a) + RemovePunct(b)
  {
    if |a| > 0 {
      assert (a + b)[0] == a[0] && (a + b)[1..] == a[1..] + b;
      RemovePunctAppend(a[1..], b);
    } else {
      assert a + b == b;
    }
  }

  /** One character is kept exactly when it is a word character or whitespace. */
  lemma RemovePunctChar(c: char)
    ensures RemovePunct([c]) == if Kept(c) then [c] else []
  {
    assert [c][1..] == [];
  }

  /** The pattern occurs in s starting at index j. */
  predicate OccursAt(s: string, pat: string, j: nat) {
    j + |pat| <= |s| && forall k :: 0 <= k < |pat| ==> s[j + k] == pat[k]
  }

  /** One mismatching character rules an occurrence out. */
  lemma NotOccursAt(s: string, pat: string, j: nat, k: nat)
    requires k < |pat| && (j + k < |s| ==> s[j + k] != pat[k])
    ensures !OccursAt(s, pat, j)
  {
  }

  predicate Contains(s: string, pat: string) {
    exists j: nat | j <= |s| :: OccursAt(s, pat, j)
  }

  /** An occurrence inside a slice is an occurrence in the whole string. */
  lemma OccursInSlice(s: string, lo: nat, hi: nat, pat: string, j: nat)
    requires lo <= hi <= |s| && OccursAt(s[lo..hi], pat, j)
    ensures OccursAt(s, pat, lo + j) && lo + j + |pat| <= hi
  {
    forall k | lo + j <= k < lo + j + |pat| ensures s[k] == pat[k - (lo + j)] {
      assert s[k] == s[lo..hi][k - lo];
    }
  }

  /** An occurrence inside [lo, hi) is an occurrence in the slice s[lo..hi]. */
  lemma OccursInRange(s: string, lo: nat, hi: nat, pat: string, j: nat)
    requires lo <= j && j + |pat| <= hi <= |s| && OccursAt(s, pat, j)
    ensures OccursAt(s[lo..hi], pat, j - lo)
  {
    forall k | j - lo <= k < j - lo + |pat| ensures s[lo..hi][k] == pat[k - (j - lo)] {
      assert s[lo..hi][k] == s[lo + k];
    }
  }

  /** No occurrence starting in [lo, hi) means the slice s[lo..hi] does not contain the pattern. */
  lemma NoneInRange(s: string, lo: nat, hi: nat, pat: string)
    requires lo <= hi <= |s| && |pat| > 0
    requires forall j: nat :: lo <= j < hi ==> !OccursAt(s, pat, j)
    ensures !Contains(s[lo..hi], pat)
  {
    forall j: nat | j <= hi - lo ensures !OccursAt(s[lo..hi], pat, j) {
      if OccursAt(s[lo..hi], pat, j) {
        OccursInSlice(s, lo, hi, pat, j);
      }
    }
  }

  /** A slice that does not contain the pattern has no occurrence lying inside it. */
  lemma NoneInSlice(s: string, lo: nat, hi: nat, pat: string, j: nat)
    requires lo <= j && j + |pat| <= hi <= |s| && !Contains(s[lo..hi], pat)
    ensures !OccursAt(s, pat, j)
  {
    if OccursAt(s, pat, j) {
      OccursInRange(s, lo, hi, pat, j);
    }
  }

  /** Stripping cannot create an occurrence: a pattern absent from s is absent from s.strip(). */
  lemma StripKeepsOut(s: string, pat: string)
    requires !Contains(s, pat)
    ensures !Contains(Strip(s), pat)
  {
    var b := StripBounds(s);
    forall j: nat | j <= |Strip(s)| ensures !OccursAt(Strip(s), pat, j) {
      if OccursAt(s[b.0..b.1], pat, j) {
        OccursInSlice(s, b.0, b.1, pat, j);
      }
    }
  }

  /** The first occurrence of pat at or after from. */
  function Find(s: string, pat: string, from: nat): (r: Option<nat>)
    ensures r.Some? ==> from <= r.value && OccursAt(s, pat, r.value)
    ensures r.Some? ==> forall j: nat :: from <= j < r.value ==> !OccursAt(s, pat, j)
    ensures r.None? ==> forall j: nat :: from <= j ==> !OccursAt(s, pat, j)
    decreases |s| - from
  {
    if from + |pat| > |s| then None
    else if OccursAt(s, pat, from) then Some(from)
    else Find(s, pat, from + 1)
  }

  /** The occurrence Find returns is the first one at or after from. */
  lemma FindFirst(s: string, pat: string, from: nat, m: nat)
    requires from <= m && OccursAt(s, pat, m)
    requires forall j: nat :: from <= j < m ==> !OccursAt(s, pat, j)
    ensures Find(s, pat, from) == Some(m)
  {
    var r := Find(s, pat, from);
  }

  /** The search may start anywhere in a stretch that holds no occurrence. */
  lemma FindSkip(s: string, pat: string, from: nat, to: nat)
    requires from <= to
    requires forall j: nat :: from <= j < to ==> !OccursAt(s, pat, j)
    ensures Find(s, pat, from) == Find(s, pat, to)
  {
    var r, r' := Find(s, pat, from), Find(s, pat, to);
    if r'.Some? && r.Some? {
      assert r.value <= r'.value;
    }
  }
}
