/**
 * The dict comprehension `{q: a for q, a in pairs}` that both parsers end with:
 * pairs are stored in order, so a question that comes back overwrites its earlier answer.
 */
module QaDict {

  /** The questions of pairs, as a set. */
  function Questions(pairs: seq<(string, string)>): (s: set<string>)
    ensures forall j :: 0 <= j < |pairs| ==> pairs[j].0 in s
    ensures forall k :: k in s ==> exists j :: 0 <= j < |pairs| && pairs[j].0 == k
  {
    if |pairs| == 0 then {}
    else Questions(pairs[..|pairs| - 1]) + {pairs[|pairs| - 1].0}
  }

  /** `{q: a for q, a in pairs}` */
  function BuildMap(pairs: seq<(string, string)>): (m: map<string, string>)
    ensures m.Keys == Questions(pairs)
  {
    if |pairs| == 0 then map[]
    else BuildMap(pairs[..|pairs| - 1])[pairs[|pairs| - 1].0 := pairs[|pairs| - 1].1]
  }

  /** Adding a pair leaves the entries of the other questions as they were. */
  lemma Untouched(pairs: seq<(string, string)>, k: string)
    requires |pairs| > 0 && k != pairs[|pairs| - 1].0
    ensures k in BuildMap(pairs) <==> k in BuildMap(pairs[..|pairs| - 1])
    ensures k in BuildMap(pairs) ==> BuildMap(pairs)[k] == BuildMap(pairs[..|pairs| - 1])[k]
  {
  }

  /** The last pair is stored. */
  lemma Stored(pairs: seq<(string, string)>)
    requires |pairs| > 0
    ensures BuildMap(pairs)[pairs[|pairs| - 1].0] == pairs[|pairs| - 1].1
  {
  }

  /** No pair after index j has the same question as pairs[j]. */
  predicate LastOf(pairs: seq<(string, string)>, j: int) {
    0 <= j < |pairs| && forall i :: j < i < |pairs| ==> pairs[i].0 != pairs[j].0
  }

  /** The last pair with a given question decides its answer. */
  lemma {:induction false} LastWins(pairs: seq<(string, string)>, j: int)
    requires LastOf(pairs, j)
    ensures pairs[j].0 in BuildMap(pairs) && BuildMap(pairs)[pairs[j].0] == pairs[j].1
    decreases |pairs|
  {
    hide BuildMap, Questions;
    var n := |pairs| - 1;
    if j < n {
      var init := pairs[..n];
      forall i | j < i < n ensures init[i].0 != init[j].0 {
        assert init[i] == pairs[i];
      }
      LastWins(init, j);
      Untouched(pairs, pairs[j].0);
    } else {
      Stored(pairs);
    }
  }

  /** Every answer in the map is the answer of the last pair with that question. */
  lemma {:induction false} FromLast(pairs: seq<(string, string)>, k: string)
    requires k in BuildMap(pairs)
    ensures exists j :: LastOf(pairs, j) && pairs[j] == (k, BuildMap(pairs)[k])
    decreases |pairs|
  {
    hide BuildMap, Questions;
    var n := |pairs| - 1;
    if pairs[n].0 == k {
      Stored(pairs);
      assert LastOf(pairs, n) && pairs[n] == (k, BuildMap(pairs)[k]);
    } else {
      var init := pairs[..n];
      Untouched(pairs, k);
      FromLast(init, k);
      var j :| LastOf(init, j) && init[j] == (k, BuildMap(init)[k]);
      assert pairs[j] == init[j];
      forall i | j < i < |pairs| ensures pairs[i].0 != k {
        if i < n {
          assert pairs[i] == init[i];
          assert init[i].0 != init[j].0;
        } else {
          assert i == n;
        }
      }
      assert LastOf(pairs, j) && pairs[j] == (k, BuildMap(pairs)[k]);
    }
  }

  /** There are never more entries than pairs. */
  lemma {:induction false} MapSize(pairs: seq<(string, string)>)
    ensures |BuildMap(pairs)| <= |pairs|
    decreases |pairs|
  {
    if |pairs| > 0 {
      var n := |pairs| - 1;
      MapSize(pairs[..n]);
      var m := BuildMap(pairs[..n]);
      assert BuildMap(pairs).Keys == m.Keys + {pairs[n].0};
      assert |m.Keys + {pairs[n].0}| <= |m.Keys| + 1;
    }
  }

  /** When no question repeats, the map has exactly one entry per pair. */
  lemma {:induction false} DistinctSize(pairs: seq<(string, string)>)
    requires forall i, j :: 0 <= i < j < |pairs| ==> pairs[i].0 != pairs[j].0
    ensures |BuildMap(pairs)| == |pairs|
    decreases |pairs|
  {
    if |pairs| > 0 {
      var n := |pairs| - 1;
      var init := pairs[..n];
      DistinctSize(init);
      forall j | 0 <= j < |init| ensures init[j].0 != pairs[n].0 {
        assert init[j] == pairs[j];
      }
      assert BuildMap(pairs).Keys == BuildMap(init).Keys + {pairs[n].0};
    }
  }
}
