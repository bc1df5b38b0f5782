/**
 * The ranked list of transformations offered for the active view.
 *
 * Every scope selector of every transformation is scored against the view by
 * the editor; the editor's scoring is the uninterpreted parameter `score`. A
 * name is ranked by its best positive score. Ranked labels are kept in the
 * order they were first inserted (the source's dict), sorted ascending by a
 * stable sort, then reversed.
 */
module Ranking {
  import opened Options
  import opened Seqs
  import opened Config

  /** A transformation name with its rank. */
  type Rank = (string, nat)

  /** The labels of a ranked list, in order. */
  function Labels(r: seq<Rank>): (ls: seq<string>)
    ensures |ls| == |r| && forall i | 0 <= i < |r| :: ls[i] == r[i].0
  {
    seq(|r|, i requires 0 <= i < |r| => r[i].0)
  }

  /**
   * One step of the scan: a zero score is skipped; otherwise `name` is added
   * at the end on its first positive score and raised in place when the score
   * beats its rank.
   */
  function Record(ranked: seq<Rank>, name: string, s: nat): seq<Rank> {
    if s == 0 then ranked
    else if ranked == [] then [(name, s)]
    else if ranked[0].0 == name then (if ranked[0].1 < s then [(name, s)] else [ranked[0]]) + ranked[1..]
    else [ranked[0]] + Record(ranked[1..], name, s)
  }

  /** The inner loop: the selectors of one transformation's scope table, in order. */
  function RankScopes(ranked: seq<Rank>, name: string, scope: seq<(string, string)>, score: string -> nat): seq<Rank> {
    if scope == [] then ranked
    else
      var n := |scope| - 1;
      Record(RankScopes(ranked, name, scope[..n], score), name, score(scope[n].0))
  }

  /** The outer loop over the transformations, in iteration order. */
  function Ranked(ts: seq<(string, Transformation)>, score: string -> nat): seq<Rank> {
    if ts == [] then []
    else
      var n := |ts| - 1;
      RankScopes(Ranked(ts[..n], score), ts[n].0, ts[n].1.scope, score)
  }

  /** The best score of a scope table: the maximum, 0 for an empty table. */
  function Best(scope: seq<(string, string)>, score: string -> nat): (r: nat)
    ensures forall j | 0 <= j < |scope| :: score(scope[j].0) <= r
    ensures r == 0 || exists j :: 0 <= j < |scope| && score(scope[j].0) == r
  {
    if scope == [] then 0
    else
      var n := |scope| - 1;
      var b := Best(scope[..n], score);
      assert forall j | 0 <= j < n :: scope[..n][j] == scope[j];
      if b < score(scope[n].0) then score(scope[n].0) else b
  }

  /**
   * The reference ranking: the transformations with a positive best score, in
   * iteration order, each with that best score.
   */
  function Reference(ts: seq<(string, Transformation)>, score: string -> nat): seq<Rank> {
    if ts == [] then []
    else
      var n := |ts| - 1;
      var b := Best(ts[n].1.scope, score);
      Reference(ts[..n], score) + (if b > 0 then [(ts[n].0, b)] else [])
  }

  /** Labels are unique, as the keys of the settings' transformation table are. */
  ghost predicate DistinctLabels(ts: seq<(string, Transformation)>) {
    forall i, j | 0 <= i < j < |ts| :: ts[i].0 != ts[j].0
  }

  /** No label is ranked twice. */
  ghost predicate UniqueLabels(s: seq<Rank>) {
    forall a, b | 0 <= a < b < |s| :: s[a].0 != s[b].0
  }

  /** Every reference entry is a transformation with its positive best score. */
  lemma {:induction false} ReferenceSource(ts: seq<(string, Transformation)>, score: string -> nat, k: nat) returns (i: nat)
    requires k < |Reference(ts, score)|
    ensures i < |ts| && Best(ts[i].1.scope, score) > 0
    ensures Reference(ts, score)[k] == (ts[i].0, Best(ts[i].1.scope, score))
  {
    var n := |ts| - 1;
    var init := Reference(ts[..n], score);
    if k < |init| {
      i := ReferenceSource(ts[..n], score, k);
      assert ts[..n][i] == ts[i];
    } else {
      i := n;
    }
  }

  /** Every transformation with a positive best score has a reference entry. */
  lemma {:induction false} ReferenceCovers(ts: seq<(string, Transformation)>, score: string -> nat, i: nat) returns (k: nat)
    requires i < |ts| && Best(ts[i].1.scope, score) > 0
    ensures k < |Reference(ts, score)| && Reference(ts, score)[k].0 == ts[i].0
  {
    var n := |ts| - 1;
    var init := Reference(ts[..n], score);
    if i < n {
      assert ts[..n][i] == ts[i];
      k := ReferenceCovers(ts[..n], score, i);
    } else {
      k := |init|;
    }
  }

  /** The reference ranking lists every label at most once. */
  lemma {:induction false} ReferenceDistinct(ts: seq<(string, Transformation)>, score: string -> nat)
    requires DistinctLabels(ts)
    ensures UniqueLabels(Reference(ts, score))
  {
    if ts != [] {
      var n := |ts| - 1;
      assert DistinctLabels(ts[..n]);
      ReferenceDistinct(ts[..n], score);
      var init := Reference(ts[..n], score);
      forall k | 0 <= k < |init| ensures init[k].0 != ts[n].0 {
        var i := ReferenceSource(ts[..n], score, k);
      }
    }
  }

  lemma {:induction false} RecordAppend(acc: seq<Rank>, tail: seq<Rank>, name: string, s: nat)
    requires forall k | 0 <= k < |acc| :: acc[k].0 != name
    ensures Record(acc + tail, name, s) == acc + Record(tail, name, s)
    decreases |acc|
  {
    if s > 0 && acc != [] {
      assert (acc + tail)[0] == acc[0];
      assert (acc + tail)[1..] == acc[1..] + tail;
      RecordAppend(acc[1..], tail, name, s);
      assert acc == [acc[0]] + acc[1..];
    } else if acc == [] {
      assert acc + tail == tail;
    }
  }

  /** A name not yet ranked is appended once, with its best score, if that is positive. */
  lemma {:induction false} RankScopesFresh(acc: seq<Rank>, name: string, scope: seq<(string, string)>, score: string -> nat)
    requires forall k | 0 <= k < |acc| :: acc[k].0 != name
    ensures RankScopes(acc, name, scope, score)
         == acc + (if Best(scope, score) > 0 then [(name, Best(scope, score))] else [])
  {
    if scope == [] {
      assert acc + [] == acc;
    } else {
      var n := |scope| - 1;
      var b := Best(scope[..n], score);
      var s := score(scope[n].0);
      RankScopesFresh(acc, name, scope[..n], score);
      var tail := if b > 0 then [(name, b)] else [];
      RecordAppend(acc, tail, name, s);
    }
  }

  /** With unique labels the scan computes the reference ranking. */
  lemma {:induction false} RankedIsReference(ts: seq<(string, Transformation)>, score: string -> nat)
    requires DistinctLabels(ts)
    ensures Ranked(ts, score) == Reference(ts, score)
  {
    if ts != [] {
      var n := |ts| - 1;
      assert DistinctLabels(ts[..n]);
      RankedIsReference(ts[..n], score);
      var init := Reference(ts[..n], score);
      forall k | 0 <= k < |init| ensures init[k].0 != ts[n].0 {
        var i := ReferenceSource(ts[..n], score, k);
      }
      RankScopesFresh(init, ts[n].0, ts[n].1.scope, score);
    }
  }

  /** Non-decreasing by rank. */
  ghost predicate Ascending(s: seq<Rank>) {
    forall i, j | 0 <= i < j < |s| :: s[i].1 <= s[j].1
  }

  /** Inserts `x` before the first element ranked at least as high. */
  function Insert(x: Rank, s: seq<Rank>): (r: seq<Rank>)
    ensures multiset(r) == multiset(s) + multiset{x}
  {
    if s == [] || x.1 <= s[0].1 then [x] + s
    else
      assert s == [s[0]] + s[1..];
      [s[0]] + Insert(x, s[1..])
  }

  /** Insertion keeps a list ascending. */
  lemma {:induction false} InsertAscending(x: Rank, s: seq<Rank>)
    requires Ascending(s)
    ensures Ascending(Insert(x, s))
  {
    if s != [] && x.1 > s[0].1 {
      var rest := Insert(x, s[1..]);
      InsertAscending(x, s[1..]);
      forall j | 0 <= j < |rest| ensures s[0].1 <= rest[j].1 {
        assert rest[j] in multiset(rest);
        if rest[j] != x {
          assert rest[j] in multiset(s[1..]);
          var m :| 0 <= m < |s[1..]| && s[1..][m] == rest[j];
          assert s[m + 1] == rest[j];
        }
      }
      assert Insert(x, s) == [s[0]] + rest;
    }
  }

  /** The source's `sorted(..., key=rank)`: ascending and stable. */
  function SortByScore(s: seq<Rank>): (r: seq<Rank>)
    ensures multiset(r) == multiset(s)
    ensures Ascending(r)
  {
    if s == [] then []
    else
      var t := SortByScore(s[1..]);
      InsertAscending(s[0], t);
      assert s == [s[0]] + s[1..];
      Insert(s[0], t)
  }

  /** The elements of `s` ranked `k`, in order. */
  function WithScore(s: seq<Rank>, k: nat): seq<Rank> {
    if s == [] then []
    else (if s[0].1 == k then [s[0]] else []) + WithScore(s[1..], k)
  }

  lemma {:induction false} WithScoreAppend(a: seq<Rank>, b: seq<Rank>, k: nat)
    ensures WithScore(a + b, k) == WithScore(a, k) + WithScore(b, k)
  {
    if a == [] {
      assert a + b == b;
    } else {
      assert (a + b)[0] == a[0];
      assert (a + b)[1..] == a[1..] + b;
      WithScoreAppend(a[1..], b, k);
    }
  }

  /** Inserting `x` puts it ahead of every element of equal rank. */
  lemma {:induction false} InsertStable(x: Rank, s: seq<Rank>, k: nat)
    ensures WithScore(Insert(x, s), k) == (if x.1 == k then [x] else []) + WithScore(s, k)
  {
    if s == [] || x.1 <= s[0].1 {
      assert ([x] + s)[1..] == s;
    } else {
      InsertStable(x, s[1..], k);
      assert ([s[0]] + Insert(x, s[1..]))[1..] == Insert(x, s[1..]);
    }
  }

  /** The sort is stable: elements of equal rank keep their relative order. */
  lemma {:induction false} SortStable(s: seq<Rank>, k: nat)
    ensures WithScore(SortByScore(s), k) == WithScore(s, k)
  {
    if s != [] {
      SortStable(s[1..], k);
      InsertStable(s[0], SortByScore(s[1..]), k);
    }
  }

  /** Reversal reverses the order among elements of equal rank. */
  lemma {:induction false} WithScoreReverse(s: seq<Rank>, k: nat)
    ensures WithScore(Reverse(s), k) == Reverse(WithScore(s, k))
  {
    if s != [] {
      WithScoreReverse(s[1..], k);
      WithScoreAppend(Reverse(s[1..]), [s[0]], k);
      var head := if s[0].1 == k then [s[0]] else [];
      ReverseAppend(head, WithScore(s[1..], k));
      assert WithScore([s[0]], k) == head;
      assert Reverse(head) == head;
    }
  }

  /** An element occurring at two positions is counted at least twice. */
  lemma CountTwice(s: seq<Rank>, a: int, b: int)
    requires 0 <= a < b < |s| && s[a] == s[b]
    ensures multiset(s)[s[a]] >= 2
  {
    assert s == s[..b] + s[b..];
    assert s[a] == s[..b][a];
    assert s[b] == s[b..][0];
  }

  /** With unique labels every element is counted once. */
  lemma CountOnce(s: seq<Rank>, x: int)
    requires UniqueLabels(s) && 0 <= x < |s|
    ensures multiset(s)[s[x]] == 1
  {
    assert s == s[..x] + [s[x]] + s[x + 1..];
    assert s[x] !in s[..x] by {
      forall m | 0 <= m < x ensures s[..x][m] != s[x] {
        assert s[..x][m].0 == s[m].0 != s[x].0;
      }
    }
    var t := s[x + 1..];
    assert s[x] !in t by {
      forall m | 0 <= m < |t| ensures t[m] != s[x] {
        assert t[m].0 == s[x + 1 + m].0 != s[x].0;
      }
    }
  }

  /** A permutation of a list with unique labels has unique labels. */
  lemma PermutationUnique(r: seq<Rank>, out: seq<Rank>)
    requires UniqueLabels(r) && multiset(out) == multiset(r)
    ensures UniqueLabels(out)
  {
    forall a, b | 0 <= a < b < |out| ensures out[a].0 != out[b].0 {
      if out[a].0 == out[b].0 {
        assert out[a] in multiset(r) && out[b] in multiset(r);
        var x :| 0 <= x < |r| && r[x] == out[a];
        var y :| 0 <= y < |r| && r[y] == out[b];
        assert x == y;
        CountTwice(out, a, b);
        CountOnce(r, x);
        assert false;
      }
    }
  }

  /** The ranked labels with their ranks, best first. */
  function Offered(ts: seq<(string, Transformation)>, score: string -> nat): seq<Rank> {
    Reverse(SortByScore(Ranked(ts, score)))
  }

  /**
   * `PromptPandocCommand.transformations`: the labels offered for the view, or
   * None (the source's error message) when no selector scores positive.
   */
  function Transformations(ts: seq<(string, Transformation)>, score: string -> nat): Option<seq<string>> {
    if Ranked(ts, score) == [] then None else Some(Labels(Offered(ts, score)))
  }

  /** The offered list holds exactly the reference ranking's entries. */
  lemma RankingContents(ts: seq<(string, Transformation)>, score: string -> nat)
    requires DistinctLabels(ts)
    ensures multiset(Offered(ts, score)) == multiset(Reference(ts, score))
  {
    RankedIsReference(ts, score);
    ReverseMultiset(SortByScore(Ranked(ts, score)));
  }

  /** Nothing is offered exactly when no selector of any transformation scores positive. */
  lemma TransformationsNone(ts: seq<(string, Transformation)>, score: string -> nat)
    requires DistinctLabels(ts)
    ensures Transformations(ts, score).None?
        <==> forall i, j | 0 <= i < |ts| && 0 <= j < |ts[i].1.scope| :: score(ts[i].1.scope[j].0) == 0
  {
    RankedIsReference(ts, score);
    var r := Reference(ts, score);
    if r == [] {
      forall i, j | 0 <= i < |ts| && 0 <= j < |ts[i].1.scope| ensures score(ts[i].1.scope[j].0) == 0 {
        if Best(ts[i].1.scope, score) > 0 {
          var k := ReferenceCovers(ts, score, i);
        }
      }
    } else {
      var i := ReferenceSource(ts, score, 0);
    }
  }

  /** An offered entry comes from a transformation with a positive selector. */
  lemma OfferedIsPositive(ts: seq<(string, Transformation)>, score: string -> nat, a: nat) returns (i: nat, j: nat)
    requires DistinctLabels(ts)
    requires a < |Offered(ts, score)|
    ensures i < |ts| && j < |ts[i].1.scope| && ts[i].0 == Offered(ts, score)[a].0 && score(ts[i].1.scope[j].0) > 0
  {
    RankingContents(ts, score);
    var r := Reference(ts, score);
    var out := Offered(ts, score);
    assert out[a] in multiset(r);
    var k :| 0 <= k < |r| && r[k] == out[a];
    i := ReferenceSource(ts, score, k);
    j :| 0 <= j < |ts[i].1.scope| && score(ts[i].1.scope[j].0) == Best(ts[i].1.scope, score);
  }

  /** A transformation with a positive selector is offered. */
  lemma PositiveIsOffered(ts: seq<(string, Transformation)>, score: string -> nat, i: nat, j: nat) returns (a: nat)
    requires DistinctLabels(ts)
    requires i < |ts| && j < |ts[i].1.scope| && score(ts[i].1.scope[j].0) > 0
    ensures a < |Offered(ts, score)| && Offered(ts, score)[a].0 == ts[i].0
  {
    RankingContents(ts, score);
    var r := Reference(ts, score);
    var out := Offered(ts, score);
    var k := ReferenceCovers(ts, score, i);
    assert r[k] in multiset(out);
    a :| 0 <= a < |out| && out[a] == r[k];
  }

  /** Exactly the labels with some positive selector are offered. */
  lemma TransformationsListed(ts: seq<(string, Transformation)>, score: string -> nat, l: string)
    requires DistinctLabels(ts)
    requires Transformations(ts, score).Some?
    ensures l in Transformations(ts, score).value
        <==> exists i, j :: 0 <= i < |ts| && 0 <= j < |ts[i].1.scope| && ts[i].0 == l && score(ts[i].1.scope[j].0) > 0
  {
    var ls := Transformations(ts, score).value;
    if l in ls {
      var a :| 0 <= a < |ls| && ls[a] == l;
      var i, j := OfferedIsPositive(ts, score, a);
    }
    if exists i, j :: 0 <= i < |ts| && 0 <= j < |ts[i].1.scope| && ts[i].0 == l && score(ts[i].1.scope[j].0) > 0 {
      var i, j :| 0 <= i < |ts| && 0 <= j < |ts[i].1.scope| && ts[i].0 == l && score(ts[i].1.scope[j].0) > 0;
      var a := PositiveIsOffered(ts, score, i, j);
      assert ls[a] == l;
    }
  }

  /** No label is offered twice. */
  lemma TransformationsUnique(ts: seq<(string, Transformation)>, score: string -> nat)
    requires DistinctLabels(ts)
    requires Transformations(ts, score).Some?
    ensures forall a, b | 0 <= a < b < |Transformations(ts, score).value|
        :: Transformations(ts, score).value[a] != Transformations(ts, score).value[b]
  {
    RankingContents(ts, score);
    ReferenceDistinct(ts, score);
    PermutationUnique(Reference(ts, score), Offered(ts, score));
  }

  /** Each offered label carries the best of its selectors' scores. */
  lemma RankIsBest(ts: seq<(string, Transformation)>, score: string -> nat, k: int) returns (i: nat)
    requires DistinctLabels(ts)
    requires 0 <= k < |Offered(ts, score)|
    ensures i < |ts| && ts[i].0 == Offered(ts, score)[k].0 && Offered(ts, score)[k].1 > 0
    ensures forall j | 0 <= j < |ts[i].1.scope| :: score(ts[i].1.scope[j].0) <= Offered(ts, score)[k].1
    ensures exists j :: 0 <= j < |ts[i].1.scope| && score(ts[i].1.scope[j].0) == Offered(ts, score)[k].1
  {
    RankingContents(ts, score);
    var r := Reference(ts, score);
    var out := Offered(ts, score);
    assert out[k] in multiset(r);
    var m :| 0 <= m < |r| && r[m] == out[k];
    i := ReferenceSource(ts, score, m);
  }

  /** The offered list is best first. */
  lemma RankingDescending(ts: seq<(string, Transformation)>, score: string -> nat)
    ensures forall a, b | 0 <= a < b < |Offered(ts, score)| :: Offered(ts, score)[a].1 >= Offered(ts, score)[b].1
  {
    var s := SortByScore(Ranked(ts, score));
    var out := Offered(ts, score);
    forall a, b | 0 <= a < b < |out| ensures out[a].1 >= out[b].1 {
      assert out[a] == s[|s| - 1 - a] && out[b] == s[|s| - 1 - b];
    }
  }

  /**
   * Labels of equal rank are offered in the reverse of the order in which they
   * were first ranked, that is in the reverse of their iteration order.
   */
  lemma RankingTies(ts: seq<(string, Transformation)>, score: string -> nat, k: nat)
    requires DistinctLabels(ts)
    ensures WithScore(Offered(ts, score), k) == Reverse(WithScore(Reference(ts, score), k))
  {
    RankedIsReference(ts, score);
    WithScoreReverse(SortByScore(Ranked(ts, score)), k);
    SortStable(Ranked(ts, score), k);
  }
}
