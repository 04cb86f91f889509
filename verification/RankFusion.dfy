/** Reciprocal rank fusion (crates/codegraph/src/search.rs), with f64 scores as reals. */
module RankFusion {
  import opened Sorting

  /** What rank `rank`, counted from zero, contributes. */
  function Contribution(rank: nat): real { 1.0 / (60.0 + rank as real + 1.0) }

  lemma BetterRankContributesMore(r: nat, s: nat)
    requires r < s
    ensures Contribution(r) > Contribution(s) > 0.0
  {
    SmallerReciprocal(60.0 + r as real + 1.0, 60.0 + s as real + 1.0);
  }

  lemma SmallerReciprocal(x: real, y: real)
    requires 0.0 < x < y
    ensures 1.0 / x > 1.0 / y > 0.0
  {
    var a, b := 1.0 / x, 1.0 / y;
    assert a * x == 1.0 && b * y == 1.0;
    Cancel(0.0, b, y);
    Scale(x, y, b);
    Cancel(b, a, x);
  }

  lemma Scale(x: real, y: real, b: real)
    requires b > 0.0 && x < y
    ensures b * x < b * y
  {
  }

  lemma Cancel(b: real, a: real, x: real)
    requires x > 0.0 && b * x < a * x
    ensures b < a
  {
  }

  /** What one list gives to `id`: the contributions of all its occurrences. */
  ghost function ListScore(list: seq<int>, id: int): (score: real)
    ensures score >= 0.0
  {
    if list == [] then 0.0
    else
      var n := |list| - 1;
      PositiveContribution(n);
      ListScore(list[..n], id) + if list[n] == id then Contribution(n) else 0.0
  }

  lemma PositiveContribution(n: nat)
    ensures Contribution(n) > 0.0
  {
    BetterRankContributesMore(n, n + 1);
  }

  /** The fused score: the sum over the lists. */
  ghost function Score(lists: seq<seq<int>>, id: int): (score: real)
    ensures score >= 0.0
  {
    if lists == [] then 0.0 else Score(lists[..|lists| - 1], id) + ListScore(lists[|lists| - 1], id)
  }

  ghost predicate Occurs(lists: seq<seq<int>>, id: int) {
    exists k :: 0 <= k < |lists| && id in lists[k]
  }

  // ---- The loops ----

  /** `scores` holds exactly the ids met, each with its score. */
  ghost predicate Tallies(scores: map<int, real>, lists: seq<seq<int>>, list: seq<int>) {
    && (forall id :: id in scores <==> Occurs(lists, id) || id in list)
    && forall id :: id in scores ==> scores[id] == Score(lists, id) + ListScore(list, id)
  }

  function Get(scores: map<int, real>, id: int): real { if id in scores then scores[id] else 0.0 }

  lemma {:induction false} AbsentScoresZero(list: seq<int>, id: int)
    requires id !in list
    ensures ListScore(list, id) == 0.0
  {
    if list != [] { AbsentScoresZero(list[..|list| - 1], id); }
  }

  lemma {:induction false} NeverOccurs(lists: seq<seq<int>>, id: int)
    requires !Occurs(lists, id)
    ensures Score(lists, id) == 0.0
  {
    if lists != [] {
      var n := |lists| - 1;
      forall k | 0 <= k < n ensures id !in lists[..n][k] {
        assert lists[..n][k] == lists[k];
      }
      NeverOccurs(lists[..n], id);
      AbsentScoresZero(lists[n], id);
    }
  }

  lemma TallyNext(scores: map<int, real>, lists: seq<seq<int>>, list: seq<int>, rank: nat)
    requires rank < |list| && Tallies(scores, lists, list[..rank])
    ensures Tallies(scores[list[rank] := Get(scores, list[rank]) + Contribution(rank)], lists, list[..rank + 1])
  {
    var id := list[rank];
    assert list[..rank + 1] == list[..rank] + [id] && list[..rank + 1][..rank] == list[..rank];
    if id !in scores {
      NeverOccurs(lists, id);
      AbsentScoresZero(list[..rank], id);
    }
  }

  /** Lines 27-30: one list. */
  method TallyList(scores: map<int, real>, ghost lists: seq<seq<int>>, list: seq<int>) returns (scores': map<int, real>)
    requires Tallies(scores, lists, [])
    ensures Tallies(scores', lists, list)
  {
    scores' := scores;
    assert list[..0] == [];
    for rank := 0 to |list|
      invariant Tallies(scores', lists, list[..rank])
    {
      TallyNext(scores', lists, list, rank);
      scores' := scores'[list[rank] := Get(scores', list[rank]) + Contribution(rank)];
    }
    assert list[..|list|] == list;
  }

  predicate ScoreLeq(a: (int, real), b: (int, real)) { a.1 >= b.1 }

  /** Each id that occurs is listed once, with its score, best first. */
  ghost predicate IsFusion(lists: seq<seq<int>>, result: seq<(int, real)>) {
    && (forall i, j :: 0 <= i < j < |result| ==> result[i].1 >= result[j].1)
    && forall e :: multiset(result)[e] == if Occurs(lists, e.0) && e.1 == Score(lists, e.0) then 1 else 0
  }

  /** Lines 24-35. */
  method RrfMerge(lists: seq<seq<int>>) returns (result: seq<(int, real)>)
    ensures IsFusion(lists, result)
  {
    var scores: map<int, real> := map[];
    for i := 0 to |lists|
      invariant Tallies(scores, lists[..i], [])
    {
      scores := TallyList(scores, lists[..i], lists[i]);
      ListDone(scores, lists, i);
    }
    assert lists[..|lists|] == lists;
    result := Entries(scores);
    result := Sort(result, ScoreLeq);
    assert forall i, j :: 0 <= i < j < |result| ==> ScoreLeq(result[i], result[j]);
  }

  lemma ListDone(scores: map<int, real>, lists: seq<seq<int>>, i: nat)
    requires i < |lists| && Tallies(scores, lists[..i], lists[i])
    ensures Tallies(scores, lists[..i + 1], [])
  {
    assert lists[..i + 1][..i] == lists[..i];
    forall id ensures Occurs(lists[..i + 1], id) <==> Occurs(lists[..i], id) || id in lists[i] {
      if Occurs(lists[..i], id) {
        var k :| 0 <= k < i && id in lists[..i][k];
        assert id in lists[..i + 1][k];
      }
      if id in lists[i] { assert id in lists[..i + 1][i]; }
    }
  }

  method Entries(scores: map<int, real>) returns (entries: seq<(int, real)>)
    ensures forall e :: multiset(entries)[e] == if e.0 in scores && e.1 == scores[e.0] then 1 else 0
  {
    entries := [];
    var left := scores.Keys;
    while left != {}
      invariant left <= scores.Keys
      invariant forall e :: multiset(entries)[e] == if e.0 in scores && e.0 !in left && e.1 == scores[e.0] then 1 else 0
    {
      var id := AnyOf(left);
      entries := entries + [(id, scores[id])];
      left := left - {id};
    }
  }

  // ---- What the fusion promises ----

  lemma {:induction false} ScoreAppend(a: seq<seq<int>>, b: seq<seq<int>>, id: int)
    ensures Score(a + b, id) == Score(a, id) + Score(b, id)
  {
    if b == [] {
      assert a + b == a;
    } else {
      ScoreAppend(a, b[..|b| - 1], id);
      assert (a + b)[..|a + b| - 1] == a + b[..|b| - 1];
    }
  }

  ghost function Without(lists: seq<seq<int>>, k: nat): seq<seq<int>>
    requires k < |lists|
  {
    lists[..k] + lists[k + 1..]
  }

  lemma ScoreWithout(lists: seq<seq<int>>, k: nat, id: int)
    requires k < |lists|
    ensures Score(lists, id) == Score(Without(lists, k), id) + ListScore(lists[k], id)
  {
    var x := lists[k];
    assert lists == lists[..k] + ([x] + lists[k + 1..]);
    ScoreAppend(lists[..k], [x] + lists[k + 1..], id);
    ScoreAppend([x], lists[k + 1..], id);
    ScoreAppend(lists[..k], lists[k + 1..], id);
    assert [x][..0] == [];
    assert Score([x], id) == ListScore(x, id);
  }

  lemma ContentsWithout(lists: seq<seq<int>>, k: nat)
    requires k < |lists|
    ensures multiset(Without(lists, k)) == multiset(lists) - multiset{lists[k]}
  {
    assert lists == lists[..k] + [lists[k]] + lists[k + 1..];
  }

  /** Scores do not depend on the order of the lists. */
  lemma {:induction false} ScoreOrderFree(a: seq<seq<int>>, b: seq<seq<int>>, id: int)
    requires multiset(a) == multiset(b)
    ensures Score(a, id) == Score(b, id)
  {
    assert |multiset(a)| == |multiset(b)|;
    if a != [] {
      assert a[0] in multiset(b);
      var k :| 0 <= k < |b| && b[k] == a[0];
      ContentsWithout(a, 0);
      ContentsWithout(b, k);
      ScoreOrderFree(Without(a, 0), Without(b, k), id);
      ScoreWithout(a, 0, id);
      ScoreWithout(b, k, id);
    }
  }

  ghost predicate NoRepeats(list: seq<int>) {
    forall i, j :: 0 <= i < j < |list| ==> list[i] != list[j]
  }

  lemma {:induction false} SingleOccurrence(list: seq<int>, r: nat)
    requires NoRepeats(list) && r < |list|
    ensures ListScore(list, list[r]) == Contribution(r)
  {
    var n := |list| - 1;
    if r == n {
      AbsentScoresZero(list[..n], list[r]);
    } else {
      SingleOccurrence(list[..n], r);
    }
  }

  /** The first of a list gets one over sixty-one, the next one over sixty-two, and so on. */
  lemma RankWeight(list: seq<int>, r: nat)
    requires NoRepeats(list) && r < |list|
    ensures (61.0 + r as real) * ListScore(list, list[r]) == 1.0
  {
    SingleOccurrence(list, r);
    var x := 60.0 + r as real + 1.0;
    TimesReciprocal(x);
    assert x == 61.0 + r as real;
  }

  lemma TimesReciprocal(x: real)
    requires x > 0.0
    ensures x * (1.0 / x) == 1.0
  {
  }

  /** `a` is ahead of `b` wherever `b` occurs. */
  ghost predicate Ahead(list: seq<int>, a: int, b: int) {
    forall s :: 0 <= s < |list| && list[s] == b ==> exists r :: 0 <= r < s && list[r] == a
  }

  lemma AheadScoresMore(list: seq<int>, a: int, b: int)
    requires NoRepeats(list) && Ahead(list, a, b)
    ensures ListScore(list, a) >= ListScore(list, b)
    ensures b in list ==> ListScore(list, a) > ListScore(list, b)
  {
    if b in list {
      var s :| 0 <= s < |list| && list[s] == b;
      var r :| 0 <= r < s && list[r] == a;
      SingleOccurrence(list, r);
      SingleOccurrence(list, s);
      BetterRankContributesMore(r, s);
    } else {
      AbsentScoresZero(list, b);
    }
  }

  lemma {:induction false} AheadScoresMoreOverall(lists: seq<seq<int>>, a: int, b: int)
    requires forall k :: 0 <= k < |lists| ==> NoRepeats(lists[k]) && Ahead(lists[k], a, b)
    ensures Score(lists, a) >= Score(lists, b)
    ensures Occurs(lists, b) ==> Score(lists, a) > Score(lists, b)
  {
    if lists != [] {
      var n := |lists| - 1;
      AheadScoresMoreOverall(lists[..n], a, b);
      AheadScoresMore(lists[n], a, b);
      if Occurs(lists, b) && b !in lists[n] {
        var k :| 0 <= k < |lists| && b in lists[k];
        assert b in lists[..n][k];
      }
    }
  }

  /** An id ahead of another in every list where the other occurs comes strictly earlier in the result. */
  lemma AheadRanksHigher(lists: seq<seq<int>>, result: seq<(int, real)>, a: int, b: int, i: nat, j: nat)
    requires forall k :: 0 <= k < |lists| ==> NoRepeats(lists[k]) && Ahead(lists[k], a, b)
    requires IsFusion(lists, result)
    requires i < |result| && j < |result| && result[i].0 == a && result[j].0 == b
    ensures i < j && result[i].1 > result[j].1
  {
    assert result[i] in multiset(result) && result[j] in multiset(result);
    assert Occurs(lists, b) && result[j].1 == Score(lists, b) && result[i].1 == Score(lists, a);
    AheadScoresMoreOverall(lists, a, b);
  }
}
