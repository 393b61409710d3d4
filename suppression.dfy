/** Step two of predict: greedy non-maximum suppression over the detections
    that passed the threshold. Indices here are positions in those lists. */
module Suppression {
  import opened Geometry
  import opened DetectionTypes

  predicate InRange(s: seq<nat>, n: nat) {
    forall k :: 0 <= k < |s| ==> s[k] < n
  }

  predicate Distinct(s: seq<nat>) {
    forall a, b :: 0 <= a < b < |s| ==> s[a] != s[b]
  }

  /** Scores never fall along p. */
  predicate AscendingBy(p: seq<nat>, scores: seq<real>)
    requires InRange(p, |scores|)
  {
    forall a, b :: 0 <= a < b < |p| ==> scores[p[a]] <= scores[p[b]]
  }

  /** Scores never rise along p. */
  predicate DescendingBy(p: seq<nat>, scores: seq<real>)
    requires InRange(p, |scores|)
  {
    forall a, b :: 0 <= a < b < |p| ==> scores[p[a]] >= scores[p[b]]
  }

  /** What an ascending argsort of the scores may return: every index
      exactly once, scores ascending. Equal scores may come in any order. */
  predicate IsArgSort(order: seq<nat>, scores: seq<real>) {
    |order| == |scores| && InRange(order, |scores|) && Distinct(order) &&
    (forall j :: 0 <= j < |scores| ==> j in order) &&
    AscendingBy(order, scores)
  }

  /** Positions in s taken from the back. */
  function Reverse(s: seq<nat>): (r: seq<nat>)
    ensures |r| == |s|
    ensures forall k :: 0 <= k < |s| ==> r[k] == s[|s| - 1 - k]
  {
    if s == [] then [] else [s[|s| - 1]] + Reverse(s[..|s| - 1])
  }

  /** order[left] after one pass: the pending indices whose overlap ratio with
      the picked box `top` stays strictly below t, in their pending order. */
  function Survivors(boxes: seq<Box>, t: real, top: nat, rest: seq<nat>): (r: seq<nat>)
    requires top < |boxes| && InRange(rest, |boxes|)
    ensures |r| <= |rest| && InRange(r, |boxes|)
    ensures forall j :: j in r <==> j in rest && !Suppresses(boxes[top], boxes[j], t)
  {
    if rest == [] then []
    else
      (if Suppresses(boxes[top], boxes[rest[0]], t) then [] else [rest[0]])
      + Survivors(boxes, t, top, rest[1..])
  }

  /** The indices the greedy loop picks, in picking order, starting from the
      pending list `pending` (ascending by score, so its last entry is the
      best remaining box). */
  function Greedy(boxes: seq<Box>, t: real, pending: seq<nat>): (picked: seq<nat>)
    requires InRange(pending, |boxes|)
    ensures |picked| <= |pending| && InRange(picked, |boxes|)
    ensures forall j :: j in picked ==> j in pending
    decreases |pending|
  {
    if pending == [] then []
    else
      var top := pending[|pending| - 1];
      [top] + Greedy(boxes, t, Survivors(boxes, t, top, pending[..|pending| - 1]))
  }

  /** One pass of the greedy definition: the last pending index is picked
      first, the rest comes from the survivors of its pass. */
  lemma GreedyStep(boxes: seq<Box>, t: real, pending: seq<nat>)
    requires InRange(pending, |boxes|) && pending != []
    ensures var index := pending[|pending| - 1];
      Greedy(boxes, t, pending) == [index] + Greedy(boxes, t, Survivors(boxes, t, index, pending[..|pending| - 1]))
  {
  }

  lemma {:induction false} SurvivorsDistinct(boxes: seq<Box>, t: real, top: nat, rest: seq<nat>)
    requires top < |boxes| && InRange(rest, |boxes|)
    requires Distinct(rest)
    ensures Distinct(Survivors(boxes, t, top, rest))
  {
    if rest != [] {
      var tail := Survivors(boxes, t, top, rest[1..]);
      SurvivorsDistinct(boxes, t, top, rest[1..]);
      assert rest[0] !in rest[1..];
      assert rest[0] !in tail;
    }
  }

  lemma {:induction false} SurvivorsAscending(boxes: seq<Box>, scores: seq<real>, t: real, top: nat, rest: seq<nat>)
    requires |scores| == |boxes|
    requires top < |boxes| && InRange(rest, |boxes|)
    requires AscendingBy(rest, scores)
    ensures AscendingBy(Survivors(boxes, t, top, rest), scores)
  {
    if rest != [] {
      var tail := Survivors(boxes, t, top, rest[1..]);
      SurvivorsAscending(boxes, scores, t, top, rest[1..]);
      forall y | y in tail
        ensures scores[rest[0]] <= scores[y]
      {
        var m :| 0 <= m < |rest[1..]| && rest[1..][m] == y;
        assert rest[m + 1] == y;
      }
    }
  }

  /** When no pending box overlaps the picked one, the pass keeps them all. */
  lemma {:induction false} SurvivorsKeepAll(boxes: seq<Box>, t: real, top: nat, rest: seq<nat>)
    requires top < |boxes| && InRange(rest, |boxes|)
    requires forall j :: j in rest ==> !Suppresses(boxes[top], boxes[j], t)
    ensures Survivors(boxes, t, top, rest) == rest
  {
    if rest != [] {
      SurvivorsKeepAll(boxes, t, top, rest[1..]);
      assert [rest[0]] + rest[1..] == rest;
    }
  }

  /** The best box of an ascending pending list is its last entry. */
  lemma LastIsBest(p: seq<nat>, scores: seq<real>)
    requires p != [] && InRange(p, |scores|) && AscendingBy(p, scores)
    ensures forall j :: j in p ==> scores[j] <= scores[p[|p| - 1]]
  {
    forall j | j in p
      ensures scores[j] <= scores[p[|p| - 1]]
    {
      var m :| 0 <= m < |p| && p[m] == j;
    }
  }

  /** No index is picked twice: each pass removes the picked index from the
      pending list. */
  lemma {:induction false} GreedyDistinct(boxes: seq<Box>, t: real, pending: seq<nat>)
    requires InRange(pending, |boxes|) && Distinct(pending)
    ensures Distinct(Greedy(boxes, t, pending))
    decreases |pending|
  {
    if pending != [] {
      var n := |pending| - 1;
      var top, rest := pending[n], pending[..n];
      assert top !in rest;
      SurvivorsDistinct(boxes, t, top, rest);
      var s := Survivors(boxes, t, top, rest);
      GreedyDistinct(boxes, t, s);
      assert top !in Greedy(boxes, t, s);
      GreedyStep(boxes, t, pending);
    }
  }

  lemma DescendingCons(scores: seq<real>, top: nat, g: seq<nat>)
    requires top < |scores| && InRange(g, |scores|) && DescendingBy(g, scores)
    requires forall y :: y in g ==> scores[y] <= scores[top]
    ensures InRange([top] + g, |scores|) && DescendingBy([top] + g, scores)
  {
    var p := [top] + g;
    forall a, b | 0 <= a < b < |p|
      ensures scores[p[a]] >= scores[p[b]]
    {
      assert p[b] == g[b - 1];
      if a == 0 {
        assert g[b - 1] in g;
      } else {
        assert p[a] == g[a - 1];
      }
    }
  }

  /** The picked scores never rise: every pick is the best pending box. */
  lemma {:induction false} GreedyDescending(boxes: seq<Box>, scores: seq<real>, t: real, pending: seq<nat>)
    requires |scores| == |boxes|
    requires InRange(pending, |boxes|) && AscendingBy(pending, scores)
    ensures DescendingBy(Greedy(boxes, t, pending), scores)
    decreases |pending|
  {
    if pending != [] {
      var n := |pending| - 1;
      var top, rest := pending[n], pending[..n];
      LastIsBest(pending, scores);
      SurvivorsAscending(boxes, scores, t, top, rest);
      var s := Survivors(boxes, t, top, rest);
      var g := Greedy(boxes, t, s);
      GreedyDescending(boxes, scores, t, s);
      forall y | y in g
        ensures scores[y] <= scores[top]
      {
        assert y in rest;
        assert y in pending;
      }
      DescendingCons(scores, top, g);
      GreedyStep(boxes, t, pending);
    }
  }

  /** Picked boxes, in picking order, pairwise below the threshold. */
  predicate PairwiseApart(boxes: seq<Box>, t: real, g: seq<nat>)
    requires InRange(g, |boxes|)
  {
    forall a, b :: 0 <= a < b < |g| ==> !Suppresses(boxes[g[a]], boxes[g[b]], t)
  }

  lemma ApartCons(boxes: seq<Box>, t: real, top: nat, gs: seq<nat>)
    requires top < |boxes| && InRange(gs, |boxes|)
    requires PairwiseApart(boxes, t, gs)
    requires forall y :: y in gs ==> !Suppresses(boxes[top], boxes[y], t)
    ensures PairwiseApart(boxes, t, [top] + gs)
  {
    var g := [top] + gs;
    forall a, b | 0 <= a < b < |g|
      ensures !Suppresses(boxes[g[a]], boxes[g[b]], t)
    {
      assert g[b] == gs[b - 1];
      if a == 0 {
        assert gs[b - 1] in gs;
      } else {
        assert g[a] == gs[a - 1];
      }
    }
  }

  /** Any two picked boxes overlap strictly below the threshold. */
  lemma {:induction false} GreedyApart(boxes: seq<Box>, t: real, pending: seq<nat>)
    requires InRange(pending, |boxes|)
    ensures PairwiseApart(boxes, t, Greedy(boxes, t, pending))
    decreases |pending|
  {
    if pending != [] {
      var n := |pending| - 1;
      var top, rest := pending[n], pending[..n];
      var s := Survivors(boxes, t, top, rest);
      var gs := Greedy(boxes, t, s);
      GreedyApart(boxes, t, s);
      forall y | y in gs
        ensures !Suppresses(boxes[top], boxes[y], t)
      {
        assert y in s;
      }
      ApartCons(boxes, t, top, gs);
      GreedyStep(boxes, t, pending);
    }
  }

  /** Every index of `pending` missing from `g` is overlapped, at or above
      the threshold, by an entry of `g` that scores at least as high. */
  predicate Covered(boxes: seq<Box>, scores: seq<real>, t: real, pending: seq<nat>, g: seq<nat>)
    requires |scores| == |boxes| && InRange(pending, |boxes|) && InRange(g, |boxes|)
  {
    forall j :: j in pending && j !in g ==>
      exists k :: 0 <= k < |g| && Suppresses(boxes[g[k]], boxes[j], t) && scores[g[k]] >= scores[j]
  }

  /** The pick that removed a covered index. */
  lemma CoveringPick(boxes: seq<Box>, scores: seq<real>, t: real, pending: seq<nat>, g: seq<nat>, j: nat) returns (k: nat)
    requires |scores| == |boxes| && InRange(pending, |boxes|) && InRange(g, |boxes|)
    requires Covered(boxes, scores, t, pending, g) && j in pending && j !in g
    ensures k < |g| && Suppresses(boxes[g[k]], boxes[j], t) && scores[g[k]] >= scores[j]
  {
    k :| 0 <= k < |g| && Suppresses(boxes[g[k]], boxes[j], t) && scores[g[k]] >= scores[j];
  }

  lemma CoveredCons(boxes: seq<Box>, scores: seq<real>, t: real, top: nat, rest: seq<nat>, s: seq<nat>, gs: seq<nat>)
    requires |scores| == |boxes| && top < |boxes|
    requires InRange(rest, |boxes|) && InRange(s, |boxes|) && InRange(gs, |boxes|)
    requires forall j :: j in s <==> j in rest && !Suppresses(boxes[top], boxes[j], t)
    requires forall j :: j in rest ==> scores[j] <= scores[top]
    requires Covered(boxes, scores, t, s, gs)
    ensures Covered(boxes, scores, t, rest + [top], [top] + gs)
  {
    var g := [top] + gs;
    forall j | j in rest + [top] && j !in g
      ensures exists k :: 0 <= k < |g| && Suppresses(boxes[g[k]], boxes[j], t) && scores[g[k]] >= scores[j]
    {
      assert j != top && j in rest;
      if Suppresses(boxes[top], boxes[j], t) {
        assert g[0] == top;
      } else {
        assert j in s && j !in gs;
        var k :| 0 <= k < |gs| && Suppresses(boxes[gs[k]], boxes[j], t) && scores[gs[k]] >= scores[j];
        assert g[k + 1] == gs[k];
      }
    }
  }

  /** Every pending box that is not picked was dropped by a picked box that
      overlaps it at or above the threshold and scores at least as high. */
  lemma {:induction false} GreedyCovers(boxes: seq<Box>, scores: seq<real>, t: real, pending: seq<nat>)
    requires |scores| == |boxes|
    requires InRange(pending, |boxes|) && AscendingBy(pending, scores)
    ensures Covered(boxes, scores, t, pending, Greedy(boxes, t, pending))
    decreases |pending|
  {
    if pending != [] {
      var n := |pending| - 1;
      var top, rest := pending[n], pending[..n];
      LastIsBest(pending, scores);
      assert pending == rest + [top];
      assert forall j :: j in rest ==> j in pending;
      SurvivorsAscending(boxes, scores, t, top, rest);
      var s := Survivors(boxes, t, top, rest);
      GreedyCovers(boxes, scores, t, s);
      CoveredCons(boxes, scores, t, top, rest, s, Greedy(boxes, t, s));
      GreedyStep(boxes, t, pending);
    }
  }

  /** Boxes at distinct positions of p overlap strictly below the threshold,
      whichever of the two is taken as the picked one. */
  predicate MutuallyApart(boxes: seq<Box>, t: real, p: seq<nat>)
    requires InRange(p, |boxes|)
  {
    forall a, b :: 0 <= a < |p| && 0 <= b < |p| && a != b ==> !Suppresses(boxes[p[a]], boxes[p[b]], t)
  }

  /** Dropping the last entry keeps the rest mutually apart, and the last
      entry is apart from every other one. */
  lemma MutuallyApartInit(boxes: seq<Box>, t: real, p: seq<nat>)
    requires p != [] && InRange(p, |boxes|) && MutuallyApart(boxes, t, p)
    ensures InRange(p[..|p| - 1], |boxes|) && MutuallyApart(boxes, t, p[..|p| - 1])
    ensures forall j :: j in p[..|p| - 1] ==> !Suppresses(boxes[p[|p| - 1]], boxes[j], t)
  {
    var n := |p| - 1;
    var rest := p[..n];
    forall j | j in rest
      ensures !Suppresses(boxes[p[n]], boxes[j], t)
    {
      var m :| 0 <= m < n && rest[m] == j;
      assert p[m] == j;
    }
  }

  /** Greedy suppression over boxes that are mutually apart picks all of
      them, best first. */
  lemma {:induction false} GreedyKeepsApartBoxes(boxes: seq<Box>, t: real, pending: seq<nat>)
    requires InRange(pending, |boxes|) && MutuallyApart(boxes, t, pending)
    ensures Greedy(boxes, t, pending) == Reverse(pending)
    decreases |pending|
  {
    if pending != [] {
      var n := |pending| - 1;
      var top, rest := pending[n], pending[..n];
      MutuallyApartInit(boxes, t, pending);
      SurvivorsKeepAll(boxes, t, top, rest);
      GreedyKeepsApartBoxes(boxes, t, rest);
      GreedyStep(boxes, t, pending);
    }
  }

  /** Pairwise apart in picking order means apart in both orders. */
  lemma ApartBothWays(boxes: seq<Box>, t: real, order: seq<nat>)
    requires InRange(order, |boxes|) && Distinct(order)
    requires forall a, b :: 0 <= a < b < |boxes| ==> !Suppresses(boxes[a], boxes[b], t)
    ensures MutuallyApart(boxes, t, order)
  {
    forall a, b | 0 <= a < |order| && 0 <= b < |order| && a != b
      ensures !Suppresses(boxes[order[a]], boxes[order[b]], t)
    {
      var x, y := order[a], order[b];
      assert x != y;
      if y < x {
        SuppressesSymmetric(boxes[x], boxes[y], t);
      }
    }
  }

  /** Suppression is idempotent: run again over its own output (from any
      ascending argsort of the output scores), it picks every box again. */
  lemma NmsIdempotent(boxes: seq<Box>, scores: seq<real>, t: real, order: seq<nat>)
    requires |scores| == |boxes|
    requires forall a, b :: 0 <= a < b < |boxes| ==> !Suppresses(boxes[a], boxes[b], t)
    requires IsArgSort(order, scores)
    ensures Greedy(boxes, t, order) == Reverse(order)
    ensures forall j :: 0 <= j < |boxes| ==> j in Greedy(boxes, t, order)
  {
    ApartBothWays(boxes, t, order);
    GreedyKeepsApartBoxes(boxes, t, order);
    forall j | 0 <= j < |boxes|
      ensures j in Reverse(order)
    {
      assert j in order;
      var m :| 0 <= m < |order| && order[m] == j;
      assert Reverse(order)[|order| - 1 - m] == j;
    }
  }

  /** The four boxes of the counterexample below: A, then B, which shares
      a third of the union with A, then C and D, the upper and lower parts
      of B. */
  function ShrinkExample(): (boxes: seq<Box>)
    ensures |boxes| == 4
    ensures Intersection(boxes[0], boxes[1]) == 50 && Union(boxes[0], boxes[1]) == 150
    ensures Intersection(boxes[0], boxes[2]) == 30 && Union(boxes[0], boxes[2]) == 130
    ensures Intersection(boxes[0], boxes[3]) == 30 && Union(boxes[0], boxes[3]) == 130
    ensures Intersection(boxes[1], boxes[2]) == 60 && Union(boxes[1], boxes[2]) == 100
    ensures Intersection(boxes[1], boxes[3]) == 60 && Union(boxes[1], boxes[3]) == 100
    ensures Intersection(boxes[2], boxes[3]) == 20 && Union(boxes[2], boxes[3]) == 100
  {
    [Box(5, 0, 14, 9), Box(0, 0, 9, 9), Box(0, 0, 9, 5), Box(0, 4, 9, 9)]
  }

  lemma ShrinkExampleFirstPass()
    ensures Survivors(ShrinkExample(), 0.3, 0, [3, 2, 1]) == [3, 2]
    ensures Survivors(ShrinkExample(), 0.5, 0, [3, 2, 1]) == [3, 2, 1]
  {
    var boxes := ShrinkExample();
    assert Suppresses(boxes[0], boxes[1], 0.3) && !Suppresses(boxes[0], boxes[1], 0.5);
    assert !Suppresses(boxes[0], boxes[2], 0.5) && !Suppresses(boxes[0], boxes[3], 0.5);
    assert [3, 2, 1][1..] == [2, 1] && [2, 1][1..] == [1] && [1][1..] == [];
  }

  lemma ShrinkExampleSecondPass()
    ensures Survivors(ShrinkExample(), 0.3, 2, [3]) == [3]
    ensures Survivors(ShrinkExample(), 0.5, 1, [3, 2]) == []
  {
    var boxes := ShrinkExample();
    SuppressesSymmetric(boxes[2], boxes[3], 0.3);
    assert !Suppresses(boxes[3], boxes[2], 0.3);
    SuppressesSymmetric(boxes[1], boxes[2], 0.5);
    SuppressesSymmetric(boxes[1], boxes[3], 0.5);
    assert Suppresses(boxes[2], boxes[1], 0.5) && Suppresses(boxes[3], boxes[1], 0.5);
    assert [3][1..] == [] && [3, 2][1..] == [2] && [2][1..] == [];
  }

  /** One pick of the greedy definition, with the pass already computed. */
  lemma GreedyPick(boxes: seq<Box>, t: real, pending: seq<nat>, top: nat, rest: seq<nat>, s: seq<nat>)
    requires top < |boxes| && InRange(rest, |boxes|) && pending == rest + [top]
    requires Survivors(boxes, t, top, rest) == s
    ensures Greedy(boxes, t, pending) == [top] + Greedy(boxes, t, s)
  {
    assert InRange(pending, |boxes|);
    assert pending[..|pending| - 1] == rest;
    GreedyStep(boxes, t, pending);
  }

  /** A pick whose pass drops every other pending box is the last pick. */
  lemma GreedyPickLast(boxes: seq<Box>, t: real, pending: seq<nat>, top: nat, rest: seq<nat>)
    requires top < |boxes| && InRange(rest, |boxes|) && pending == rest + [top]
    requires Survivors(boxes, t, top, rest) == []
    ensures Greedy(boxes, t, pending) == [top]
  {
    GreedyPick(boxes, t, pending, top, rest, []);
    assert Greedy(boxes, t, []) == [];
  }

  /** A pick whose pass leaves a single box c is followed by c alone. */
  lemma PickThenLast(boxes: seq<Box>, t: real, pending: seq<nat>, b: nat, rest: seq<nat>, c: nat)
    requires b < |boxes| && c < |boxes| && InRange(rest, |boxes|)
    requires pending == rest + [b]
    requires Survivors(boxes, t, b, rest) == [c]
    ensures Greedy(boxes, t, pending) == [b, c]
  {
    assert [b] + [c] == [b, c];
    GreedyPickLast(boxes, t, [c], c, []);
    GreedyPick(boxes, t, pending, b, rest, [c]);
  }

  /** Three picks: the pass of the first pick a leaves rest2 + [b], and the
      pass of b leaves only c, so the loop picks a, b and c in turn. */
  lemma PicksThree(boxes: seq<Box>, t: real, pending: seq<nat>, a: nat, rest: seq<nat>, b: nat, rest2: seq<nat>, c: nat)
    requires a < |boxes| && b < |boxes| && c < |boxes|
    requires InRange(rest, |boxes|) && InRange(rest2, |boxes|)
    requires pending == rest + [a]
    requires Survivors(boxes, t, a, rest) == rest2 + [b]
    requires Survivors(boxes, t, b, rest2) == [c]
    ensures Greedy(boxes, t, pending) == [a, b, c]
  {
    assert [a] + [b, c] == [a, b, c];
    PickThenLast(boxes, t, rest2 + [b], b, rest2, c);
    GreedyPick(boxes, t, pending, a, rest, rest2 + [b]);
  }

  /** Two picks: the pass of the first pick a drops nothing, leaving
      rest2 + [b], and the pass of b drops everything left, so the loop
      picks a and b. */
  lemma PicksTwo(boxes: seq<Box>, t: real, pending: seq<nat>, a: nat, rest: seq<nat>, b: nat, rest2: seq<nat>)
    requires a < |boxes| && b < |boxes|
    requires InRange(rest2, |boxes|)
    requires pending == rest + [a] && rest == rest2 + [b]
    requires Survivors(boxes, t, a, rest) == rest
    requires Survivors(boxes, t, b, rest2) == []
    ensures Greedy(boxes, t, pending) == [a, b]
  {
    assert [a] + [b] == [a, b];
    GreedyPickLast(boxes, t, rest, b, rest2);
    GreedyPick(boxes, t, pending, a, rest, rest);
  }

  /** At threshold 0.3 the greedy loop keeps three of the four boxes:
      A drops B, then C is picked and keeps D. */
  lemma ShrinkExampleLowThreshold()
    ensures Greedy(ShrinkExample(), 0.3, [3, 2, 1, 0]) == [0, 2, 3]
  {
    assert [3, 2, 1, 0] == [3, 2, 1] + [0];
    assert Survivors(ShrinkExample(), 0.3, 0, [3, 2, 1]) == [3] + [2] && Survivors(ShrinkExample(), 0.3, 2, [3]) == [3] by {
      ShrinkExampleFirstPass();
      ShrinkExampleSecondPass();
    }
    PicksThree(ShrinkExample(), 0.3, [3, 2, 1, 0], 0, [3, 2, 1], 2, [3], 3);
  }

  /** At threshold 0.5 it keeps two: A drops nothing, then B drops C and D. */
  lemma ShrinkExampleHighThreshold()
    ensures Greedy(ShrinkExample(), 0.5, [3, 2, 1, 0]) == [0, 1]
  {
    assert [3, 2, 1, 0] == [3, 2, 1] + [0] && [3, 2, 1] == [3, 2] + [1];
    assert Survivors(ShrinkExample(), 0.5, 0, [3, 2, 1]) == [3, 2, 1] && Survivors(ShrinkExample(), 0.5, 1, [3, 2]) == [] by {
      ShrinkExampleFirstPass();
      ShrinkExampleSecondPass();
    }
    PicksTwo(ShrinkExample(), 0.5, [3, 2, 1, 0], 0, [3, 2, 1], 1, [3, 2]);
  }

  /** Raising the IoU threshold can make the output smaller, so the size of
      the output is not monotone in the threshold: with the four boxes above
      (scores ascending along the argsort [3, 2, 1, 0]), threshold 0.3 keeps
      three and threshold 0.5 keeps two. */
  lemma RaisingIouThresholdCanShrinkOutput()
    ensures var boxes := ShrinkExample();
      |Greedy(boxes, 0.5, [3, 2, 1, 0])| < |Greedy(boxes, 0.3, [3, 2, 1, 0])|
  {
    ShrinkExampleLowThreshold();
    ShrinkExampleHighThreshold();
  }

  /** Two boxes, (0,0,10,10) scoring 0.9 and (1,1,10,10) scoring 0.5, share
      100 of 121 pixels: at threshold 0.3 only the better one survives,
      whatever argsort the loop starts from. */
  lemma NestedPairKeepsBest(order: seq<nat>)
    requires IsArgSort(order, [0.9, 0.5])
    ensures Greedy([Box(0, 0, 10, 10), Box(1, 1, 10, 10)], 0.3, order) == [0]
  {
    var boxes := [Box(0, 0, 10, 10), Box(1, 1, 10, 10)];
    assert 1 in order && 0 in order;
    assert order == [1, 0];
    assert Suppresses(boxes[0], boxes[1], 0.3);
    assert Survivors(boxes, 0.3, 0, [1]) == [];
    assert order[..1] == [1];
  }

  /** What the suppression loop guarantees when it starts from an ascending
      argsort of the scores. */
  lemma GreedyFromArgSort(boxes: seq<Box>, scores: seq<real>, t: real, order: seq<nat>)
    requires |scores| == |boxes| && IsArgSort(order, scores)
    ensures var g := Greedy(boxes, t, order);
      Distinct(g) && DescendingBy(g, scores) && PairwiseApart(boxes, t, g) && Covered(boxes, scores, t, order, g) &&
      (boxes != [] ==> g != [] && forall j :: 0 <= j < |scores| ==> scores[j] <= scores[g[0]])
  {
    GreedyDistinct(boxes, t, order);
    GreedyDescending(boxes, scores, t, order);
    GreedyApart(boxes, t, order);
    GreedyCovers(boxes, scores, t, order);
    if boxes != [] {
      var g := Greedy(boxes, t, order);
      LastIsBest(order, scores);
      assert g[0] == order[|order| - 1];
      forall j | 0 <= j < |scores|
        ensures scores[j] <= scores[g[0]]
      {
        assert j in order;
      }
    }
  }

  /** Where the entries of order land once i is inserted at position p. */
  lemma InsertShape(order: seq<nat>, i: nat, p: nat)
    requires p <= |order|
    ensures var o := order[..p] + [i] + order[p..];
      |o| == |order| + 1 && o[p] == i &&
      (forall k :: 0 <= k < p ==> o[k] == order[k]) &&
      (forall k :: p < k < |o| ==> o[k] == order[k - 1])
  {
  }

  lemma InsertDistinct(order: seq<nat>, i: nat, p: nat)
    requires InRange(order, i) && Distinct(order) && p <= |order|
    ensures InRange(order[..p] + [i] + order[p..], i + 1)
    ensures Distinct(order[..p] + [i] + order[p..])
  {
    InsertShape(order, i, p);
  }

  lemma InsertCovers(order: seq<nat>, i: nat, p: nat)
    requires p <= |order| && forall j :: 0 <= j < i ==> j in order
    ensures forall j :: 0 <= j < i + 1 ==> j in order[..p] + [i] + order[p..]
  {
    var o := order[..p] + [i] + order[p..];
    InsertShape(order, i, p);
    forall j | 0 <= j < i + 1
      ensures j in o
    {
      if j < i {
        assert j in order;
        var k :| 0 <= k < |order| && order[k] == j;
        if k < p {
          assert o[k] == j;
        } else {
          assert o[k + 1] == j;
        }
      }
    }
  }

  lemma InsertAscending(order: seq<nat>, scores: seq<real>, i: nat, p: nat)
    requires i < |scores| && InRange(order, i) && AscendingBy(order, scores)
    requires p <= |order|
    requires forall k :: 0 <= k < p ==> scores[order[k]] <= scores[i]
    requires forall k :: p <= k < |order| ==> scores[i] < scores[order[k]]
    ensures InRange(order[..p] + [i] + order[p..], |scores|)
    ensures AscendingBy(order[..p] + [i] + order[p..], scores)
  {
    InsertShape(order, i, p);
  }

  /** Inserting index i at the first position whose score exceeds its own
      keeps a partial argsort of indices 0..i-1 an argsort of 0..i. */
  lemma InsertKeepsArgSort(order: seq<nat>, scores: seq<real>, i: nat, p: nat)
    requires i < |scores| && |order| == i && InRange(order, i) && Distinct(order)
    requires forall j :: 0 <= j < i ==> j in order
    requires AscendingBy(order, scores)
    requires p <= |order|
    requires forall k :: 0 <= k < p ==> scores[order[k]] <= scores[i]
    requires forall k :: p <= k < |order| ==> scores[i] < scores[order[k]]
    ensures var o := order[..p] + [i] + order[p..];
      |o| == i + 1 && InRange(o, i + 1) && Distinct(o) && (forall j :: 0 <= j < i + 1 ==> j in o) && AscendingBy(o, scores)
  {
    InsertDistinct(order, i, p);
    InsertCovers(order, i, p);
    InsertAscending(order, scores, i, p);
  }

  /** One ascending argsort of the scores (an insertion sort over indices);
      the suppression below is proved for every ascending argsort. */
  method ArgSort(scores: seq<real>) returns (order: seq<nat>)
    ensures IsArgSort(order, scores)
  {
    order := [];
    for i := 0 to |scores|
      invariant |order| == i && InRange(order, i) && Distinct(order)
      invariant forall j :: 0 <= j < i ==> j in order
      invariant AscendingBy(order, scores)
    {
      var p := 0;
      while p < |order| && scores[order[p]] <= scores[i]
        invariant 0 <= p <= |order|
        invariant forall k :: 0 <= k < p ==> scores[order[k]] <= scores[i]
      {
        p := p + 1;
      }
      InsertKeepsArgSort(order, scores, i, p);
      order := order[..p] + [i] + order[p..];
    }
  }

  /** kept holds, entry by entry, the candidates at the indices picked. */
  predicate PickedFrom(candidates: Detections, picked: seq<nat>, kept: Detections)
    requires candidates.Aligned()
  {
    kept.Aligned() && |kept.boxes| == |picked| && InRange(picked, |candidates.boxes|) &&
    forall k :: 0 <= k < |picked| ==>
      kept.boxes[k] == candidates.boxes[picked[k]] && kept.scores[k] == candidates.scores[picked[k]] &&
      kept.labels[k] == candidates.labels[picked[k]]
  }

  /** The output lists so far hold, entry by entry, the candidates picked:
      PickedFrom stated on the loop's three separate lists, so that the loop
      invariant speaks of its variables directly. */
  predicate Records(candidates: Detections, picked: seq<nat>, boxes: seq<Box>, scores: seq<real>, labels: seq<string>)
    requires candidates.Aligned() && InRange(picked, |candidates.boxes|)
  {
    |boxes| == |scores| == |labels| == |picked| &&
    forall k :: 0 <= k < |picked| ==>
      boxes[k] == candidates.boxes[picked[k]] && scores[k] == candidates.scores[picked[k]] &&
      labels[k] == candidates.labels[picked[k]]
  }

  /** Appending one candidate to the output lists keeps them a record of
      the picks. */
  lemma RecordsAppend(candidates: Detections, picked: seq<nat>, boxes: seq<Box>, scores: seq<real>, labels: seq<string>, index: nat)
    requires candidates.Aligned() && InRange(picked, |candidates.boxes|) && index < |candidates.boxes|
    requires Records(candidates, picked, boxes, scores, labels)
    ensures InRange(picked + [index], |candidates.boxes|)
    ensures Records(candidates, picked + [index], boxes + [candidates.boxes[index]],
      scores + [candidates.scores[index]], labels + [candidates.labels[index]])
  {
    var p := picked + [index];
    var b, s, l := boxes + [candidates.boxes[index]], scores + [candidates.scores[index]], labels + [candidates.labels[index]];
    forall k | 0 <= k < |p|
      ensures p[k] < |candidates.boxes| && b[k] == candidates.boxes[p[k]] && s[k] == candidates.scores[p[k]] && l[k] == candidates.labels[p[k]]
    {
      if k < |picked| {
        assert p[k] == picked[k] && b[k] == boxes[k] && s[k] == scores[k] && l[k] == labels[k];
      }
    }
  }

  lemma AppendOne(picked: seq<nat>, index: nat, tail: seq<nat>)
    ensures (picked + [index]) + tail == picked + ([index] + tail)
  {
  }

  /** One iteration of the loop keeps its invariant: picking the last
      pending index and going on from the survivors of its pass leaves the
      overall picks unchanged. */
  lemma PickNext(boxes: seq<Box>, t: real, order: seq<nat>, pending: seq<nat>, picked: seq<nat>)
    requires pending != []
    requires InRange(order, |boxes|) && InRange(pending, |boxes|)
    requires picked + Greedy(boxes, t, pending) == Greedy(boxes, t, order)
    ensures var index := pending[|pending| - 1];
      (picked + [index]) + Greedy(boxes, t, Survivors(boxes, t, index, pending[..|pending| - 1])) == Greedy(boxes, t, order)
  {
    var index := pending[|pending| - 1];
    GreedyStep(boxes, t, pending);
    AppendOne(picked, index, Greedy(boxes, t, Survivors(boxes, t, index, pending[..|pending| - 1])));
  }

  /** Once nothing is pending, the records hold exactly the greedy picks. */
  lemma NmsFinished(candidates: Detections, t: real, order: seq<nat>, picked: seq<nat>,
                    boxes: seq<Box>, scores: seq<real>, labels: seq<string>)
    requires candidates.Aligned() && InRange(order, |candidates.boxes|) && |order| == |candidates.boxes|
    requires InRange(picked, |candidates.boxes|)
    requires picked + Greedy(candidates.boxes, t, []) == Greedy(candidates.boxes, t, order)
    requires Records(candidates, picked, boxes, scores, labels)
    ensures picked == Greedy(candidates.boxes, t, order)
    ensures PickedFrom(candidates, picked, Detections(labels, boxes, scores)) && |boxes| <= |candidates.boxes|
  {
    assert Greedy(candidates.boxes, t, []) == [];
    assert picked + [] == picked;
  }

  /** The while loop of predict. It pops the best pending index, appends its
      box, score and label to the output lists and keeps only the pending
      boxes that overlap it strictly below t. `order` is the argsort the
      loop starts from; `picked` records which candidate each output came
      from. */
  method NonMaxSuppression(candidates: Detections, order: seq<nat>, t: real) returns (kept: Detections, ghost picked: seq<nat>)
    requires candidates.Aligned()
    requires IsArgSort(order, candidates.scores)
    ensures picked == Greedy(candidates.boxes, t, order)
    ensures PickedFrom(candidates, picked, kept) && |kept.boxes| <= |candidates.boxes|
  {
    var pickedBoxes, pickedScores, pickedLabels := [], [], [];
    picked := [];
    var pending := order;
    while |pending| > 0
      invariant InRange(pending, |candidates.boxes|) && InRange(picked, |candidates.boxes|)
      invariant picked + Greedy(candidates.boxes, t, pending) == Greedy(candidates.boxes, t, order)
      invariant Records(candidates, picked, pickedBoxes, pickedScores, pickedLabels)
      decreases |pending|
    {
      var index := pending[|pending| - 1];
      PickNext(candidates.boxes, t, order, pending, picked);
      RecordsAppend(candidates, picked, pickedBoxes, pickedScores, pickedLabels, index);
      pickedBoxes := pickedBoxes + [candidates.boxes[index]];
      pickedScores := pickedScores + [candidates.scores[index]];
      pickedLabels := pickedLabels + [candidates.labels[index]];
      picked := picked + [index];
      pending := Survivors(candidates.boxes, t, index, pending[..|pending| - 1]);
    }
    NmsFinished(candidates, t, order, picked, pickedBoxes, pickedScores, pickedLabels);
    kept := Detections(pickedLabels, pickedBoxes, pickedScores);
  }
}
