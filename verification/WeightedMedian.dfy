/** The accumulate-until-half loop of
    validator/src/basedai_validator/aggregator.py, lines 199-213. */
module WeightedMedian {
  import opened Sorting
  import opened Dictionaries

  /** A score and the stake behind it. */
  type Report = (nat, nat)

  /** The order of Python tuples. */
  function ReportAtMost(a: Report, b: Report): bool {
    a.0 < b.0 || (a.0 == b.0 && a.1 <= b.1)
  }

  function Weight(ws: seq<Report>): nat {
    if ws == [] then 0 else ws[0].1 + Weight(ws[1..])
  }

  /** The weight of the reports whose score is at most `x`. */
  function UpTo(ws: seq<Report>, x: int): nat {
    if ws == [] then 0 else (if ws[0].0 <= x then ws[0].1 else 0) + UpTo(ws[1..], x)
  }

  function Distance(a: int, b: int): nat {
    if a <= b then b - a else a - b
  }

  /** The stake-weighted sum of absolute deviations from `x`. */
  function Cost(ws: seq<Report>, x: int): nat {
    if ws == [] then 0 else ws[0].1 * Distance(ws[0].0, x) + Cost(ws[1..], x)
  }

  // ----- the loop

  /** The first score at which the weight accumulated so far reaches half of `total`. */
  function FirstHalf(ws: seq<Report>, acc: nat, total: nat): Option<nat> {
    if ws == [] then None
    else if (acc + ws[0].1) * 2 >= total then Some(ws[0].0)
    else FirstHalf(ws[1..], acc + ws[0].1, total)
  }

  function Median(ws: seq<Report>): nat
    requires ws != []
  {
    match FirstHalf(ws, 0, Weight(ws))
    case Some(score) => score
    case None => ws[|ws| - 1].0
  }

  method ComputeMedian(weighted: seq<Report>) returns (median: nat)
    requires weighted != []
    ensures median == Median(weighted)
  {
    var weight := Weight(weighted);
    var acc := 0;
    median := weighted[|weighted| - 1].0;
    var i := 0;
    while i < |weighted|
      invariant 0 <= i <= |weighted| && acc >= 0
      invariant median == weighted[|weighted| - 1].0
      invariant FirstHalf(weighted, 0, weight) == FirstHalf(weighted[i..], acc, weight)
    {
      assert weighted[i..][1..] == weighted[i + 1..];
      acc := acc + weighted[i].1;
      if acc * 2 >= weight {
        median := weighted[i].0;
        break;
      }
      i := i + 1;
    }
  }

  // ----- what the loop picks

  /** Less than half of the weight lies below `m`, at least half at or below it. */
  ghost predicate IsMedian(ws: seq<Report>, m: int) {
    2 * UpTo(ws, m - 1) < Weight(ws) <= 2 * UpTo(ws, m)
  }

  lemma {:induction false} UpToOutside(ws: seq<Report>, x: int)
    ensures (forall r :: r in ws ==> r.0 > x) ==> UpTo(ws, x) == 0
    ensures (forall r :: r in ws ==> r.0 <= x) ==> UpTo(ws, x) == Weight(ws)
  {
    if ws != [] {
      assert ws[0] in ws && forall r :: r in ws[1..] ==> r in ws;
      UpToOutside(ws[1..], x);
    }
  }

  /** A median is one of the reported scores. */
  lemma {:induction false} MedianIsReported(ws: seq<Report>, m: int)
    requires UpTo(ws, m - 1) < UpTo(ws, m)
    ensures exists r :: r in ws && r.0 == m
  {
    if ws[0].0 != m {
      MedianIsReported(ws[1..], m);
      var r :| r in ws[1..] && r.0 == m;
      assert r in ws;
    } else {
      assert ws[0] in ws;
    }
  }

  ghost predicate AscendingPositive(ws: seq<Report>) {
    && (forall i, j :: 0 <= i < j < |ws| ==> ws[i].0 <= ws[j].0)
    && (forall i :: 0 <= i < |ws| ==> ws[i].1 > 0)
  }

  /** On ascending reports the loop always stops early, so the fallback of the
      source is never used, and it stops at the median. */
  lemma {:induction false} FirstHalfIsMedian(ws: seq<Report>, acc: nat, total: nat)
    requires ws != [] && AscendingPositive(ws)
    requires total == acc + Weight(ws) && 2 * acc < total
    ensures FirstHalf(ws, acc, total).Some?
    ensures var m := FirstHalf(ws, acc, total).value;
            m >= ws[0].0 && 2 * (acc + UpTo(ws, m - 1)) < total <= 2 * (acc + UpTo(ws, m))
  {
    var rest := ws[1..];
    if (acc + ws[0].1) * 2 >= total {
      var m: int := ws[0].0;
      UpToOutside(ws, m - 1);
    } else {
      assert rest != [];
      FirstHalfIsMedian(rest, acc + ws[0].1, total);
      var m: int := FirstHalf(rest, acc + ws[0].1, total).value;
      if m == ws[0].0 {
        UpToOutside(rest, m - 1);
        UpToOutside(ws, m - 1);
      }
    }
  }

  lemma PositiveWeight(ws: seq<Report>)
    requires ws != [] && AscendingPositive(ws)
    ensures Weight(ws) > 0
  {}

  lemma MedianCorrect(ws: seq<Report>)
    requires ws != [] && AscendingPositive(ws)
    ensures FirstHalf(ws, 0, Weight(ws)).Some?
    ensures IsMedian(ws, Median(ws))
    ensures exists r :: r in ws && r.0 == Median(ws)
  {
    PositiveWeight(ws);
    FirstHalfIsMedian(ws, 0, Weight(ws));
    MedianIsReported(ws, Median(ws));
  }

  // ----- optimality

  /** Every integer costs at least as much as the median, a smaller one strictly more. */
  ghost predicate LeastMinimiser(ws: seq<Report>, m: int) {
    forall x :: Cost(ws, m) <= Cost(ws, x) && (x < m ==> Cost(ws, m) < Cost(ws, x))
  }

  /** Moving down from `m` to `x` saves at most `m - x` per unit of weight below `m`
      and costs that much per unit of the rest. */
  lemma {:induction false} CostBelow(ws: seq<Report>, m: int, x: int)
    requires x < m
    ensures Cost(ws, x) >= Cost(ws, m) + (m - x) * (Weight(ws) - 2 * UpTo(ws, m - 1))
  {
    if ws != [] {
      var rest, r := ws[1..], ws[0];
      CostBelow(rest, m, x);
      var slope := Weight(rest) - 2 * UpTo(rest, m - 1);
      if r.0 <= m - 1 {
        Towards(r.1, Distance(r.0, m), Distance(r.0, x), m - x, slope);
      } else {
        Away(r.1, Distance(r.0, m), Distance(r.0, x), m - x, slope);
      }
    }
  }

  lemma {:induction false} CostAbove(ws: seq<Report>, m: int, x: int)
    requires x > m
    ensures Cost(ws, x) >= Cost(ws, m) + (x - m) * (2 * UpTo(ws, m) - Weight(ws))
  {
    if ws != [] {
      var rest, r := ws[1..], ws[0];
      CostAbove(rest, m, x);
      var slope := 2 * UpTo(rest, m) - Weight(rest);
      if r.0 <= m {
        Away(r.1, Distance(r.0, m), Distance(r.0, x), x - m, slope);
      } else {
        Towards(r.1, Distance(r.0, m), Distance(r.0, x), x - m, slope);
      }
    }
  }

  lemma Towards(w: nat, from: int, to: int, d: nat, slope: int)
    requires to >= from - d
    ensures w * to + d * slope >= w * from + d * (slope - w)
  {}

  lemma Away(w: nat, from: int, to: int, d: nat, slope: int)
    requires to == from + d
    ensures w * to + d * slope == w * from + d * (slope + w)
  {}

  lemma Scale(w: nat, a: int, b: int)
    requires a >= b
    ensures w * a >= w * b
  {}

  /** The median is exactly the least of the integers that minimise the cost. */
  lemma MedianMinimisesCost(ws: seq<Report>, m: int)
    requires IsMedian(ws, m)
    ensures forall y :: LeastMinimiser(ws, y) <==> y == m
  {
    forall x
      ensures Cost(ws, m) <= Cost(ws, x) && (x < m ==> Cost(ws, m) < Cost(ws, x))
    {
      if x < m {
        CostBelow(ws, m, x);
        Scale(m - x, Weight(ws) - 2 * UpTo(ws, m - 1), 1);
      } else if x > m {
        CostAbove(ws, m, x);
        Scale(x - m, 2 * UpTo(ws, m) - Weight(ws), 0);
      }
    }
    assert LeastMinimiser(ws, m);
    forall y | LeastMinimiser(ws, y)
      ensures y == m
    {
      assert Cost(ws, m) <= Cost(ws, y) && Cost(ws, y) <= Cost(ws, m);
      assert y < m ==> Cost(ws, m) < Cost(ws, y);
      assert m < y ==> Cost(ws, y) < Cost(ws, m);
    }
  }

  // ----- independence of the order of the reports

  lemma {:induction false} ConcatWeights(a: seq<Report>, b: seq<Report>, x: int)
    ensures Weight(a + b) == Weight(a) + Weight(b)
    ensures UpTo(a + b, x) == UpTo(a, x) + UpTo(b, x)
  {
    if a == [] {
      assert a + b == b;
    } else {
      assert (a + b)[1..] == a[1..] + b;
      ConcatWeights(a[1..], b, x);
    }
  }

  lemma {:induction false} WeightsByMultiset(a: seq<Report>, b: seq<Report>, x: int)
    requires multiset(a) == multiset(b)
    ensures Weight(a) == Weight(b) && UpTo(a, x) == UpTo(b, x)
  {
    SameElements(a, b);
    if a != [] {
      var front, back := MatchHead(a, b);
      ConcatWeights(front, [a[0]] + back, x);
      ConcatWeights(front, back, x);
      assert ([a[0]] + back)[1..] == back;
      WeightsByMultiset(a[1..], front + back, x);
    }
  }

  lemma ReportOrder()
    ensures TotalPreorder(ReportAtMost)
    ensures forall x: Report, y: Report :: ReportAtMost(x, y) && ReportAtMost(y, x) ==> x == y
  {}

  lemma SortedAscending(reports: seq<Report>)
    requires forall r :: r in reports ==> r.1 > 0
    ensures AscendingPositive(Sort(ReportAtMost, reports))
  {
    var ws := Sort(ReportAtMost, reports);
    ReportOrder();
    SortOrdered(ReportAtMost, reports);
    SortRearranges(ReportAtMost, reports);
    forall i, j | 0 <= i < j < |ws|
      ensures ws[i].0 <= ws[j].0
    {
      assert ReportAtMost(ws[i], ws[j]);
    }
    forall i | 0 <= i < |ws|
      ensures ws[i].1 > 0
    {
      assert ws[i] in ws;
    }
  }

  lemma MedianOfRearrangement(ws: seq<Report>, reports: seq<Report>)
    requires ws != [] && AscendingPositive(ws)
    requires multiset(ws) == multiset(reports)
    ensures IsMedian(reports, Median(ws))
    ensures Weight(reports) == Weight(ws)
  {
    var m: int := Median(ws);
    MedianCorrect(ws);
    WeightsByMultiset(ws, reports, m);
    WeightsByMultiset(ws, reports, m - 1);
  }

  /** Sorting first, as the source does, gives the median of the reports in any order. */
  lemma SortedMedian(reports: seq<Report>)
    requires reports != [] && forall r :: r in reports ==> r.1 > 0
    ensures Sort(ReportAtMost, reports) != []
    ensures IsMedian(reports, Median(Sort(ReportAtMost, reports)))
    ensures Weight(Sort(ReportAtMost, reports)) == Weight(reports)
  {
    SortedAscending(reports);
    SortRearranges(ReportAtMost, reports);
    MedianOfRearrangement(Sort(ReportAtMost, reports), reports);
  }
}
