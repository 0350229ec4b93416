/** Score arithmetic: counting correct answers and the rounded percentage. */
module Scoring {
  import opened Wrappers

  /** `Math.round(score / total * 100)` in exact integer arithmetic:
      the nearest integer to 100·score/total, halves rounded up. */
  function RoundPercent(score: int, total: int): (p: int)
    requires total > 0
    ensures 2 * total * p <= 200 * score + total < 2 * total * (p + 1)
  {
    (200 * score + total) / (2 * total)
  }

  /** The percentage shown on the result screen: guarded against an empty
      question set. */
  function DisplayPercentage(score: int, total: int): (p: int)
    ensures total <= 0 ==> p == 0
    ensures total > 0 ==> 2 * total * p <= 200 * score + total < 2 * total * (p + 1)
  {
    if total > 0 then RoundPercent(score, total) else 0
  }

  /** Multiplying by a positive factor keeps the order. */
  lemma {:induction false} MulMonotone(k: int, a: int, b: int)
    requires k > 0 && a <= b
    ensures k * a <= k * b
    decreases b - a
  {
    if a < b {
      assert k * (a + 1) == k * a + k;
      MulMonotone(k, a + 1, b);
    }
  }

  /** Any integer within half of 100·score/total lies in [0, 100], and is
      exact at both ends. */
  lemma NearestPercentInRange(score: int, total: int, k: int, p: int)
    requires 0 <= score <= total && total > 0 && k == 2 * total
    requires k * p <= 200 * score + total < k * (p + 1)
    ensures 0 <= p <= 100
    ensures score == total ==> p == 100
    ensures score == 0 ==> p == 0
  {
    if p > 100 {
      MulMonotone(k, 101, p);
      assert false;
    }
    if p < 0 {
      MulMonotone(k, p + 1, 0);
      assert false;
    }
    if score == total && p < 100 {
      MulMonotone(k, p + 1, 100);
      assert false;
    }
    if score == 0 && p > 0 {
      MulMonotone(k, 1, p);
      assert false;
    }
  }

  /** A score between zero and the total rounds to a percentage between 0
      and 100; a perfect score is exactly 100 and a zero score exactly 0. */
  lemma PercentInRange(score: int, total: int)
    requires 0 <= score <= total && total > 0
    ensures 0 <= RoundPercent(score, total) <= 100
    ensures score == total ==> RoundPercent(score, total) == 100
    ensures score == 0 ==> RoundPercent(score, total) == 0
  {
    NearestPercentInRange(score, total, 2 * total, RoundPercent(score, total));
  }

  /** A higher score never rounds to a lower percentage. */
  lemma PercentMonotone(s1: int, s2: int, total: int)
    requires total > 0 && s1 <= s2
    ensures RoundPercent(s1, total) <= RoundPercent(s2, total)
  {
    var p1 := RoundPercent(s1, total);
    var p2 := RoundPercent(s2, total);
    var k := 2 * total;
    assert k * p1 <= 200 * s1 + total;
    assert 200 * s2 + total < k * (p2 + 1);
    if p1 > p2 {
      MulMonotone(k, p2 + 1, p1);
      assert false;
    }
  }

  /** `answers.filter((a) => a === true).length`. */
  function CountTrue(answers: seq<Option<bool>>): (n: nat)
    ensures n <= |answers|
    ensures n == 0 <==> forall i :: 0 <= i < |answers| ==> answers[i] != Some(true)
    ensures n == |answers| <==> forall i :: 0 <= i < |answers| ==> answers[i] == Some(true)
  {
    if |answers| == 0 then 0
    else (if answers[0] == Some(true) then 1 else 0) + CountTrue(answers[1..])
  }

  /** Overwriting one slot changes the count by exactly what leaves and what
      enters that slot. */
  lemma {:induction false} CountTrueUpdate(answers: seq<Option<bool>>, i: int, v: Option<bool>)
    requires 0 <= i < |answers|
    ensures CountTrue(answers[i := v]) + (if answers[i] == Some(true) then 1 else 0)
         == CountTrue(answers) + (if v == Some(true) then 1 else 0)
  {
    if i > 0 {
      CountTrueUpdate(answers[1..], i - 1, v);
      assert answers[i := v][1..] == answers[1..][i - 1 := v];
    }
  }

  /** A row of unanswered slots counts zero. */
  lemma {:induction false} CountTrueNone(answers: seq<Option<bool>>)
    requires forall i :: 0 <= i < |answers| ==> answers[i] == None
    ensures CountTrue(answers) == 0
  {
    if |answers| > 0 {
      CountTrueNone(answers[1..]);
    }
  }

  /** Only the first `m` slots can hold a true answer: the count is at most `m`. */
  lemma {:induction false} CountTrueBound(answers: seq<Option<bool>>, m: nat)
    requires m <= |answers|
    requires forall i :: m <= i < |answers| ==> answers[i] != Some(true)
    ensures CountTrue(answers) <= m
  {
    if |answers| > 0 {
      if m == 0 {
        CountTrueBound(answers[1..], 0);
      } else {
        CountTrueBound(answers[1..], m - 1);
      }
    }
  }

  /** The first `m` slots true and no true after them: the count is `m`. */
  lemma {:induction false} CountTrueExact(answers: seq<Option<bool>>, m: nat)
    requires m <= |answers|
    requires forall i :: 0 <= i < m ==> answers[i] == Some(true)
    requires forall i :: m <= i < |answers| ==> answers[i] != Some(true)
    ensures CountTrue(answers) == m
  {
    if |answers| > 0 {
      if m == 0 {
        CountTrueExact(answers[1..], 0);
      } else {
        CountTrueExact(answers[1..], m - 1);
      }
    }
  }
}
