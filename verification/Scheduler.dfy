/** The scheduler: proportional allocation of work items, and the choice of a worker for one task. */
module Scheduler {
  import opened Prelude

  datatype CandidateScore = CandidateScore(workerId: string, eligible: bool, finalScore: real, isExcludedForTask: bool)

  // ---------------------------------------------------------------- proportional allocation

  /** Math.round: halves go up. */
  function Round(x: real): int {
    (x + 0.5).Floor
  }

  /** candidateScores.filter(...) */
  function Sharing(cs: seq<CandidateScore>): (es: seq<CandidateScore>)
    ensures forall e :: e in es <==> e in cs && e.eligible && !e.isExcludedForTask && e.finalScore > 0.0
  {
    if cs == [] then []
    else
      var c := cs[|cs| - 1];
      Sharing(cs[..|cs| - 1]) + if c.eligible && !c.isExcludedForTask && c.finalScore > 0.0 then [c] else []
  }

  function TotalScore(es: seq<CandidateScore>): real {
    if es == [] then 0.0 else TotalScore(es[..|es| - 1]) + es[|es| - 1].finalScore
  }

  /** What an exact division would give a candidate. */
  function Proportional(c: CandidateScore, totalScore: real, totalItems: int): real
    requires totalScore != 0.0
  {
    c.finalScore / totalScore * totalItems as real
  }

  /** The shares of all but the last candidate, added up. */
  function Rounded(es: seq<CandidateScore>, totalScore: real, totalItems: int): int
    requires totalScore != 0.0
  {
    if es == [] then 0
    else Rounded(es[..|es| - 1], totalScore, totalItems) + Round(Proportional(es[|es| - 1], totalScore, totalItems))
  }

  lemma {:induction false} TotalScorePositive(es: seq<CandidateScore>)
    requires forall e | e in es :: e.finalScore > 0.0
    ensures TotalScore(es) >= 0.0 && (es != [] ==> TotalScore(es) > 0.0)
  {
    if es != [] {
      TotalScorePositive(es[..|es| - 1]);
    }
  }

  predicate Positive(es: seq<CandidateScore>) {
    es != [] && TotalScore(es) > 0.0 && forall i | 0 <= i < |es| :: es[i].finalScore > 0.0
  }

  /** The items candidate i gets: its rounded share, or for the last one what is left. */
  function Share(es: seq<CandidateScore>, totalItems: int, i: nat): int
    requires Positive(es) && i < |es|
  {
    if i == |es| - 1 then totalItems - Rounded(es[..i], TotalScore(es), totalItems)
    else Round(Proportional(es[i], TotalScore(es), totalItems))
  }

  /** The map after the first n candidates have been given their shares. */
  function Allocation(es: seq<CandidateScore>, totalItems: int, n: nat): map<string, int>
    requires n <= |es| && (n > 0 ==> Positive(es))
  {
    if n == 0 then map[] else Allocation(es, totalItems, n - 1)[es[n - 1].workerId := Share(es, totalItems, n - 1)]
  }

  method AllocateMultiChunkWorkload(totalItems: int, candidateScores: seq<CandidateScore>)
    returns (allocation: map<string, int>)
    ensures var es := Sharing(candidateScores);
            if es == [] || totalItems <= 0 then allocation == map[]
            else Positive(es) && allocation == Allocation(es, totalItems, |es|)
  {
    var eligible := Sharing(candidateScores);
    if |eligible| == 0 || totalItems <= 0 {
      return map[];
    }
    TotalScorePositive(eligible);
    allocation := ShareOut(totalItems, eligible);
  }

  /** The loop over the eligible candidates. */
  method ShareOut(totalItems: int, eligible: seq<CandidateScore>) returns (allocation: map<string, int>)
    requires Positive(eligible)
    ensures allocation == Allocation(eligible, totalItems, |eligible|)
  {
    var totalScore := TotalScore(eligible);
    var assignedTotal := 0;
    allocation := map[];
    for i := 0 to |eligible|
      invariant i < |eligible| ==> assignedTotal == Rounded(eligible[..i], totalScore, totalItems)
      invariant allocation == Allocation(eligible, totalItems, i)
    {
      var c := eligible[i];
      if i == |eligible| - 1 {
        allocation := allocation[c.workerId := totalItems - assignedTotal];
      } else {
        var count := Round(Proportional(c, totalScore, totalItems));
        assert eligible[..i + 1][..i] == eligible[..i];
        allocation := allocation[c.workerId := count];
        assignedTotal := assignedTotal + count;
      }
    }
  }

  predicate DistinctWorkers(es: seq<CandidateScore>) {
    forall i, j | 0 <= i < j < |es| :: es[i].workerId != es[j].workerId
  }

  /** Distinct workers all keep the share they were given, and nobody else gets any. */
  lemma {:induction false} AllocationHolds(es: seq<CandidateScore>, totalItems: int, n: nat)
    requires Positive(es) && n <= |es| && DistinctWorkers(es)
    ensures forall i: nat | i < n ::
              es[i].workerId in Allocation(es, totalItems, n)
              && Allocation(es, totalItems, n)[es[i].workerId] == Share(es, totalItems, i)
    ensures forall w | w in Allocation(es, totalItems, n) :: exists i: nat :: i < n && es[i].workerId == w
  {
    if n > 0 {
      AllocationHolds(es, totalItems, n - 1);
      assert es[n - 1].workerId in Allocation(es, totalItems, n);
    }
  }

  /** The sum of the first n shares. */
  function ShareSum(es: seq<CandidateScore>, totalItems: int, n: nat): int
    requires Positive(es) && n <= |es|
  {
    if n == 0 then 0 else ShareSum(es, totalItems, n - 1) + Share(es, totalItems, n - 1)
  }

  lemma {:induction false} ShareSumRounded(es: seq<CandidateScore>, totalItems: int, n: nat)
    requires Positive(es) && n < |es|
    ensures ShareSum(es, totalItems, n) == Rounded(es[..n], TotalScore(es), totalItems)
  {
    if n > 0 {
      ShareSumRounded(es, totalItems, n - 1);
      assert es[..n][..n - 1] == es[..n - 1];
    }
  }

  /** The shares add up to exactly the items there are. */
  lemma SharesSumToTotal(es: seq<CandidateScore>, totalItems: int)
    requires Positive(es)
    ensures ShareSum(es, totalItems, |es|) == totalItems
  {
    ShareSumRounded(es, totalItems, |es| - 1);
  }

  /** Rounding a share moves it by at most one half, and never below zero. */
  lemma ShareWithinHalf(es: seq<CandidateScore>, totalItems: nat, i: nat)
    requires Positive(es) && i < |es| - 1
    ensures -0.5 <= Share(es, totalItems, i) as real - Proportional(es[i], TotalScore(es), totalItems) <= 0.5
    ensures Share(es, totalItems, i) >= 0
  {
    ProportionalNonNegative(es[i], TotalScore(es), totalItems);
  }

  lemma ProportionalNonNegative(c: CandidateScore, totalScore: real, totalItems: nat)
    requires c.finalScore > 0.0 && totalScore > 0.0
    ensures Proportional(c, totalScore, totalItems) >= 0.0
  {
    var q := c.finalScore / totalScore;
    assert q >= 0.0;
    assert q * totalItems as real >= 0.0;
  }

  function ProportionalSum(es: seq<CandidateScore>, totalScore: real, totalItems: int): real
    requires totalScore != 0.0
  {
    if es == [] then 0.0
    else ProportionalSum(es[..|es| - 1], totalScore, totalItems) + Proportional(es[|es| - 1], totalScore, totalItems)
  }

  lemma {:induction false} ProportionalSumClosed(es: seq<CandidateScore>, totalScore: real, totalItems: int)
    requires totalScore > 0.0
    ensures ProportionalSum(es, totalScore, totalItems) == TotalScore(es) / totalScore * totalItems as real
  {
    if es != [] {
      var n := |es| - 1;
      ProportionalSumClosed(es[..n], totalScore, totalItems);
      ProportionAdds(TotalScore(es[..n]), es[n].finalScore, totalScore, totalItems as real);
    }
  }

  /** Exact shares add up to the items there are. */
  lemma ProportionalSumIsTotal(es: seq<CandidateScore>, totalItems: int)
    requires Positive(es)
    ensures ProportionalSum(es, TotalScore(es), totalItems) == totalItems as real
  {
    ProportionalSumClosed(es, TotalScore(es), totalItems);
    assert TotalScore(es) / TotalScore(es) == 1.0;
  }

  lemma RoundWithinHalf(x: real)
    ensures -0.5 <= Round(x) as real - x <= 0.5
  {
  }

  lemma {:induction false} RoundingDrift(es: seq<CandidateScore>, totalScore: real, totalItems: int)
    requires totalScore > 0.0
    ensures var drift := Rounded(es, totalScore, totalItems) as real - ProportionalSum(es, totalScore, totalItems);
            -(|es| as real / 2.0) <= drift <= |es| as real / 2.0
  {
    if es != [] {
      RoundingDrift(es[..|es| - 1], totalScore, totalItems);
      RoundWithinHalf(Proportional(es[|es| - 1], totalScore, totalItems));
    }
  }

  lemma ProportionAdds(a: real, b: real, total: real, items: real)
    requires total > 0.0
    ensures (a + b) / total * items == a / total * items + b / total * items
  {
    assert (a + b) / total == a / total + b / total;
  }

  /** The last candidate takes up all the rounding: at most one half for each of the others. */
  lemma LastShareDrift(es: seq<CandidateScore>, totalItems: int)
    requires Positive(es)
    ensures var n := |es|;
            var drift := Share(es, totalItems, n - 1) as real - Proportional(es[n - 1], TotalScore(es), totalItems);
            -((n - 1) as real / 2.0) <= drift <= (n - 1) as real / 2.0
  {
    RoundingDrift(es[..|es| - 1], TotalScore(es), totalItems);
    ProportionalSumIsTotal(es, totalItems);
  }

  /**
   * A last proportional share of at least half an item for each other candidate leaves no share
   * negative; in general the last one is what the others' rounded shares leave.
   */
  lemma LargeLastShare(es: seq<CandidateScore>, totalItems: nat)
    requires Positive(es)
    ensures NoShareNegative(es, totalItems) <==> Rounded(es[..|es| - 1], TotalScore(es), totalItems) <= totalItems
    ensures Proportional(es[|es| - 1], TotalScore(es), totalItems) >= (|es| - 1) as real / 2.0 ==>
              NoShareNegative(es, totalItems)
  {
    LastShareDrift(es, totalItems);
    assert Share(es, totalItems, |es| - 1) == totalItems - Rounded(es[..|es| - 1], TotalScore(es), totalItems);
    forall i: nat | i < |es| - 1 ensures Share(es, totalItems, i) >= 0 {
      ShareWithinHalf(es, totalItems, i);
    }
  }

  ghost predicate NoShareNegative(es: seq<CandidateScore>, totalItems: nat)
    requires Positive(es)
  {
    forall i: nat | i < |es| :: Share(es, totalItems, i) >= 0
  }

  /** Up to three candidates: two roundings cannot take more than one item too many. */
  lemma FewCandidates(es: seq<CandidateScore>, totalItems: nat)
    requires Positive(es) && |es| <= 3
    ensures NoShareNegative(es, totalItems)
  {
    LastShareDrift(es, totalItems);
    LargeLastShare(es, totalItems);
    LastProportionPositive(es, totalItems);
  }

  lemma LastProportionPositive(es: seq<CandidateScore>, totalItems: nat)
    requires Positive(es)
    ensures totalItems > 0 ==> Proportional(es[|es| - 1], TotalScore(es), totalItems) > 0.0
    ensures totalItems == 0 ==> Rounded(es[..|es| - 1], TotalScore(es), totalItems) == 0
  {
    if totalItems == 0 {
      RoundedOfNothing(es[..|es| - 1], TotalScore(es));
    } else {
      var q := es[|es| - 1].finalScore / TotalScore(es);
      assert q > 0.0;
      assert q * totalItems as real > 0.0;
    }
  }

  lemma {:induction false} RoundedOfNothing(es: seq<CandidateScore>, totalScore: real)
    requires totalScore > 0.0
    ensures Rounded(es, totalScore, 0) == 0
  {
    if es != [] {
      RoundedOfNothing(es[..|es| - 1], totalScore);
      assert Proportional(es[|es| - 1], totalScore, 0) == 0.0;
    }
  }

  /** One item: of positive scores that leave some for the last candidate, at most one makes up half. */
  lemma {:induction false} OneItem(es: seq<CandidateScore>, totalScore: real)
    requires totalScore > 0.0 && TotalScore(es) < totalScore && forall i | 0 <= i < |es| :: es[i].finalScore > 0.0
    ensures Rounded(es, totalScore, 1) <= 1
    ensures Rounded(es, totalScore, 1) == 1 ==> TotalScore(es) >= totalScore / 2.0
    ensures TotalScore(es) >= 0.0
  {
    if es != [] {
      var c := es[|es| - 1];
      OneItem(es[..|es| - 1], totalScore);
      RoundOfFraction(c.finalScore, totalScore);
    }
  }

  lemma RoundOfFraction(score: real, totalScore: real)
    requires 0.0 < score < totalScore
    ensures 0 <= Round(score / totalScore * 1 as real) <= 1
    ensures Round(score / totalScore * 1 as real) == 1 ==> score >= totalScore / 2.0
  {
    var q := score / totalScore;
    assert q * totalScore == score;
    assert q * 1 as real == q;
    if q >= 1.0 {
      ScaleMonotone(1.0, q, totalScore);
    }
    if q >= 0.5 {
      ScaleMonotone(0.5, q, totalScore);
    }
  }

  lemma ScaleMonotone(a: real, b: real, k: real)
    requires a <= b && k > 0.0
    ensures a * k <= b * k
  {
    assert (b - a) * k >= 0.0;
  }

  /** Scores that add up to the items: all but the last few take one item too many when rounded. */
  function OversharedScore(n: nat, totalItems: nat, i: nat): real
    requires n >= 4
  {
    if i == 0 then totalItems as real - 1.5 else if i < 3 then 0.5 else 0.5 / (n - 3) as real
  }

  /** Two items or more, and at least four candidates, each with a name of its own. */
  function Overshared(n: nat, totalItems: nat): (es: seq<CandidateScore>)
    requires n >= 4 && totalItems >= 2
    ensures |es| == n && forall i: nat | i < n :: es[i].finalScore == OversharedScore(n, totalItems, i)
    ensures DistinctWorkers(es) && forall i: nat | i < n :: es[i].eligible && !es[i].isExcludedForTask
  {
    var es := seq(n, i requires 0 <= i < n => CandidateScore(Name(i), true, OversharedScore(n, totalItems, i), false));
    assert forall i, j | 0 <= i < j < n :: |es[i].workerId| < |es[j].workerId|;
    es
  }

  function Name(i: nat): (name: string)
    ensures |name| == i + 1
  {
    seq(i + 1, _ => 'w')
  }

  /** k copies of q, added up. */
  function Copies(k: nat, q: real): real {
    if k == 0 then 0.0 else Copies(k - 1, q) + q
  }

  lemma {:induction false} CopiesIsProduct(k: nat, q: real)
    ensures Copies(k, q) == k as real * q
  {
    if k > 0 {
      CopiesIsProduct(k - 1, q);
      assert (k - 1) as real * q + q == k as real * q;
    }
  }

  /** With scores that add up to the items, a score is its own proportional share. */
  lemma OwnProportion(c: CandidateScore, totalItems: nat)
    requires totalItems > 0
    ensures Proportional(c, totalItems as real, totalItems) == c.finalScore
  {
  }

  lemma SmallShare(c: CandidateScore, n: nat, totalItems: nat)
    requires n >= 5 && totalItems > 0 && c.finalScore == 0.5 / (n - 3) as real
    ensures Round(Proportional(c, totalItems as real, totalItems)) == 0
  {
    var q := c.finalScore;
    assert q * (n - 3) as real == 0.5;
    assert 0.0 < q <= 0.25;
    OwnProportion(c, totalItems);
  }

  lemma FirstThree(es: seq<CandidateScore>, totalItems: nat)
    requires totalItems >= 2 && |es| >= 3
    requires es[0].finalScore == totalItems as real - 1.5 && es[1].finalScore == es[2].finalScore == 0.5
    ensures TotalScore(es[..3]) == totalItems as real - 0.5
    ensures Rounded(es[..3], totalItems as real, totalItems) == totalItems + 1
  {
    var one, two, three := es[..1], es[..2], es[..3];
    assert one[..0] == [] && two[..1] == one && three[..2] == two;
    OwnProportion(es[0], totalItems);
    OwnProportion(es[1], totalItems);
    OwnProportion(es[2], totalItems);
    assert TotalScore(one) == totalItems as real - 1.5;
    assert TotalScore(two) == totalItems as real - 1.0;
    assert Round(totalItems as real - 1.5) == totalItems - 1;
    assert Rounded(one, totalItems as real, totalItems) == totalItems - 1;
    assert Rounded(two, totalItems as real, totalItems) == totalItems;
  }

  lemma {:induction false} SmallRestTotal(es: seq<CandidateScore>, q: real, k: nat)
    requires 3 + k <= |es| && forall i | 3 <= i < |es| :: es[i].finalScore == q
    ensures TotalScore(es[..3 + k]) == TotalScore(es[..3]) + Copies(k, q)
  {
    if k > 0 {
      SmallRestTotal(es, q, k - 1);
      assert es[..3 + k][..3 + k - 1] == es[..3 + k - 1];
    }
  }

  lemma {:induction false} SmallRestRounded(es: seq<CandidateScore>, totalItems: nat, k: nat)
    requires totalItems >= 2 && |es| >= 5 && 3 + k <= |es|
    requires forall i | 3 <= i < |es| :: es[i].finalScore == 0.5 / (|es| - 3) as real
    ensures Rounded(es[..3 + k], totalItems as real, totalItems) == Rounded(es[..3], totalItems as real, totalItems)
  {
    if k > 0 {
      SmallRestRounded(es, totalItems, k - 1);
      SmallShare(es[3 + k - 1], |es|, totalItems);
      assert es[..3 + k][..3 + k - 1] == es[..3 + k - 1];
    }
  }

  lemma HalfInParts(m: nat)
    requires m > 0
    ensures Copies(m, 0.5 / m as real) == 0.5
  {
    CopiesIsProduct(m, 0.5 / m as real);
  }

  lemma OversharedTotal(n: nat, totalItems: nat)
    requires n >= 4 && totalItems >= 2
    ensures TotalScore(Overshared(n, totalItems)) == totalItems as real
  {
    var es := Overshared(n, totalItems);
    FirstThree(es, totalItems);
    SmallRestTotal(es, 0.5 / (n - 3) as real, n - 3);
    HalfInParts(n - 3);
    assert es[..n] == es;
  }

  lemma OversharedRounded(n: nat, totalItems: nat)
    requires n >= 4 && totalItems >= 2
    ensures Rounded(Overshared(n, totalItems)[..n - 1], totalItems as real, totalItems) == totalItems + 1
  {
    var es := Overshared(n, totalItems);
    FirstThree(es, totalItems);
    if n > 4 {
      SmallRestRounded(es, totalItems, n - 4);
    }
  }

  lemma {:induction false} AllShare(es: seq<CandidateScore>)
    requires forall e | e in es :: e.eligible && !e.isExcludedForTask && e.finalScore > 0.0
    ensures Sharing(es) == es
  {
    if es != [] {
      AllShare(es[..|es| - 1]);
      assert es == es[..|es| - 1] + [es[|es| - 1]];
    }
  }

  lemma OversharedPositive(n: nat, totalItems: nat)
    requires n >= 4 && totalItems >= 2
    ensures Positive(Overshared(n, totalItems)) && TotalScore(Overshared(n, totalItems)) == totalItems as real
  {
    var es := Overshared(n, totalItems);
    OversharedTotal(n, totalItems);
    forall i: nat | i < n ensures es[i].finalScore > 0.0 {
      assert es[i].finalScore == OversharedScore(n, totalItems, i);
    }
  }

  lemma OversharedEligible(n: nat, totalItems: nat)
    requires n >= 4 && totalItems >= 2
    ensures Sharing(Overshared(n, totalItems)) == Overshared(n, totalItems)
  {
    OversharedPositive(n, totalItems);
    AllShare(Overshared(n, totalItems));
  }

  lemma OversharedShare(n: nat, totalItems: nat)
    requires n >= 4 && totalItems >= 2
    ensures var es := Overshared(n, totalItems); Positive(es) && Share(es, totalItems, n - 1) == -1
  {
    OversharedPositive(n, totalItems);
    OversharedRounded(n, totalItems);
  }

  /** All of them are eligible, and the last one is allocated -1 items. */
  lemma OversharedIsNegative(n: nat, totalItems: nat)
    requires n >= 4 && totalItems >= 2
    ensures var es := Overshared(n, totalItems);
            && Positive(es) && DistinctWorkers(es) && Sharing(es) == es
            && es[n - 1].workerId in Allocation(es, totalItems, n)
            && Allocation(es, totalItems, n)[es[n - 1].workerId] == -1
  {
    var es := Overshared(n, totalItems);
    OversharedShare(n, totalItems);
    OversharedEligible(n, totalItems);
    AllocationHolds(es, totalItems, n);
  }

  /**
   * Allocation to distinct workers is free of negative counts, whatever the scores, exactly for up to
   * three candidates or up to one item.
   */
  lemma SharesAreCountsIff(n: nat, totalItems: nat)
    ensures (forall es | Positive(es) && DistinctWorkers(es) && |es| == n :: NoShareNegative(es, totalItems)) <==>
            n <= 3 || totalItems <= 1
  {
    if n <= 3 {
      forall es | Positive(es) && |es| == n ensures NoShareNegative(es, totalItems) {
        FewCandidates(es, totalItems);
      }
    } else if totalItems <= 1 {
      forall es | Positive(es) && |es| == n ensures NoShareNegative(es, totalItems) {
        AtMostOneItem(es, totalItems);
      }
    } else {
      OversharedShare(n, totalItems);
      assert !NoShareNegative(Overshared(n, totalItems), totalItems);
    }
  }

  lemma AtMostOneItem(es: seq<CandidateScore>, totalItems: nat)
    requires Positive(es) && totalItems <= 1
    ensures NoShareNegative(es, totalItems)
  {
    LargeLastShare(es, totalItems);
    if totalItems == 0 {
      LastProportionPositive(es, totalItems);
    } else {
      OneItem(es[..|es| - 1], TotalScore(es));
    }
  }

  /**
   * With twice as many equally scored workers as items, everyone but the last gets one item and the last
   * gets 1 - items: negative from two items on, and as far off as the bound above allows.
   */
  lemma LastShareCanBeNegative(es: seq<CandidateScore>, items: nat)
    requires items > 0 && |es| == 2 * items && forall i | 0 <= i < |es| :: es[i].finalScore == 1.0
    ensures Positive(es) && Share(es, items, |es| - 1) == 1 - items
    ensures forall i: nat | i < |es| - 1 :: Share(es, items, i) == 1
  {
    assert es[..|es|] == es;
    TotalOfEqual(es, |es|);
    RoundedOfEqual(es, items, |es| - 1);
  }

  lemma {:induction false} TotalOfEqual(es: seq<CandidateScore>, n: nat)
    requires n <= |es| && forall i | 0 <= i < |es| :: es[i].finalScore == 1.0
    ensures TotalScore(es[..n]) == n as real
  {
    if n > 0 {
      TotalOfEqual(es, n - 1);
      assert es[..n][..n - 1] == es[..n - 1];
    }
  }

  lemma {:induction false} RoundedOfEqual(es: seq<CandidateScore>, items: nat, n: nat)
    requires items > 0 && n <= |es| && forall i | 0 <= i < |es| :: es[i].finalScore == 1.0
    ensures Rounded(es[..n], (2 * items) as real, items) == n
    ensures forall i: nat | i < |es| :: Round(Proportional(es[i], (2 * items) as real, items)) == 1
  {
    HalfAnItem(items);
    if n > 0 {
      RoundedOfEqual(es, items, n - 1);
      assert es[..n][..n - 1] == es[..n - 1];
    }
  }

  lemma HalfAnItem(items: nat)
    requires items > 0
    ensures 1.0 / (2 * items) as real * items as real == 0.5
  {
  }

  // ---------------------------------------------------------------- choosing a worker

  type Megabytes = m: real | m > 0.0 witness 1.0

  datatype Telemetry = Telemetry(
    thermalState: Option<int>,
    cpuUtilization: Option<real>,
    batteryLevel: Option<real>,
    isCharging: bool,
    availableRamMb: Option<real>)

  /** A worker with what the scheduler's own maps and the task store know about it. */
  datatype WorkerState = WorkerState(
    deviceId: string,
    isEligible: bool,
    telemetry: Telemetry,
    cpuCores: nat,
    totalRamMb: Megabytes,
    hasGpu: bool,
    supportedKernels: seq<string>,
    observedThroughput: Option<real>,
    inFlightCount: nat,
    failureCount: nat)

  datatype Weights = Weights(throughput: real, capacity: real, transferCost: real, instability: real)

  /** A task's demands; a core count of 0 is none given. */
  datatype Request = Request(
    minCpuCores: nat,
    minRamMb: real,
    requiresGpu: bool,
    kernelId: string,
    computationDescriptor: string,
    ignoreBattery: bool,
    weights: Weights)

  predicate Healthy(q: Request, t: Telemetry) {
    && !(t.thermalState.Some? && t.thermalState.value >= 2)
    && !(t.cpuUtilization.Some? && t.cpuUtilization.value >= 0.90)
    && (q.ignoreBattery || t.isCharging || t.batteryLevel == None || t.batteryLevel.value >= 0.20)
  }

  predicate Capable(q: Request, w: WorkerState) {
    && w.cpuCores >= (if q.minCpuCores == 0 then 1 else q.minCpuCores) && w.totalRamMb >= q.minRamMb
    && (q.requiresGpu ==> w.hasGpu)
    && (w.supportedKernels == [] || q.kernelId in w.supportedKernels || q.computationDescriptor in w.supportedKernels)
  }

  /** The hard eligibility pre-filter. */
  predicate Passes(q: Request, w: WorkerState) {
    w.isEligible && Healthy(q, w.telemetry) && Capable(q, w)
  }

  function Least(a: real, b: real): real {
    if a < b then a else b
  }

  function Most(a: real, b: real): real {
    if a > b then a else b
  }

  function Or(given: Option<real>, otherwise: real): real {
    if given.Some? then given.value else otherwise
  }

  function ThroughputScore(w: WorkerState): real {
    Least(1.0, Or(w.observedThroughput, (w.cpuCores * 100) as real + if w.hasGpu then 500.0 else 0.0) / 2000.0)
  }

  function CapacityScore(w: WorkerState): real {
    var inFlightLoad := Least(0.9, w.inFlightCount as real * 0.45);
    var cpuHeadroom := Most(0.01, 1.0 - Or(w.telemetry.cpuUtilization, 0.3) - inFlightLoad);
    var ramHeadroom := Least(1.0, Or(w.telemetry.availableRamMb, 4096.0) / w.totalRamMb);
    Most(0.0, Least(1.0, 0.5 * cpuHeadroom + 0.5 * ramHeadroom))
  }

  function InstabilityPenalty(w: WorkerState): real {
    Least(1.0, w.failureCount as real * 0.30)
  }

  function Weighed(k: Weights, throughputScore: real, capacityScore: real, instabilityPenalty: real): real {
    k.throughput * throughputScore + k.capacity * capacityScore - k.transferCost * 0.10
    - k.instability * instabilityPenalty
  }

  /** The weighted sum of the components. */
  function WeightedSum(q: Request, w: WorkerState): real {
    Weighed(q.weights, ThroughputScore(w), CapacityScore(w), InstabilityPenalty(w)) - w.inFlightCount as real * 0.50
  }

  /** The final score: never negative, and rounded to four places. */
  function ScoreOf(q: Request, w: WorkerState): (score: real)
    ensures score >= 0.0
  {
    Round(Most(0.0, WeightedSum(q, w)) * 10000.0) as real / 10000.0
  }

  // What a score says about a worker.

  /** Items per second, observed or else estimated from the hardware. */
  function Throughput(w: WorkerState): real {
    if w.observedThroughput.Some? then w.observedThroughput.value
    else (w.cpuCores * 100) as real + if w.hasGpu then 500.0 else 0.0
  }

  function Utilization(w: WorkerState): real {
    if w.telemetry.cpuUtilization.Some? then w.telemetry.cpuUtilization.value else 0.3
  }

  function RamShare(w: WorkerState): real {
    (if w.telemetry.availableRamMb.Some? then w.telemetry.availableRamMb.value else 4096.0) / w.totalRamMb
  }

  /** Worker w is as fast as v, has as much to spare, and has failed and taken on no more. */
  predicate NoWorse(w: WorkerState, v: WorkerState) {
    && Throughput(w) >= Throughput(v) && Utilization(w) <= Utilization(v) && RamShare(w) >= RamShare(v)
    && w.inFlightCount <= v.inFlightCount && w.failureCount <= v.failureCount
  }

  predicate NonNegative(weights: Weights) {
    weights.throughput >= 0.0 && weights.capacity >= 0.0 && weights.transferCost >= 0.0 && weights.instability >= 0.0
  }

  lemma ScaleWeakly(a: real, b: real, k: real)
    requires a <= b && k >= 0.0
    ensures k * a <= k * b
  {
    assert k * (b - a) >= 0.0;
  }

  lemma CountScale(a: nat, b: nat, k: real)
    requires a <= b && k >= 0.0
    ensures a as real * k <= b as real * k
  {
    assert (b - a) as real * k >= 0.0;
  }

  lemma CapacityMonotone(w: WorkerState, v: WorkerState)
    requires NoWorse(w, v)
    ensures CapacityScore(w) >= CapacityScore(v)
  {
    CountScale(w.inFlightCount, v.inFlightCount, 0.45);
  }

  lemma WeighedMonotone(k: Weights, t: real, c: real, i: real, t': real, c': real, i': real)
    requires NonNegative(k) && t >= t' && c >= c' && i <= i'
    ensures Weighed(k, t, c, i) >= Weighed(k, t', c', i')
  {
    ScaleWeakly(t', t, k.throughput);
    ScaleWeakly(c', c, k.capacity);
    ScaleWeakly(i, i', k.instability);
  }

  lemma InstabilityMonotone(w: WorkerState, v: WorkerState)
    requires w.failureCount <= v.failureCount
    ensures InstabilityPenalty(w) <= InstabilityPenalty(v)
  {
    CountScale(w.failureCount, v.failureCount, 0.30);
  }

  lemma ThroughputMonotone(w: WorkerState, v: WorkerState)
    requires Throughput(w) >= Throughput(v)
    ensures ThroughputScore(w) >= ThroughputScore(v)
  {
  }

  lemma SumMonotone(q: Request, w: WorkerState, v: WorkerState)
    requires NonNegative(q.weights) && NoWorse(w, v)
    ensures WeightedSum(q, w) >= WeightedSum(q, v) + (v.inFlightCount - w.inFlightCount) as real * 0.50
  {
    ThroughputMonotone(w, v);
    CapacityMonotone(w, v);
    InstabilityMonotone(w, v);
    WeighedMonotone(q.weights, ThroughputScore(w), CapacityScore(w), InstabilityPenalty(w),
                    ThroughputScore(v), CapacityScore(v), InstabilityPenalty(v));
  }

  lemma RoundMonotone(x: real, y: real)
    requires x <= y
    ensures Round(x) <= Round(y)
  {
  }

  /**
   * A worker that is no worse in any respect never scores lower. So failures and tasks in flight never
   * raise a score, and throughput, idle processors and free memory never lower it.
   */
  lemma ScoreMonotone(q: Request, w: WorkerState, v: WorkerState)
    requires NonNegative(q.weights) && NoWorse(w, v)
    ensures ScoreOf(q, w) >= ScoreOf(q, v) >= 0.0
  {
    SumMonotone(q, w, v);
    RoundMonotone(Most(0.0, WeightedSum(q, v)) * 10000.0, Most(0.0, WeightedSum(q, w)) * 10000.0);
  }

  /** Before rounding, every task in flight costs at least 0.5, and every failure up to the third 0.3 of its weight. */
  lemma ScorePenalties(q: Request, w: WorkerState)
    requires NonNegative(q.weights)
    ensures WeightedSum(q, w.(inFlightCount := w.inFlightCount + 1)) <= WeightedSum(q, w) - 0.5
    ensures w.failureCount <= 2 ==>
              WeightedSum(q, w.(failureCount := w.failureCount + 1)) == WeightedSum(q, w) - q.weights.instability * 0.3
    ensures w.failureCount >= 4 ==> WeightedSum(q, w.(failureCount := w.failureCount + 1)) == WeightedSum(q, w)
  {
    SumMonotone(q, w, w.(inFlightCount := w.inFlightCount + 1));
    FailurePenalty(q, w);
  }

  lemma FailurePenalty(q: Request, w: WorkerState)
    ensures w.failureCount <= 2 ==>
              WeightedSum(q, w.(failureCount := w.failureCount + 1)) == WeightedSum(q, w) - q.weights.instability * 0.3
    ensures w.failureCount >= 4 ==> WeightedSum(q, w.(failureCount := w.failureCount + 1)) == WeightedSum(q, w)
  {
    var after := w.(failureCount := w.failureCount + 1);
    assert ThroughputScore(after) == ThroughputScore(w) && CapacityScore(after) == CapacityScore(w);
    if w.failureCount <= 2 {
      assert InstabilityPenalty(after) == InstabilityPenalty(w) + 0.3;
      WeighedPenalty(q.weights, ThroughputScore(w), CapacityScore(w), InstabilityPenalty(w));
    } else if w.failureCount >= 4 {
      assert InstabilityPenalty(after) == 1.0 && InstabilityPenalty(w) == 1.0;
    }
  }

  lemma WeighedPenalty(k: Weights, t: real, c: real, i: real)
    ensures Weighed(k, t, c, i + 0.3) == Weighed(k, t, c, i) - k.instability * 0.3
  {
  }

  /** A score is the weighted sum to within half of its last place, or 0 if the sum is not positive. */
  lemma ScoreIsRounded(q: Request, w: WorkerState)
    ensures WeightedSum(q, w) <= 0.0 ==> ScoreOf(q, w) == 0.0
    ensures WeightedSum(q, w) > 0.0 ==> ScoreOf(q, w) - 0.00005 <= WeightedSum(q, w) < ScoreOf(q, w) + 0.00005
  {
    assert Most(0.0, WeightedSum(q, w)) == if WeightedSum(q, w) <= 0.0 then 0.0 else WeightedSum(q, w);
    assert Round(0.0) == 0;
  }

  /** The components between their limits, and where they reach them. */
  lemma ComponentsSaturate(w: WorkerState)
    ensures if Throughput(w) >= 2000.0 then ThroughputScore(w) == 1.0 else ThroughputScore(w) * 2000.0 == Throughput(w)
    ensures if w.failureCount >= 4 then InstabilityPenalty(w) == 1.0
            else InstabilityPenalty(w) == w.failureCount as real * 0.3
    ensures 0.0 <= CapacityScore(w) <= 1.0
    ensures w.inFlightCount <= 2 && Utilization(w) + w.inFlightCount as real * 0.45 <= 0.99 && 0.0 <= RamShare(w) <= 1.0
            && 0.0 <= Utilization(w) ==>
              2.0 * CapacityScore(w) == 1.0 - Utilization(w) - w.inFlightCount as real * 0.45 + RamShare(w)
  {
  }

  /** Two scores worked out: an idle machine under the default weights, and a busy one that has failed once. */
  lemma ScoreExamples(q: Request, id: string)
    ensures var idle := WorkerState(id, true, Telemetry(None, None, None, true, None), 8, 8192.0, true, [], None, 0, 0);
            && ScoreOf(q.(weights := Weights(0.40, 0.30, 0.15, 0.15)), idle) == 0.425
            && ScoreOf(q.(weights := Weights(3.0, 1.0, 1.0, 1.0)), idle.(inFlightCount := 1, failureCount := 1))
               == 1.425
  {
    var idle := WorkerState(id, true, Telemetry(None, None, None, true, None), 8, 8192.0, true, [], None, 0, 0);
    assert ThroughputScore(idle) == 0.65 && CapacityScore(idle) == 0.6;
    var busy := idle.(inFlightCount := 1, failureCount := 1);
    assert ThroughputScore(busy) == 0.65 && CapacityScore(busy) == 0.375;
    assert Round(4250.0) == 4250 && Round(14250.0) == 14250;
  }

  datatype Status = ASSIGNED | NO_ELIGIBLE_WORKER_REMAINING | WAITING_FOR_ELIGIBLE_WORKER

  datatype Decision = Decision(selectedWorker: Option<WorkerState>, status: Status,
                               candidateScores: seq<CandidateScore>)

  function Scored(q: Request, ws: seq<WorkerState>, excluded: seq<string>): seq<CandidateScore> {
    if ws == [] then []
    else
      var w := ws[|ws| - 1];
      Scored(q, ws[..|ws| - 1], excluded)
      + if Passes(q, w) then [CandidateScore(w.deviceId, true, ScoreOf(q, w), w.deviceId in excluded)] else []
  }

  function Assignable(cs: seq<CandidateScore>): seq<CandidateScore> {
    if cs == [] then []
    else
      var c := cs[|cs| - 1];
      Assignable(cs[..|cs| - 1]) + if c.eligible && !c.isExcludedForTask then [c] else []
  }

  /** The stable sort by descending score. */
  function InsertByScore(c: CandidateScore, cs: seq<CandidateScore>): seq<CandidateScore> {
    if cs == [] || c.finalScore >= cs[0].finalScore then [c] + cs else [cs[0]] + InsertByScore(c, cs[1..])
  }

  function SortByScore(cs: seq<CandidateScore>): seq<CandidateScore> {
    if cs == [] then [] else InsertByScore(cs[0], SortByScore(cs[1..]))
  }

  /** allWorkers.find(w => w.deviceId === id) */
  function FindWorker(ws: seq<WorkerState>, id: string): Option<WorkerState> {
    if ws == [] then None else if ws[0].deviceId == id then Some(ws[0]) else FindWorker(ws[1..], id)
  }

  /** Worker i is a candidate that may be assigned the task. */
  predicate Free(q: Request, ws: seq<WorkerState>, excluded: seq<string>, i: nat) {
    i < |ws| && Passes(q, ws[i]) && ws[i].deviceId !in excluded
  }

  /** Worker i is free, no free worker scores higher, and none before it scores as high. */
  ghost predicate Best(q: Request, ws: seq<WorkerState>, excluded: seq<string>, i: nat) {
    && Free(q, ws, excluded, i)
    && forall j: nat | Free(q, ws, excluded, j) ::
         ScoreOf(q, ws[j]) <= ScoreOf(q, ws[i]) && (j < i ==> ScoreOf(q, ws[j]) < ScoreOf(q, ws[i]))
  }

  predicate DistinctDevices(ws: seq<WorkerState>) {
    forall i, j | 0 <= i < j < |ws| :: ws[i].deviceId != ws[j].deviceId
  }

  // The sort's head is the first candidate of the highest score.

  ghost predicate TopIndex(cs: seq<CandidateScore>, k: nat) {
    && k < |cs|
    && forall j | 0 <= j < |cs| ::
         cs[j].finalScore <= cs[k].finalScore && (j < k ==> cs[j].finalScore < cs[k].finalScore)
  }

  lemma {:induction false} SortHead(cs: seq<CandidateScore>)
    ensures |SortByScore(cs)| == |cs|
    ensures cs != [] ==> exists k: nat :: TopIndex(cs, k) && SortByScore(cs)[0] == cs[k]
  {
    if cs != [] {
      SortHead(cs[1..]);
      InsertLength(cs[0], SortByScore(cs[1..]));
      if cs[1..] != [] {
        var k: nat :| TopIndex(cs[1..], k) && SortByScore(cs[1..])[0] == cs[1..][k];
        assert forall j | 0 < j < |cs| :: cs[j] == cs[1..][j - 1];
        assert if cs[0].finalScore >= cs[k + 1].finalScore then TopIndex(cs, 0) else TopIndex(cs, k + 1);
      } else {
        assert TopIndex(cs, 0);
      }
    }
  }

  lemma {:induction false} InsertLength(c: CandidateScore, cs: seq<CandidateScore>)
    ensures |InsertByScore(c, cs)| == |cs| + 1
  {
    if cs != [] && c.finalScore < cs[0].finalScore {
      InsertLength(c, cs[1..]);
    }
  }

  // Which workers the assignable candidates stand for.

  function Candidate(q: Request, w: WorkerState): CandidateScore {
    CandidateScore(w.deviceId, true, ScoreOf(q, w), false)
  }

  function FreeCandidates(q: Request, ws: seq<WorkerState>, excluded: seq<string>): seq<CandidateScore> {
    if ws == [] then []
    else
      FreeCandidates(q, ws[..|ws| - 1], excluded)
      + if Free(q, ws, excluded, |ws| - 1) then [Candidate(q, ws[|ws| - 1])] else []
  }

  lemma AssignableExtends(cs: seq<CandidateScore>, c: CandidateScore)
    ensures Assignable(cs + [c]) == Assignable(cs) + if c.eligible && !c.isExcludedForTask then [c] else []
  {
    assert (cs + [c])[..|cs|] == cs;
  }

  lemma {:induction false} AssignableAreFree(q: Request, ws: seq<WorkerState>, excluded: seq<string>)
    ensures Assignable(Scored(q, ws, excluded)) == FreeCandidates(q, ws, excluded)
  {
    if ws != [] {
      var w := ws[|ws| - 1];
      var before := Scored(q, ws[..|ws| - 1], excluded);
      AssignableAreFree(q, ws[..|ws| - 1], excluded);
      AssignableExtends(before, CandidateScore(w.deviceId, true, ScoreOf(q, w), w.deviceId in excluded));
      assert before + [] == before;
    }
  }

  lemma {:induction false} FreeIsCandidate(q: Request, ws: seq<WorkerState>, excluded: seq<string>, i: nat)
    requires Free(q, ws, excluded, i)
    ensures Candidate(q, ws[i]) in FreeCandidates(q, ws, excluded)
  {
    if i < |ws| - 1 {
      assert ws[..|ws| - 1][i] == ws[i];
      FreeIsCandidate(q, ws[..|ws| - 1], excluded, i);
    }
  }

  /** The first candidate of the highest score is the best worker. */
  lemma {:induction false} TopIsBest(q: Request, ws: seq<WorkerState>, excluded: seq<string>, k: nat) returns (i: nat)
    requires TopIndex(FreeCandidates(q, ws, excluded), k)
    ensures Best(q, ws, excluded, i) && FreeCandidates(q, ws, excluded)[k] == Candidate(q, ws[i])
  {
    var n := |ws| - 1;
    var cs, before := FreeCandidates(q, ws, excluded), FreeCandidates(q, ws[..n], excluded);
    assert forall j: nat | j < n :: Free(q, ws[..n], excluded, j) == Free(q, ws, excluded, j);
    if k < |before| {
      assert forall j | 0 <= j < |before| :: cs[j] == before[j];
      i := TopIsBest(q, ws[..n], excluded, k);
      forall j: nat | Free(q, ws, excluded, j)
        ensures ScoreOf(q, ws[j]) <= ScoreOf(q, ws[i]) && (j < i ==> ScoreOf(q, ws[j]) < ScoreOf(q, ws[i]))
      {
        if j < n {
          assert Free(q, ws[..n], excluded, j);
        } else {
          assert cs[|before|] == Candidate(q, ws[n]);
        }
      }
    } else {
      i := n;
      forall j: nat | Free(q, ws, excluded, j)
        ensures ScoreOf(q, ws[j]) <= ScoreOf(q, ws[i]) && (j < i ==> ScoreOf(q, ws[j]) < ScoreOf(q, ws[i]))
      {
        if j < n {
          FreeIsCandidate(q, ws[..n], excluded, j);
          var m :| 0 <= m < |before| && before[m] == Candidate(q, ws[j]);
          assert cs[m] == before[m];
        }
      }
    }
  }

  lemma {:induction false} FindsWorker(ws: seq<WorkerState>, i: nat)
    requires i < |ws| && DistinctDevices(ws)
    ensures FindWorker(ws, ws[i].deviceId) == Some(ws[i])
  {
    if i > 0 {
      FindsWorker(ws[1..], i - 1);
    }
  }

  /** The first worker of that name. */
  ghost predicate FirstNamed(ws: seq<WorkerState>, id: string, w: WorkerState) {
    exists i: nat :: i < |ws| && ws[i] == w && w.deviceId == id && forall j: nat | j < i :: ws[j].deviceId != id
  }

  lemma {:induction false} FindsFirst(ws: seq<WorkerState>, i: nat)
    requires i < |ws|
    ensures FindWorker(ws, ws[i].deviceId).Some?
    ensures FirstNamed(ws, ws[i].deviceId, FindWorker(ws, ws[i].deviceId).value)
  {
    var id := ws[i].deviceId;
    if ws[0].deviceId == id {
      assert ws[0] == FindWorker(ws, id).value;
    } else {
      FindsFirst(ws[1..], i - 1);
      var w := FindWorker(ws[1..], id).value;
      var k: nat :| k < |ws[1..]| && ws[1..][k] == w && w.deviceId == id
                    && forall j: nat | j < k :: ws[1..][j].deviceId != id;
      assert forall j: nat | 0 < j < k + 1 :: ws[j] == ws[1..][j - 1];
      assert ws[k + 1] == w;
    }
  }

  /** What each worker contributes to the list: its score and whether it is excluded, if it passes. */
  function Entries(q: Request, ws: seq<WorkerState>, excluded: seq<string>): (es: seq<Option<CandidateScore>>)
    ensures |es| == |ws|
    ensures forall i: nat | i < |ws| ::
              es[i] == if Passes(q, ws[i])
                       then Some(CandidateScore(ws[i].deviceId, true, ScoreOf(q, ws[i]), ws[i].deviceId in excluded))
                       else None
  {
    seq(|ws|, i requires 0 <= i < |ws| =>
      var w := ws[i];
      if Passes(q, w) then Some(CandidateScore(w.deviceId, true, ScoreOf(q, w), w.deviceId in excluded)) else None)
  }

  predicate Increasing(at: seq<nat>) {
    forall k, l | 0 <= k < l < |at| :: at[k] < at[l]
  }

  /** The list consists of the entries at the given places. */
  predicate Picked(es: seq<Option<CandidateScore>>, n: nat, cs: seq<CandidateScore>, at: seq<nat>)
    requires n <= |es|
  {
    |at| == |cs| && forall k | 0 <= k < |at| :: at[k] < n && es[at[k]] == Some(cs[k])
  }

  predicate NoneMissing(es: seq<Option<CandidateScore>>, n: nat, at: seq<nat>)
    requires n <= |es|
  {
    forall i: nat | i < n && es[i].Some? :: i in at
  }

  /** The list consists of those of the first n entries that there are, each once and in order. */
  ghost predicate Lists(es: seq<Option<CandidateScore>>, n: nat, cs: seq<CandidateScore>)
    requires n <= |es|
  {
    exists at :: Increasing(at) && Picked(es, n, cs, at) && NoneMissing(es, n, at)
  }

  lemma ListsNone(es: seq<Option<CandidateScore>>)
    ensures Lists(es, 0, [])
  {
    assert Increasing([]) && Picked(es, 0, [], []) && NoneMissing(es, 0, []);
  }

  lemma PicksNext(es: seq<Option<CandidateScore>>, n: nat, cs: seq<CandidateScore>, at: seq<nat>)
    requires n < |es| && es[n].Some? && Picked(es, n, cs, at)
    ensures Picked(es, n + 1, cs + [es[n].value], at + [n])
    ensures Increasing(at) ==> Increasing(at + [n])
  {
  }

  lemma MissesNone(es: seq<Option<CandidateScore>>, n: nat, at: seq<nat>)
    requires n < |es| && NoneMissing(es, n, at)
    ensures NoneMissing(es, n + 1, at + [n])
    ensures es[n] == None ==> NoneMissing(es, n + 1, at)
  {
    assert (at + [n])[|at|] == n;
    assert forall i: nat | i in at :: i in at + [n];
  }

  lemma ListsNext(es: seq<Option<CandidateScore>>, n: nat, cs: seq<CandidateScore>)
    requires n < |es| && Lists(es, n, cs)
    ensures es[n] == None ==> Lists(es, n + 1, cs)
    ensures es[n].Some? ==> Lists(es, n + 1, cs + [es[n].value])
  {
    var at :| Increasing(at) && Picked(es, n, cs, at) && NoneMissing(es, n, at);
    MissesNone(es, n, at);
    if es[n] == None {
      assert Picked(es, n + 1, cs, at);
    } else {
      PicksNext(es, n, cs, at);
    }
  }

  predicate Shares(c: CandidateScore) {
    c.eligible && !c.isExcludedForTask && c.finalScore > 0.0
  }

  lemma ListsUpTo(es: seq<Option<CandidateScore>>, n: nat, before: seq<CandidateScore>, after: seq<CandidateScore>)
    requires 0 < n <= |es| && Lists(es, n - 1, before)
    requires es[n - 1] == None ==> after == before
    requires es[n - 1].Some? ==> after == before + [es[n - 1].value]
    ensures Lists(es, n, after)
  {
    ListsNext(es, n - 1, before);
  }

  lemma SharingStep(cs: seq<CandidateScore>, n: nat)
    requires 0 < n <= |cs|
    ensures Shares(cs[n - 1]) ==> Sharing(cs[..n]) == Sharing(cs[..n - 1]) + [cs[n - 1]]
    ensures !Shares(cs[n - 1]) ==> Sharing(cs[..n]) == Sharing(cs[..n - 1])
  {
    assert cs[..n][..n - 1] == cs[..n - 1];
  }

  /** The filter keeps every candidate that shares in the work, as often as it is listed, in order. */
  lemma {:induction false} SharingInOrder(cs: seq<CandidateScore>, es: seq<Option<CandidateScore>>, n: nat)
    requires |es| == |cs| && n <= |cs|
    requires forall i: nat | i < |cs| :: es[i] == if Shares(cs[i]) then Some(cs[i]) else None
    ensures Lists(es, n, Sharing(cs[..n]))
  {
    if n == 0 {
      ListsNone(es);
    } else {
      SharingInOrder(cs, es, n - 1);
      SharingStep(cs, n);
      ListsUpTo(es, n, Sharing(cs[..n - 1]), Sharing(cs[..n]));
    }
  }

  lemma {:induction false} NoCandidatesIff(q: Request, ws: seq<WorkerState>, excluded: seq<string>)
    ensures FreeCandidates(q, ws, excluded) == [] <==> forall i: nat :: !Free(q, ws, excluded, i)
    ensures Scored(q, ws, excluded) == [] <==> forall i: nat | i < |ws| :: !Passes(q, ws[i])
    ensures FreeCandidates(q, ws, excluded) == [] <==> forall c | c in Scored(q, ws, excluded) :: c.isExcludedForTask
  {
    if ws != [] {
      var n := |ws| - 1;
      NoCandidatesIff(q, ws[..n], excluded);
      assert forall j: nat | j < n :: Free(q, ws[..n], excluded, j) == Free(q, ws, excluded, j);
      assert forall j: nat | j < n :: ws[..n][j] == ws[j];
      if FreeCandidates(q, ws, excluded) == [] {
        assert !Free(q, ws, excluded, n);
      }
      var before, cs := Scored(q, ws[..n], excluded), Scored(q, ws, excluded);
      assert forall c | c in before :: c in cs;
      if Passes(q, ws[n]) {
        assert cs[|before|] in cs;
      }
    }
  }

  lemma SelectionIsBest(q: Request, ws: seq<WorkerState>, excluded: seq<string>)
    requires FreeCandidates(q, ws, excluded) != []
    ensures var found := FindWorker(ws, SortByScore(FreeCandidates(q, ws, excluded))[0].workerId);
            found.Some? && exists i: nat :: Best(q, ws, excluded, i) && FirstNamed(ws, ws[i].deviceId, found.value)
    ensures DistinctDevices(ws) ==>
              exists i: nat :: Best(q, ws, excluded, i)
                && FindWorker(ws, SortByScore(FreeCandidates(q, ws, excluded))[0].workerId) == Some(ws[i])
  {
    var cs := FreeCandidates(q, ws, excluded);
    SortHead(cs);
    var k: nat :| TopIndex(cs, k) && SortByScore(cs)[0] == cs[k];
    var i := TopIsBest(q, ws, excluded, k);
    FindsFirst(ws, i);
    if DistinctDevices(ws) {
      FindsWorker(ws, i);
    }
  }

  /** The pre-filter as the loop body spells it out. */
  method CheckEligibility(q: Request, worker: WorkerState) returns (isEligible: bool)
    ensures isEligible == Passes(q, worker)
  {
    isEligible := worker.isEligible;
    var t := worker.telemetry;
    if t.thermalState.Some? && t.thermalState.value >= 2 {
      isEligible := false;
    } else if t.cpuUtilization.Some? && t.cpuUtilization.value >= 0.90 {
      isEligible := false;
    } else if !q.ignoreBattery && t.batteryLevel.Some? && !t.isCharging && t.batteryLevel.value < 0.20 {
      isEligible := false;
    }
    var minCores := if q.minCpuCores == 0 then 1 else q.minCpuCores;
    if worker.cpuCores < minCores {
      isEligible := false;
    } else if worker.totalRamMb < q.minRamMb {
      isEligible := false;
    } else if q.requiresGpu && !worker.hasGpu {
      isEligible := false;
    }
    if |worker.supportedKernels| > 0 {
      if q.kernelId !in worker.supportedKernels && q.computationDescriptor !in worker.supportedKernels {
        isEligible := false;
      }
    }
  }

  /** The thresholds of the pre-filter, at the values where they turn. */
  lemma FilterBoundaries(q: Request, w: WorkerState)
    requires Passes(q, w)
    ensures var t := w.telemetry;
            && Passes(q, w.(telemetry := t.(thermalState := Some(1))))
            && !Passes(q, w.(telemetry := t.(thermalState := Some(2))))
            && Passes(q, w.(telemetry := t.(cpuUtilization := Some(0.89))))
            && !Passes(q, w.(telemetry := t.(cpuUtilization := Some(0.90))))
            && Passes(q, w.(telemetry := t.(isCharging := false, batteryLevel := Some(0.20))))
            && (Passes(q, w.(telemetry := t.(isCharging := false, batteryLevel := Some(0.19)))) <==> q.ignoreBattery)
            && Passes(q, w.(telemetry := t.(isCharging := true, batteryLevel := Some(0.0))))
            && !Passes(q, w.(isEligible := false)) && !Passes(q, w.(cpuCores := 0))
            && Passes(q.(minCpuCores := w.cpuCores, minRamMb := w.totalRamMb), w)
            && !Passes(q.(minCpuCores := w.cpuCores + 1), w) && !Passes(q.(minRamMb := w.totalRamMb + 1.0), w)
            && (Passes(q.(requiresGpu := true), w) <==> w.hasGpu)
            && Passes(q, w.(supportedKernels := [])) && Passes(q, w.(supportedKernels := [q.kernelId]))
            && Passes(q, w.(supportedKernels := [q.computationDescriptor]))
            && (q.kernelId != "k" && q.computationDescriptor != "k" ==> !Passes(q, w.(supportedKernels := ["k"])))
  {
  }

  method ScheduleTask(q: Request, allWorkers: seq<WorkerState>, excludedWorkerIds: seq<string>) returns (d: Decision)
    ensures d.candidateScores == Scored(q, allWorkers, excludedWorkerIds)
    ensures Lists(Entries(q, allWorkers, excludedWorkerIds), |allWorkers|, d.candidateScores)
    ensures d.status == ASSIGNED <==> exists i: nat :: Free(q, allWorkers, excludedWorkerIds, i)
    ensures d.status == NO_ELIGIBLE_WORKER_REMAINING <==>
            ((exists i: nat :: i < |allWorkers| && Passes(q, allWorkers[i]))
             && forall i: nat :: !Free(q, allWorkers, excludedWorkerIds, i))
    ensures d.status == WAITING_FOR_ELIGIBLE_WORKER <==> forall i: nat | i < |allWorkers| :: !Passes(q, allWorkers[i])
    ensures d.status != ASSIGNED ==> d.selectedWorker == None
    ensures d.status == ASSIGNED ==>
              && d.selectedWorker.Some?
              && exists i: nat :: Best(q, allWorkers, excludedWorkerIds, i)
                   && FirstNamed(allWorkers, allWorkers[i].deviceId, d.selectedWorker.value)
    ensures d.status == ASSIGNED && DistinctDevices(allWorkers) ==>
              exists i: nat :: Best(q, allWorkers, excludedWorkerIds, i) && d.selectedWorker == Some(allWorkers[i])
  {
    var candidateScores: seq<CandidateScore> := [];
    ListsNone(Entries(q, allWorkers, excludedWorkerIds));
    for n := 0 to |allWorkers|
      invariant candidateScores == Scored(q, allWorkers[..n], excludedWorkerIds)
      invariant Lists(Entries(q, allWorkers, excludedWorkerIds), n, candidateScores)
    {
      var worker := allWorkers[n];
      assert allWorkers[..n + 1][..n] == allWorkers[..n];
      ListsNext(Entries(q, allWorkers, excludedWorkerIds), n, candidateScores);
      var isExcludedForTask := worker.deviceId in excludedWorkerIds;
      var isEligible := CheckEligibility(q, worker);
      if isEligible {
        var candidate := CandidateScore(worker.deviceId, true, ScoreOf(q, worker), isExcludedForTask);
        candidateScores := candidateScores + [candidate];
      }
    }
    assert allWorkers[..|allWorkers|] == allWorkers;
    var assignableCandidates := SortByScore(Assignable(candidateScores));
    AssignableAreFree(q, allWorkers, excludedWorkerIds);
    SortHead(Assignable(candidateScores));
    NoCandidatesIff(q, allWorkers, excludedWorkerIds);
    if |assignableCandidates| > 0 {
      SelectionIsBest(q, allWorkers, excludedWorkerIds);
      var topCandidate := assignableCandidates[0];
      return Decision(FindWorker(allWorkers, topCandidate.workerId), ASSIGNED, candidateScores);
    }
    if |candidateScores| > 0 && forall c | c in candidateScores :: c.isExcludedForTask {
      return Decision(None, NO_ELIGIBLE_WORKER_REMAINING, candidateScores);
    }
    d := Decision(None, WAITING_FOR_ELIGIBLE_WORKER, candidateScores);
  }
}
