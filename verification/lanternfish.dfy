/** Lanternfish (day 6): `spawn_fish` keeps one counter per age instead of
    one entry per fish. Every day the fish of age 0 reset to age 6 and each
    spawns a newborn of age 8; every other fish gets one day younger. The
    vector has `max_age + 1` slots; slots 6 and 8 are written directly, so
    `max_age` must be at least 8. */
module Lanternfish {
  import opened Arith

  /** Every starting age indexes the count vector. */
  predicate AgesWithin(fish: seq<nat>, maxAge: nat) {
    forall i :: 0 <= i < |fish| ==> fish[i] <= maxAge
  }

  /** The first loop of `spawn_fish`: `fish[f]++` for every starting age. */
  function Tally(fish: seq<nat>, maxAge: nat): (v: seq<nat>)
    requires AgesWithin(fish, maxAge)
    ensures |v| == maxAge + 1
    ensures forall a :: 0 <= a <= maxAge ==> v[a] == multiset(fish)[a]
  {
    if fish == [] then seq(maxAge + 1, _ => 0)
    else
      var v := Tally(fish[1..], maxAge);
      assert fish == [fish[0]] + fish[1..];
      v[fish[0] := v[fish[0]] + 1]
  }

  /** Adding `k` to one slot adds `k` to the total. */
  lemma {:induction false} SumUpdate(s: seq<nat>, i: nat, k: nat)
    requires i < |s|
    ensures Sum(s[i := s[i] + k]) == Sum(s) + k
    decreases |s|
  {
    if i > 0 {
      assert s[i := s[i] + k][1..] == s[1..][i - 1 := s[i] + k];
      SumUpdate(s[1..], i - 1, k);
    }
  }

  lemma {:induction false} SumZeros(n: nat)
    ensures Sum(seq(n, _ => 0)) == 0
  {
    if n > 0 {
      assert seq(n, _ => 0)[1..] == seq(n - 1, _ => 0);
      SumZeros(n - 1);
    }
  }

  /** Tallying loses no fish. */
  lemma {:induction false} TallySum(fish: seq<nat>, maxAge: nat)
    requires AgesWithin(fish, maxAge)
    ensures Sum(Tally(fish, maxAge)) == |fish|
    decreases |fish|
  {
    if fish == [] {
      SumZeros(maxAge + 1);
    } else {
      TallySum(fish[1..], maxAge);
      SumUpdate(Tally(fish[1..], maxAge), fish[0], 1);
    }
  }

  // ---------------------------------------------------------------------
  // One day

  /** The inner loop over ages from `age` on, adding each age's count into
      `next`: age 0 goes to slots 6 and 8, age `a > 0` to slot `a - 1`. */
  function StepFrom(v: seq<nat>, age: nat, next: seq<nat>): (w: seq<nat>)
    requires |next| == |v| >= 9 && age <= |v|
    ensures |w| == |v|
    decreases |v| - age
  {
    if age == |v| then next
    else
      var count := v[age];
      var next' :=
        if age == 0 then next[6 := next[6] + count][8 := next[8] + count]
        else next[age - 1 := next[age - 1] + count];
      StepFrom(v, age + 1, next')
  }

  /** One day, starting from a fresh all-zero vector. */
  function Step(v: seq<nat>): (w: seq<nat>)
    requires |v| >= 9
    ensures |w| == |v|
  {
    StepFrom(v, 0, seq(|v|, _ => 0))
  }

  /** What the loop from `age` on adds to slot `i`. */
  function Incoming(v: seq<nat>, age: nat, i: nat): nat
    requires i < |v|
  {
    (if age <= i + 1 < |v| then v[i + 1] else 0) + (if age == 0 && (i == 6 || i == 8) then v[0] else 0)
  }

  lemma {:induction false} StepFromShape(v: seq<nat>, age: nat, next: seq<nat>)
    requires |next| == |v| >= 9 && age <= |v|
    ensures forall i :: 0 <= i < |v| ==> StepFrom(v, age, next)[i] == next[i] + Incoming(v, age, i)
    decreases |v| - age
  {
    if age < |v| {
      var count := v[age];
      var next' :=
        if age == 0 then next[6 := next[6] + count][8 := next[8] + count]
        else next[age - 1 := next[age - 1] + count];
      StepFromShape(v, age + 1, next');
    }
  }

  /** One day in closed form: slot `i` receives the fish one day older, and
      slots 6 and 8 also receive every fish of age 0. Nothing else moves. */
  lemma StepShape(v: seq<nat>)
    requires |v| >= 9
    ensures forall i :: 0 <= i < |v| ==>
      Step(v)[i] == (if i + 1 < |v| then v[i + 1] else 0) + (if i == 6 || i == 8 then v[0] else 0)
  {
    StepFromShape(v, 0, seq(|v|, _ => 0));
  }

  lemma {:induction false} StepFromSum(v: seq<nat>, age: nat, next: seq<nat>)
    requires |next| == |v| >= 9 && age <= |v|
    ensures Sum(StepFrom(v, age, next)) == Sum(next) + Sum(v[age..]) + (if age == 0 then v[0] else 0)
    decreases |v| - age
  {
    if age < |v| {
      var count := v[age];
      assert v[age..][1..] == v[age + 1..];
      if age == 0 {
        var n6 := next[6 := next[6] + count];
        SumUpdate(next, 6, count);
        SumUpdate(n6, 8, count);
        StepFromSum(v, 1, n6[8 := n6[8] + count]);
      } else {
        SumUpdate(next, age - 1, count);
        StepFromSum(v, age + 1, next[age - 1 := next[age - 1] + count]);
      }
    }
  }

  /** Each day the population grows by exactly the number of fish of age 0. */
  lemma StepSum(v: seq<nat>)
    requires |v| >= 9
    ensures Sum(Step(v)) == Sum(v) + v[0]
  {
    StepFromSum(v, 0, seq(|v|, _ => 0));
    SumZeros(|v|);
    assert v[0..] == v;
  }

  /** The outer `for (day ...)` loop: `days` applications of `Step`. */
  function Days(v: seq<nat>, days: nat): (w: seq<nat>)
    requires |v| >= 9
    ensures |w| == |v|
  {
    if days == 0 then v else Step(Days(v, days - 1))
  }

  /** `spawn_fish`: the total of the count vector after `days` days. */
  function SpawnFish(fish: seq<nat>, days: nat, maxAge: nat): nat
    requires maxAge >= 8 && AgesWithin(fish, maxAge)
  {
    SumNonNegative(Days(Tally(fish, maxAge), days));
    Sum(Days(Tally(fish, maxAge), days))
  }

  /** With no days the answer is the number of starting fish. */
  lemma SpawnFishNoDays(fish: seq<nat>, maxAge: nat)
    requires maxAge >= 8 && AgesWithin(fish, maxAge)
    ensures SpawnFish(fish, 0, maxAge) == |fish|
  {
    TallySum(fish, maxAge);
  }

  /** From one day to the next the answer grows by the day's age-0 count. */
  lemma SpawnFishGrowth(fish: seq<nat>, days: nat, maxAge: nat)
    requires maxAge >= 8 && AgesWithin(fish, maxAge)
    ensures SpawnFish(fish, days + 1, maxAge)
      == SpawnFish(fish, days, maxAge) + Days(Tally(fish, maxAge), days)[0]
  {
    StepSum(Days(Tally(fish, maxAge), days));
  }

  // ---------------------------------------------------------------------
  // Reference: one list entry per fish

  /** Every fish one day on: timer 0 resets to 6, any other counts down. */
  function Aged(fish: seq<nat>): (r: seq<nat>)
    ensures |r| == |fish|
  {
    if fish == [] then []
    else [if fish[0] == 0 then 6 else fish[0] - 1] + Aged(fish[1..])
  }

  /** The number of fish whose timer is 0. */
  function Spawning(fish: seq<nat>): nat {
    multiset(fish)[0]
  }

  /** The naive simulation of one day: the aged fish, then one newborn of
      age 8 per fish that spawned. */
  function Individuals(fish: seq<nat>): seq<nat> {
    Aged(fish) + seq(Spawning(fish), _ => 8)
  }

  function Simulate(fish: seq<nat>, days: nat): seq<nat> {
    if days == 0 then fish else Individuals(Simulate(fish, days - 1))
  }

  lemma {:induction false} AgedCounts(fish: seq<nat>, a: nat)
    ensures multiset(Aged(fish))[a] == multiset(fish)[a + 1] + (if a == 6 then multiset(fish)[0] else 0)
    decreases |fish|
  {
    if fish != [] {
      AgedCounts(fish[1..], a);
      assert fish == [fish[0]] + fish[1..];
      var x := if fish[0] == 0 then 6 else fish[0] - 1;
      assert Aged(fish) == [x] + Aged(fish[1..]);
    }
  }

  lemma {:induction false} NewbornCounts(n: nat, a: nat)
    ensures multiset(seq(n, _ => 8))[a] == if a == 8 then n else 0
  {
    if n > 0 {
      assert seq(n, _ => 8) == [8] + seq(n - 1, _ => 8);
      NewbornCounts(n - 1, a);
    }
  }

  lemma NoneAbove(fish: seq<nat>, maxAge: nat, b: nat)
    requires AgesWithin(fish, maxAge) && b > maxAge
    ensures multiset(fish)[b] == 0
  {
  }

  lemma AgedWithin(fish: seq<nat>, maxAge: nat)
    requires maxAge >= 8 && AgesWithin(fish, maxAge)
    ensures AgesWithin(Individuals(fish), maxAge)
  {
    forall a | a > maxAge
      ensures multiset(Individuals(fish))[a] == 0
    {
      AgedCounts(fish, a);
      NewbornCounts(Spawning(fish), a);
      NoneAbove(fish, maxAge, a + 1);
    }
    forall i | 0 <= i < |Individuals(fish)|
      ensures Individuals(fish)[i] <= maxAge
    {
      var x := Individuals(fish)[i];
      assert x in multiset(Individuals(fish));
    }
  }

  /** Counting by age commutes with the day step: the count vector after
      one day is the tally of the naively simulated fish. */
  lemma TallyOfIndividuals(fish: seq<nat>, maxAge: nat)
    requires maxAge >= 8 && AgesWithin(fish, maxAge)
    ensures AgesWithin(Individuals(fish), maxAge)
    ensures Tally(Individuals(fish), maxAge) == Step(Tally(fish, maxAge))
  {
    AgedWithin(fish, maxAge);
    var v := Tally(fish, maxAge);
    StepShape(v);
    forall a | 0 <= a <= maxAge
      ensures Tally(Individuals(fish), maxAge)[a] == Step(v)[a]
    {
      AgedCounts(fish, a);
      NewbornCounts(Spawning(fish), a);
      if a + 1 > maxAge {
        NoneAbove(fish, maxAge, a + 1);
      }
    }
  }

  lemma DaysUnfold(v: seq<nat>, t: nat)
    requires |v| >= 9
    ensures Days(v, t + 1) == Step(Days(v, t))
  {
  }

  lemma SimulateUnfold(fish: seq<nat>, t: nat)
    ensures Simulate(fish, t + 1) == Individuals(Simulate(fish, t))
  {
  }

  /** The count vector follows the naive simulation day by day. */
  lemma {:induction false} DaysAreTallies(fish: seq<nat>, days: nat, maxAge: nat)
    requires maxAge >= 8 && AgesWithin(fish, maxAge)
    ensures AgesWithin(Simulate(fish, days), maxAge)
    ensures Days(Tally(fish, maxAge), days) == Tally(Simulate(fish, days), maxAge)
  {
    if days > 0 {
      var t: nat := days - 1;
      DaysAreTallies(fish, t, maxAge);
      TallyOfIndividuals(Simulate(fish, t), maxAge);
      DaysUnfold(Tally(fish, maxAge), t);
      SimulateUnfold(fish, t);
    }
  }

  /** `spawn_fish` counts the fish of the naive simulation. */
  lemma SpawnFishIsSimulation(fish: seq<nat>, days: nat, maxAge: nat)
    requires maxAge >= 8 && AgesWithin(fish, maxAge)
    ensures SpawnFish(fish, days, maxAge) == |Simulate(fish, days)|
  {
    DaysAreTallies(fish, days, maxAge);
    TallySum(Simulate(fish, days), maxAge);
  }
}
