/** The daily-plan builder: one greedy pass over the prioritised tasks that takes each task
    whose duration still fits in what is left of the owner's budget. */
module Planner {
  import opened Entities
  import opened Seqs

  /** The total duration, in minutes, of a list of tasks. */
  function Duration(ts: seq<Task>): int {
    if ts == [] then 0 else ts[0].duration + Duration(ts[1..])
  }

  /** The duration of a concatenation is the sum of the durations. */
  lemma {:induction false} DurationAppend(a: seq<Task>, b: seq<Task>)
    ensures Duration(a + b) == Duration(a) + Duration(b)
  {
    if a == [] {
      assert a + b == b;
    } else {
      assert (a + b)[1..] == a[1..] + b;
      DurationAppend(a[1..], b);
    }
  }

  /** The loop of the plan builder: `used` minutes are already committed, and each task is taken
      when `used` plus its duration is at most `budget`; a task that does not fit is passed over
      for good. */
  function GreedyPlan(ts: seq<Task>, budget: int, used: int): (plan: seq<Task>)
    ensures IsSubsequence(plan, ts)
    ensures used <= budget ==> used + Duration(plan) <= budget
    ensures plan != [] ==> used + Duration(plan) <= budget
    ensures (forall i :: 0 <= i < |ts| ==> used + ts[i].duration > budget) ==> plan == []
  {
    if ts == [] then []
    else
      assert ts == [ts[0]] + ts[1..];
      if used + ts[0].duration <= budget then
        var rest := GreedyPlan(ts[1..], budget, used + ts[0].duration);
        assert ([ts[0]] + rest)[1..] == rest;
        [ts[0]] + rest
      else
        var rest := GreedyPlan(ts[1..], budget, used);
        SubsequenceCons(ts[0], rest, ts[1..]);
        rest
  }

  /** The greedy pass takes nothing exactly when no task fits on its own in the minutes left. */
  lemma {:induction false} GreedyPlanEmpty(ts: seq<Task>, budget: int, used: int)
    ensures GreedyPlan(ts, budget, used) == [] <==> forall i :: 0 <= i < |ts| ==> used + ts[i].duration > budget
  {
    if ts != [] && used + ts[0].duration > budget {
      GreedyPlanEmpty(ts[1..], budget, used);
      assert forall i :: 1 <= i < |ts| ==> ts[i] == ts[1..][i - 1];
    }
  }

  /** The tasks of `ts` at the positions where `picks` is true, in order. */
  function Select(ts: seq<Task>, picks: seq<bool>): seq<Task>
    requires |picks| == |ts|
  {
    if ts == [] then [] else (if picks[0] then [ts[0]] else []) + Select(ts[1..], picks[1..])
  }

  /** The minutes committed before position `i` by the decisions `picks`. */
  function CommittedBefore(ts: seq<Task>, picks: seq<bool>, i: nat): int
    requires |picks| == |ts| && i <= |ts|
  {
    Duration(Select(ts[..i], picks[..i]))
  }

  /** A declarative description of the greedy pass: task `i` is taken exactly when the minutes
      committed by the earlier decisions, plus its own duration, stay within the budget. */
  predicate GreedyChoice(ts: seq<Task>, budget: int, used: int, picks: seq<bool>) {
    && |picks| == |ts|
    && forall i :: 0 <= i < |ts| ==>
         (picks[i] <==> used + CommittedBefore(ts, picks, i) + ts[i].duration <= budget)
  }

  /** The minutes committed before position `i + 1` are those of the first decision plus the
      minutes committed before position `i` of the remaining decisions. */
  lemma CommittedShift(ts: seq<Task>, picks: seq<bool>, i: nat)
    requires |picks| == |ts| && i < |ts|
    ensures CommittedBefore(ts, picks, i + 1)
         == (if picks[0] then ts[0].duration else 0) + CommittedBefore(ts[1..], picks[1..], i)
  {
    assert ts[..i + 1][1..] == ts[1..][..i];
    assert picks[..i + 1][1..] == picks[1..][..i];
    var head := if picks[0] then [ts[0]] else [];
    var tail := Select(ts[1..][..i], picks[1..][..i]);
    assert Select(ts[..i + 1], picks[..i + 1]) == head + tail;
    DurationAppend(head, tail);
  }

  /** The greedy choice over a non-empty list is its first decision followed by the greedy
      choice over the rest, started from the minutes the first decision commits. */
  lemma GreedyChoiceUnfold(ts: seq<Task>, budget: int, used: int, picks: seq<bool>)
    requires |picks| == |ts| && ts != []
    ensures GreedyChoice(ts, budget, used, picks)
        <==> && (picks[0] <==> used + ts[0].duration <= budget)
             && GreedyChoice(ts[1..], budget, used + (if picks[0] then ts[0].duration else 0), picks[1..])
  {
    var used' := used + (if picks[0] then ts[0].duration else 0);
    assert CommittedBefore(ts, picks, 0) == 0;
    forall i | 0 <= i < |ts| - 1
      ensures (picks[i + 1] <==> used + CommittedBefore(ts, picks, i + 1) + ts[i + 1].duration <= budget)
          <==> (picks[1..][i] <==> used' + CommittedBefore(ts[1..], picks[1..], i) + ts[1..][i].duration <= budget)
    {
      CommittedShift(ts, picks, i);
    }
    if GreedyChoice(ts[1..], budget, used', picks[1..]) && (picks[0] <==> used + ts[0].duration <= budget) {
      forall i | 0 <= i < |ts|
        ensures picks[i] <==> used + CommittedBefore(ts, picks, i) + ts[i].duration <= budget
      {
        if i > 0 {
          CommittedShift(ts, picks, i - 1);
        }
      }
    }
  }

  /** The greedy description unfolded one decision at a time. */
  predicate GreedySteps(ts: seq<Task>, budget: int, used: int, picks: seq<bool>)
    decreases |ts|
  {
    && |picks| == |ts|
    && (ts != [] ==>
          && (picks[0] <==> used + ts[0].duration <= budget)
          && GreedySteps(ts[1..], budget, used + (if picks[0] then ts[0].duration else 0), picks[1..]))
  }

  /** The declarative and the step-by-step greedy descriptions agree. */
  lemma {:induction false} GreedyChoiceSteps(ts: seq<Task>, budget: int, used: int, picks: seq<bool>)
    requires |picks| == |ts|
    ensures GreedyChoice(ts, budget, used, picks) <==> GreedySteps(ts, budget, used, picks)
    decreases |ts|
  {
    if ts != [] {
      GreedyChoiceUnfold(ts, budget, used, picks);
      GreedyChoiceSteps(ts[1..], budget, used + (if picks[0] then ts[0].duration else 0), picks[1..]);
    }
  }

  /** The step-by-step decisions select the greedy plan. */
  lemma {:induction false} GreedyStepsSelect(ts: seq<Task>, budget: int, used: int, picks: seq<bool>)
    requires GreedySteps(ts, budget, used, picks)
    ensures GreedyPlan(ts, budget, used) == Select(ts, picks)
    decreases |ts|
  {
    if ts != [] {
      GreedyStepsSelect(ts[1..], budget, used + (if picks[0] then ts[0].duration else 0), picks[1..]);
    }
  }

  /** Every decision vector meeting the greedy description selects exactly the plan the
      greedy pass builds: the pass takes the tasks that fit when reached, and only those. */
  lemma GreedyPlanIsGreedyChoice(ts: seq<Task>, budget: int, used: int, picks: seq<bool>)
    requires GreedyChoice(ts, budget, used, picks)
    ensures GreedyPlan(ts, budget, used) == Select(ts, picks)
  {
    GreedyChoiceSteps(ts, budget, used, picks);
    GreedyStepsSelect(ts, budget, used, picks);
  }

  /** A decision vector meeting the greedy description exists for every input, and it selects
      the greedy plan. */
  lemma {:induction false} GreedyChoiceExists(ts: seq<Task>, budget: int, used: int) returns (picks: seq<bool>)
    ensures GreedyChoice(ts, budget, used, picks)
    ensures GreedyPlan(ts, budget, used) == Select(ts, picks)
  {
    if ts == [] {
      picks := [];
    } else {
      var fits := used + ts[0].duration <= budget;
      var rest := GreedyChoiceExists(ts[1..], budget, used + (if fits then ts[0].duration else 0));
      picks := [fits] + rest;
      assert picks[1..] == rest;
      GreedyChoiceUnfold(ts, budget, used, picks);
      GreedyPlanIsGreedyChoice(ts, budget, used, picks);
    }
  }

  /** The greedy decisions are unique: two vectors meeting the description coincide. */
  lemma {:induction false} GreedyChoiceUnique(ts: seq<Task>, budget: int, used: int, p: seq<bool>, q: seq<bool>)
    requires GreedyChoice(ts, budget, used, p) && GreedyChoice(ts, budget, used, q)
    ensures p == q
  {
    if ts != [] {
      GreedyChoiceUnfold(ts, budget, used, p);
      GreedyChoiceUnfold(ts, budget, used, q);
      GreedyChoiceUnique(ts[1..], budget, used + (if p[0] then ts[0].duration else 0), p[1..], q[1..]);
      assert p == [p[0]] + p[1..] && q == [q[0]] + q[1..];
    }
  }
}
