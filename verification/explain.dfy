/** The explanation of a plan: which branch is taken, the summary counts, the planned tasks in
    plan order and the incomplete tasks that were left out. The wording and layout of the text
    are not modelled. */
module Explanations {
  import opened Wrappers
  import opened Entities
  import opened Seqs
  import opened Priority
  import opened Planner
  import opened Scheduling

  /** What `explain_reasoning` reports. `NothingScheduled` is the fixed "No tasks have been
      scheduled yet" text. */
  datatype Explanation =
    | NothingScheduled
    | Report(ownerName: string, scheduled: nat, incomplete: nat, totalMinutes: int,
             availableMinutes: int, remainingMinutes: int, planned: seq<Task>, skipped: seq<Task>)

  /** The identities of the task objects in the plan. */
  function PlannedIds(plan: seq<Task>): set<nat> {
    set t | t in plan :: t.id
  }

  /** The incomplete tasks, in registration order, whose object is not in the plan. Objects are
      compared by identity, so a task `==` to a planned one but distinct from it is skipped. */
  function Skipped(s: Scheduler): (r: seq<Task>)
    ensures forall t :: multiset(r)[t] == if t.id in PlannedIds(s.plan) then 0 else multiset(IncompleteTasks(s))[t]
    ensures forall t :: t in r <==> t in IncompleteTasks(s) && forall u :: u in s.plan ==> u.id != t.id
    ensures IsSubsequence(r, IncompleteTasks(s))
  {
    var ids := PlannedIds(s.plan);
    var keep := (t: Task) => t.id !in ids;
    var r := Filter(IncompleteTasks(s), keep);
    FilterCounts(IncompleteTasks(s), keep);
    assert forall t :: t in r <==> t in IncompleteTasks(s) && t.id !in ids by {
      forall t ensures t in r <==> t in IncompleteTasks(s) && t.id !in ids {
        assert t in r <==> t in multiset(r);
      }
    }
    r
  }

  /** `explain_reasoning`: the fixed text when the plan is empty (whether or not a plan was ever
      generated), otherwise the summary counts, the plan and the skipped tasks. */
  function Explain(s: Scheduler): (r: Explanation)
    ensures r.NothingScheduled? <==> s.plan == []
    ensures r.Report? ==> && r.ownerName == s.owner.name
                          && r.scheduled == |s.plan|
                          && r.incomplete == |IncompleteTasks(s)|
                          && r.totalMinutes == TotalScheduledTime(s)
                          && r.availableMinutes == s.owner.available
                          && r.remainingMinutes == r.availableMinutes - r.totalMinutes
                          && r.planned == s.plan
                          && r.skipped == Skipped(s)
  {
    if s.plan == [] then NothingScheduled
    else
      var total := TotalScheduledTime(s);
      var available := s.owner.available;
      Report(s.owner.name, |s.plan|, |IncompleteTasks(s)|, total, available, available - total,
             s.plan, Skipped(s))
  }

  /** Right after a plan is generated from registered task objects that are all distinct, the
      explanation is the fixed text exactly when no incomplete task fits the budget on its own;
      otherwise the skipped tasks and the planned tasks together are exactly the incomplete tasks,
      no time is overdrawn, and the counts agree. */
  lemma {:induction false} ExplainAfterGenerate(s: Scheduler)
    requires UniqueIds(s.tasks)
    ensures Explain(GenerateDailyPlan(s)).NothingScheduled? <==>
              forall t :: t in IncompleteTasks(s) ==> t.duration > s.owner.available
    ensures var g := GenerateDailyPlan(s);
            var e := Explain(g);
            e.Report? ==> && multiset(e.skipped) + multiset(g.plan) == multiset(IncompleteTasks(s))
                          && e.remainingMinutes >= 0
                          && e.scheduled + |e.skipped| == e.incomplete
  {
    var g := GenerateDailyPlan(s);
    NothingFits(s);
    var e := Explain(g);
    if e.Report? {
      SubsequenceMultiset(g.plan, PrioritizeTasks(s));
      SkippedComplementsPlan(s, g.plan);
      assert |multiset(e.skipped) + multiset(g.plan)| == |multiset(IncompleteTasks(s))|;
    }
  }

  /** The generated plan is empty exactly when no incomplete task fits the budget on its own. */
  lemma NothingFits(s: Scheduler)
    ensures GenerateDailyPlan(s).plan == [] <==>
              forall t :: t in IncompleteTasks(s) ==> t.duration > s.owner.available
  {
    var ranked := PrioritizeTasks(s);
    var open := IncompleteTasks(s);
    GreedyPlanEmpty(ranked, s.owner.available, 0);
    assert forall t :: t in ranked <==> t in open by {
      forall t ensures t in ranked <==> t in open {
        assert t in ranked <==> t in multiset(ranked);
        assert t in open <==> t in multiset(open);
      }
    }
  }

  /** With distinct task objects, a plan drawn from the incomplete tasks and the tasks skipped
      beside it partition the incomplete tasks. */
  lemma SkippedComplementsPlan(s: Scheduler, plan: seq<Task>)
    requires UniqueIds(s.tasks)
    requires multiset(plan) <= multiset(IncompleteTasks(s))
    ensures multiset(Skipped(s.(plan := plan))) + multiset(plan) == multiset(IncompleteTasks(s))
  {
    var g := s.(plan := plan);
    var open := IncompleteTasks(s);
    assert IncompleteTasks(g) == open;
    var sk := Skipped(g);
    forall x ensures multiset(sk)[x] + multiset(plan)[x] == multiset(open)[x] {
      SkippedCount(s, plan, x);
    }
    assert multiset(sk) + multiset(plan) == multiset(open);
  }

  /** The partition of `SkippedComplementsPlan`, counted for one task. */
  lemma SkippedCount(s: Scheduler, plan: seq<Task>, x: Task)
    requires UniqueIds(s.tasks)
    requires multiset(plan) <= multiset(IncompleteTasks(s))
    ensures multiset(Skipped(s.(plan := plan)))[x] + multiset(plan)[x] == multiset(IncompleteTasks(s))[x]
  {
    var open := IncompleteTasks(s);
    var ids := PlannedIds(plan);
    assert IncompleteTasks(s.(plan := plan)) == open;
    if x in open {
      assert x in s.tasks by { assert x in multiset(open); assert x in multiset(s.tasks); }
      AtMostOnce(s.tasks, x);
      if x in plan {
        assert x.id in ids;
      } else {
        forall u | u in plan ensures u.id != x.id {
          assert u in multiset(open);
          assert u in s.tasks by { assert u in multiset(s.tasks); }
          SameIdSameTask(s.tasks, u, x);
        }
      }
    } else {
      assert multiset(plan)[x] == 0;
    }
  }

  /** In a list of distinct task objects every task occurs once. */
  lemma {:induction false} AtMostOnce(ts: seq<Task>, x: Task)
    requires UniqueIds(ts)
    ensures multiset(ts)[x] <= 1
  {
    if ts != [] {
      assert UniqueIds(ts[1..]) by {
        forall i, j | 0 <= i < j < |ts[1..]| ensures ts[1..][i].id != ts[1..][j].id {
          assert ts[1..][i] == ts[i + 1] && ts[1..][j] == ts[j + 1];
        }
      }
      AtMostOnce(ts[1..], x);
      assert ts == [ts[0]] + ts[1..];
      if ts[0] == x {
        assert x !in ts[1..] by {
          forall i | 0 <= i < |ts[1..]| ensures ts[1..][i] != x {
            assert ts[1..][i] == ts[i + 1];
          }
        }
      }
    }
  }

  /** In a list of distinct task objects, two members with the same identity are the same task. */
  lemma SameIdSameTask(ts: seq<Task>, a: Task, b: Task)
    requires UniqueIds(ts) && a in ts && b in ts
    ensures a.id == b.id ==> a == b
  {
    var i :| 0 <= i < |ts| && ts[i] == a;
    var j :| 0 <= j < |ts| && ts[j] == b;
  }

  /** The planned task of the identity example. */
  function Planned(): Task {
    Task(1, "Walk", 30, 5, Walk, Pet("Rex", "dog", 3, [], None), false)
  }

  /** A distinct task object with the same fields as `Planned()`. */
  function Copy(): Task {
    Planned().(id := 2)
  }

  /** The plan built with `Planned()` as the only registered task. */
  function PlannedAlone(): Scheduler {
    GenerateDailyPlan(AddTask(NewScheduler(Owner(0, "Jordan", 120, [])), Planned()))
  }

  /** A lone open task that fits the budget is planned. */
  lemma LoneTaskPlanned(s: Scheduler, t: Task)
    requires s.tasks == [t] && !t.completed && t.duration <= s.owner.available
    ensures GenerateDailyPlan(s).plan == [t]
  {
    FilterKeepsAll(s.tasks, IsOpen);
    assert IncompleteTasks(s) == [t];
    assert [t][1..] == [];
    assert Prioritize([t]) == Insert(t, []) == [t];
    assert PrioritizeTasks(s) == [t];
    assert GreedyPlan([t], s.owner.available, 0) == [t];
  }

  /** With `Planned()` the only task and 120 minutes available, the plan is just that task. */
  lemma PlannedAloneIsPlanned()
    ensures PlannedAlone().plan == [Planned()] && PlannedAlone().tasks == [Planned()]
  {
    var o := Owner(0, "Jordan", 120, []);
    assert !Contains([], Planned());
    assert AddTask(NewScheduler(o), Planned()) == Scheduler(o, [Planned()], []);
    LoneTaskPlanned(Scheduler(o, [Planned()], []), Planned());
  }

  /** Removing and then adding a task `==` to the only registered one swaps it in; the plan
      is left as it was. */
  lemma SwapByEqual(s: Scheduler, a: Task, b: Task)
    requires s.tasks == [a] && a.Equals(b)
    ensures var r := AddTask(RemoveTask(s, b), b); r.tasks == [b] && r.plan == s.plan
  {
    assert Contains(s.tasks, b) by { assert s.tasks[0].Equals(b); }
    assert IndexOfEqual(s.tasks, b) == 0;
    var r := RemoveTask(s, b);
    assert r.tasks == [];
    assert !Contains(r.tasks, b);
  }

  /** `remove_task(copy)` removes the planned object, and `add_task(copy)` registers the copy. */
  lemma CopyReplacesPlanned()
    ensures var s1 := AddTask(RemoveTask(PlannedAlone(), Copy()), Copy());
            s1.plan == [Planned()] && s1.tasks == [Copy()]
  {
    PlannedAloneIsPlanned();
    SwapByEqual(PlannedAlone(), Planned(), Copy());
  }

  /** A scheduler whose plan holds `Planned()` while its only registered task is `Copy()`. */
  lemma CopySkipped(s: Scheduler)
    requires s.tasks == [Copy()] && s.plan == [Planned()]
    ensures Skipped(s) == [Copy()]
  {
    assert IncompleteTasks(s) == [Copy()] by {
      FilterKeepsAll(s.tasks, IsOpen);
    }
    assert PlannedIds(s.plan) == {1};
    var r := Skipped(s);
    assert Copy() in r;
    SubsequenceMultiset(r, [Copy()]);
    assert |r| == 1 by {
      assert |multiset(r)| <= |multiset([Copy()])|;
    }
    assert r == [r[0]];
  }

  /** Identity, not `==`, decides what is skipped. A task is planned, then removed by a field-equal
      copy, which is then registered: the copy is reported as skipped although it is `==` to the
      planned task. */
  lemma SkippedUsesIdentity()
    ensures var s1 := AddTask(RemoveTask(PlannedAlone(), Copy()), Copy());
            && Planned().Equals(Copy())
            && s1.plan == [Planned()]
            && Explain(s1).skipped == [Copy()]
  {
    CopyReplacesPlanned();
    CopySkipped(AddTask(RemoveTask(PlannedAlone(), Copy()), Copy()));
  }
}
