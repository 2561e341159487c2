/** The scheduler: the owner, the registered tasks in registration order, and the most recently
    built daily plan, with the operations that maintain and query them. */
module Scheduling {
  import opened Wrappers
  import opened Entities
  import opened Seqs
  import opened Priority
  import opened Planner

  /** The scheduler's state. The source's `pets` list is the owner's own list, so it is read
      through `owner.pets` rather than held twice. */
  datatype Scheduler = Scheduler(owner: Owner, tasks: seq<Task>, plan: seq<Task>)

  /** A fresh scheduler: no tasks and no plan. */
  function NewScheduler(owner: Owner): Scheduler {
    Scheduler(owner, [], [])
  }

  /** Python's `t in ts` on tasks: some element is `==` to `t`. Python tests identity first, but
      an object is `==` to itself, so wherever an id names a single task value (`OneValuePerId`)
      that test adds nothing. */
  predicate Contains(ts: seq<Task>, t: Task) {
    exists i :: 0 <= i < |ts| && ts[i].Equals(t)
  }

  /** No two tasks of the list are `==`. */
  predicate NoEqualPair(ts: seq<Task>) {
    forall i, j :: 0 <= i < j < |ts| ==> !ts[i].Equals(ts[j])
  }

  /** No task object occurs twice in the list. */
  predicate UniqueIds(ts: seq<Task>) {
    forall i, j :: 0 <= i < j < |ts| ==> ts[i].id != ts[j].id
  }

  /** Tasks with the same identity are the same object, so they agree on every field. */
  predicate OneValuePerId(ts: seq<Task>) {
    forall i, j :: 0 <= i < |ts| && 0 <= j < |ts| && ts[i].id == ts[j].id ==> ts[i] == ts[j]
  }

  /** `add_task`: registers the task at the end unless an `==` task is already registered. */
  function AddTask(s: Scheduler, t: Task): (r: Scheduler)
    ensures r.owner == s.owner && r.plan == s.plan
    ensures s.tasks <= r.tasks && |r.tasks| <= |s.tasks| + 1
    ensures Contains(r.tasks, t)
    ensures Contains(s.tasks, t) <==> r == s
    ensures !Contains(s.tasks, t) ==> r.tasks == s.tasks + [t]
    ensures NoEqualPair(s.tasks) ==> NoEqualPair(r.tasks)
    ensures AllValid(s.tasks) && t.Valid() ==> AllValid(r.tasks)
  {
    if Contains(s.tasks, t) then s
    else
      assert (s.tasks + [t])[|s.tasks|] == t;
      s.(tasks := s.tasks + [t])
  }

  /** The position of the first task `==` to `t`. */
  function IndexOfEqual(ts: seq<Task>, t: Task): (k: nat)
    requires Contains(ts, t)
    ensures k < |ts| && ts[k].Equals(t)
    ensures forall j :: 0 <= j < k ==> !ts[j].Equals(t)
  {
    if ts[0].Equals(t) then 0
    else
      assert Contains(ts[1..], t) by {
        var i :| 0 <= i < |ts| && ts[i].Equals(t);
        assert ts[1..][i - 1] == ts[i];
      }
      var k := IndexOfEqual(ts[1..], t);
      assert forall j :: 1 <= j < k + 1 ==> ts[j] == ts[1..][j - 1];
      k + 1
  }

  /** Python's `list.remove` guarded by `in`: drops the first task `==` to `t`, if any. */
  function RemoveFirstEqual(ts: seq<Task>, t: Task): (r: seq<Task>)
    ensures IsSubsequence(r, ts)
    ensures !Contains(ts, t) ==> r == ts
    ensures Contains(ts, t) ==> |r| == |ts| - 1
    ensures Contains(ts, t) ==>
              exists k :: && 0 <= k < |ts| && ts[k].Equals(t)
                          && (forall j :: 0 <= j < k ==> !ts[j].Equals(t))
                          && r == ts[..k] + ts[k + 1..]
  {
    if Contains(ts, t) then
      var k := IndexOfEqual(ts, t);
      DeleteIsSubsequence(ts, k);
      ts[..k] + ts[k + 1..]
    else
      SubsequenceReflexive(ts);
      ts
  }

  /** `remove_task`: unregisters the first task `==` to `t`; nothing happens if there is none. */
  function RemoveTask(s: Scheduler, t: Task): (r: Scheduler)
    ensures r.owner == s.owner && r.plan == s.plan
    ensures IsSubsequence(r.tasks, s.tasks)
    ensures Contains(s.tasks, t) ==> |r.tasks| == |s.tasks| - 1
    ensures !Contains(s.tasks, t) ==> r == s
    ensures Contains(s.tasks, t) ==>
              exists k :: && 0 <= k < |s.tasks| && s.tasks[k].Equals(t)
                          && (forall j :: 0 <= j < k ==> !s.tasks[j].Equals(t))
                          && r.tasks == s.tasks[..k] + s.tasks[k + 1..]
    ensures NoEqualPair(s.tasks) ==> !Contains(r.tasks, t)
  {
    RemoveFirstEqualRemovesAll(s.tasks, t);
    s.(tasks := RemoveFirstEqual(s.tasks, t))
  }

  /** Removing from a list with no `==` pair removes every task `==` to `t`. */
  lemma RemoveFirstEqualRemovesAll(ts: seq<Task>, t: Task)
    ensures NoEqualPair(ts) ==> !Contains(RemoveFirstEqual(ts, t), t)
  {
    if NoEqualPair(ts) && Contains(ts, t) {
      var k := IndexOfEqual(ts, t);
      var r := RemoveFirstEqual(ts, t);
      forall i | 0 <= i < |r| ensures !r[i].Equals(t) {
        var j := if i < k then i else i + 1;
        assert r[i] == ts[j];
        if j < k {
          assert !ts[j].Equals(ts[k]);
        } else {
          assert !ts[k].Equals(ts[j]);
        }
      }
    }
  }

  /** `remove_task` after registering a new task restores the scheduler: the task is appended
      last, and no earlier task is `==` to it, so it is the one removed. */
  lemma AddThenRemove(s: Scheduler, t: Task)
    requires !Contains(s.tasks, t)
    ensures RemoveTask(AddTask(s, t), t) == s
  {
    RemoveAppended(s.tasks, t);
  }

  /** Removing `t` from `ts + [t]` gives back `ts` when no task of `ts` is `==` to `t`. */
  lemma RemoveAppended(ts: seq<Task>, t: Task)
    requires !Contains(ts, t)
    ensures RemoveFirstEqual(ts + [t], t) == ts
  {
    var u := ts + [t];
    assert u[|ts|] == t;
    var k := IndexOfEqual(u, t);
    assert forall j :: 0 <= j < |ts| ==> u[j] == ts[j];
    assert u[..|ts|] + u[|ts| + 1..] == ts;
  }

  /** `add_task` never registers a task object twice: its `in` test finds the object itself
      when it is already registered. */
  lemma AddTaskKeepsUniqueIds(s: Scheduler, t: Task)
    requires UniqueIds(s.tasks) && OneValuePerId(s.tasks + [t])
    ensures UniqueIds(AddTask(s, t).tasks)
  {
    if !Contains(s.tasks, t) {
      var u := s.tasks + [t];
      forall i | 0 <= i < |s.tasks| ensures s.tasks[i].id != t.id {
        var x := s.tasks[i];
        assert u[i] == x && u[|s.tasks|] == t;
        assert !x.Equals(t);
      }
    }
  }

  /** Deleting one task keeps the remaining task objects distinct. */
  lemma DeleteKeepsUniqueIds(ts: seq<Task>, k: nat)
    requires UniqueIds(ts) && k < |ts|
    ensures UniqueIds(ts[..k] + ts[k + 1..])
  {
    var r := ts[..k] + ts[k + 1..];
    forall i, j | 0 <= i < j < |r| ensures r[i].id != r[j].id {
      var i', j' := if i < k then i else i + 1, if j < k then j else j + 1;
      assert r[i] == ts[i'] && r[j] == ts[j'];
    }
  }

  /** `remove_task` keeps the registered task objects distinct. */
  lemma RemoveTaskKeepsUniqueIds(s: Scheduler, t: Task)
    requires UniqueIds(s.tasks)
    ensures UniqueIds(RemoveTask(s, t).tasks)
  {
    if Contains(s.tasks, t) {
      DeleteKeepsUniqueIds(s.tasks, IndexOfEqual(s.tasks, t));
    }
  }

  /** `get_tasks_by_pet`: the registered tasks whose pet is `==` to `pet`, in registration order. */
  function TasksByPet(s: Scheduler, pet: Pet): (r: seq<Task>)
    ensures forall t :: multiset(r)[t] == if t.pet == pet then multiset(s.tasks)[t] else 0
    ensures forall i :: 0 <= i < |r| ==> r[i].pet == pet
    ensures IsSubsequence(r, s.tasks)
  {
    FilterCounts(s.tasks, (t: Task) => t.pet == pet);
    Filter(s.tasks, (t: Task) => t.pet == pet)
  }

  /** `get_tasks_by_type`: the registered tasks of category `kind`, in registration order. */
  function TasksByType(s: Scheduler, kind: TaskType): (r: seq<Task>)
    ensures forall t :: multiset(r)[t] == if t.kind == kind then multiset(s.tasks)[t] else 0
    ensures forall i :: 0 <= i < |r| ==> r[i].kind == kind
    ensures IsSubsequence(r, s.tasks)
  {
    FilterCounts(s.tasks, (t: Task) => t.kind == kind);
    Filter(s.tasks, (t: Task) => t.kind == kind)
  }

  /** A task still to be done. */
  predicate IsOpen(t: Task) {
    !t.completed
  }

  /** `get_incomplete_tasks`: the registered tasks not yet completed, in registration order. */
  function IncompleteTasks(s: Scheduler): (r: seq<Task>)
    ensures forall t :: multiset(r)[t] == if t.completed then 0 else multiset(s.tasks)[t]
    ensures forall i :: 0 <= i < |r| ==> !r[i].completed
    ensures IsSubsequence(r, s.tasks)
  {
    FilterCounts(s.tasks, IsOpen);
    Filter(s.tasks, IsOpen)
  }

  /** `get_total_scheduled_time`: the minutes taken by the current plan. */
  function TotalScheduledTime(s: Scheduler): int {
    Duration(s.plan)
  }

  /** `get_schedule`: the most recently built plan. */
  function GetSchedule(s: Scheduler): seq<Task> {
    s.plan
  }

  /** `prioritize_tasks`: exactly the incomplete tasks, ranked by priority (highest first) and
      then by duration (shortest first). */
  function PrioritizeTasks(s: Scheduler): (r: seq<Task>)
    ensures multiset(r) == multiset(IncompleteTasks(s))
    ensures forall t :: t in r <==> t in s.tasks && !t.completed
    ensures Ranked(r)
  {
    var open := IncompleteTasks(s);
    var r := Prioritize(open);
    assert forall t :: t in r <==> t in s.tasks && !t.completed by {
      forall t ensures t in r <==> t in s.tasks && !t.completed {
        assert t in r <==> t in multiset(r);
        assert t in s.tasks <==> t in multiset(s.tasks);
      }
    }
    r
  }

  /** Ties on both keys keep registration order among the incomplete tasks. */
  lemma PrioritizeTasksIsStable(s: Scheduler, p: int, d: int)
    ensures WithRank(PrioritizeTasks(s), p, d) == WithRank(IncompleteTasks(s), p, d)
  {
    PrioritizeIsStable(IncompleteTasks(s), p, d);
  }

  /** `generate_daily_plan`: discards the previous plan and fills a new one, in prioritised order,
      with every task that still fits in the owner's budget when it is reached. */
  function GenerateDailyPlan(s: Scheduler): (r: Scheduler)
    ensures r.owner == s.owner && r.tasks == s.tasks
    ensures IsSubsequence(r.plan, PrioritizeTasks(s))
    ensures forall t :: t in r.plan ==> t in PrioritizeTasks(s)
    ensures forall t :: t in r.plan ==> t in s.tasks && !t.completed
    ensures s.owner.available >= 0 || r.plan != [] ==> TotalScheduledTime(r) <= s.owner.available
    ensures AllValid(s.tasks) && s.owner.available <= 0 ==> r.plan == []
    ensures IncompleteTasks(s) == [] ==> r.plan == [] && TotalScheduledTime(r) == 0
  {
    var ranked := PrioritizeTasks(s);
    var budget := s.owner.available;
    var plan := GreedyPlan(ranked, budget, 0);
    SubsequenceElements(plan, ranked);
    PrioritizedTasksValid(s);
    s.(plan := plan)
  }

  /** Prioritising keeps only registered tasks, so it keeps the constructor's invariant. */
  lemma PrioritizedTasksValid(s: Scheduler)
    ensures AllValid(s.tasks) ==> AllValid(PrioritizeTasks(s))
  {
    var ranked := PrioritizeTasks(s);
    if AllValid(s.tasks) {
      forall i | 0 <= i < |ranked| ensures ranked[i].Valid() {
        assert ranked[i] in ranked;
        var j :| 0 <= j < |s.tasks| && s.tasks[j] == ranked[i];
      }
    }
  }

  /** The plan is the greedy selection from the prioritised list: some decision vector takes a
      task exactly when the minutes already planned plus its duration fit in the budget, and
      the plan is what it takes. */
  lemma GenerateDailyPlanIsGreedy(s: Scheduler) returns (picks: seq<bool>)
    ensures GreedyChoice(PrioritizeTasks(s), s.owner.available, 0, picks)
    ensures GenerateDailyPlan(s).plan == Select(PrioritizeTasks(s), picks)
  {
    picks := GreedyChoiceExists(PrioritizeTasks(s), s.owner.available, 0);
  }

  /** The plan depends only on the owner and the tasks: an earlier plan is discarded, so
      generating twice in a row gives the same plan, which `get_schedule` then returns. */
  lemma GenerateDailyPlanIsDeterministic(s: Scheduler, earlier: seq<Task>)
    ensures GenerateDailyPlan(s.(plan := earlier)) == GenerateDailyPlan(s)
    ensures GenerateDailyPlan(GenerateDailyPlan(s)) == GenerateDailyPlan(s)
    ensures GetSchedule(GenerateDailyPlan(s)) == GenerateDailyPlan(s).plan
  {
  }

  /** The tasks of `ts` other than the task object `id`. */
  function OtherThan(id: nat): Task -> bool {
    (t: Task) => t.id != id
  }

  /** Every occurrence of the task object `id` in `ts`, marked complete. */
  function CompleteById(ts: seq<Task>, id: nat): (r: seq<Task>)
    ensures |r| == |ts|
    ensures forall i :: 0 <= i < |ts| ==> r[i].(completed := ts[i].completed) == ts[i]
    ensures forall i :: 0 <= i < |ts| ==> r[i].completed == (ts[i].completed || ts[i].id == id)
  {
    if ts == [] then []
    else [if ts[0].id == id then MarkComplete(ts[0]) else ts[0]] + CompleteById(ts[1..], id)
  }

  /** Calling `mark_complete` on a registered task object: the object is shared, so the change
      is seen through the task list and through the current plan alike. */
  function MarkCompleteShared(s: Scheduler, id: nat): (r: Scheduler)
    ensures r.owner == s.owner
    ensures |r.tasks| == |s.tasks| && |r.plan| == |s.plan|
    ensures forall i :: 0 <= i < |s.tasks| ==>
              r.tasks[i].(completed := s.tasks[i].completed) == s.tasks[i]
              && r.tasks[i].completed == (s.tasks[i].completed || s.tasks[i].id == id)
    ensures forall i :: 0 <= i < |s.plan| ==>
              r.plan[i].(completed := s.plan[i].completed) == s.plan[i]
              && r.plan[i].completed == (s.plan[i].completed || s.plan[i].id == id)
  {
    s.(tasks := CompleteById(s.tasks, id), plan := CompleteById(s.plan, id))
  }

  /** `mark_complete` keeps the registered task objects distinct, and keeps each identity
      naming a single task value. */
  lemma MarkCompleteSharedKeepsUniqueIds(s: Scheduler, id: nat)
    requires UniqueIds(s.tasks)
    ensures UniqueIds(MarkCompleteShared(s, id).tasks)
    ensures OneValuePerId(s.tasks) ==> OneValuePerId(MarkCompleteShared(s, id).tasks)
  {
    var r := MarkCompleteShared(s, id).tasks;
    assert forall i :: 0 <= i < |r| ==> r[i].id == s.tasks[i].id by {
      forall i | 0 <= i < |r| ensures r[i].id == s.tasks[i].id {
        assert r[i].(completed := s.tasks[i].completed) == s.tasks[i];
      }
    }
  }

  /** Completing a task object drops exactly that object from the incomplete tasks. */
  lemma {:induction false} OpenAfterComplete(ts: seq<Task>, id: nat)
    ensures Filter(CompleteById(ts, id), IsOpen) == Filter(Filter(ts, IsOpen), OtherThan(id))
  {
    if ts != [] {
      var x, rest := ts[0], ts[1..];
      OpenAfterComplete(rest, id);
      var c := CompleteById(ts, id);
      assert c[1..] == CompleteById(rest, id);
      var lhs := Filter(c, IsOpen);
      assert lhs == (if IsOpen(c[0]) then [c[0]] else []) + Filter(c[1..], IsOpen);
      var open := Filter(ts, IsOpen);
      assert open == (if IsOpen(x) then [x] else []) + Filter(rest, IsOpen);
      if IsOpen(x) {
        assert open[1..] == Filter(rest, IsOpen);
        assert Filter(open, OtherThan(id))
            == (if OtherThan(id)(x) then [x] else []) + Filter(Filter(rest, IsOpen), OtherThan(id));
      }
    }
  }

  /** After `mark_complete` the incomplete tasks are the earlier ones minus that object, so it is
      neither prioritised nor planned again. */
  lemma CompletedTaskLeavesPlanning(s: Scheduler, id: nat)
    ensures IncompleteTasks(MarkCompleteShared(s, id)) == Filter(IncompleteTasks(s), OtherThan(id))
    ensures forall t :: t in PrioritizeTasks(MarkCompleteShared(s, id)) ==> t.id != id
    ensures forall t :: t in GenerateDailyPlan(MarkCompleteShared(s, id)).plan ==> t.id != id
  {
    var r := MarkCompleteShared(s, id);
    OpenAfterComplete(s.tasks, id);
    var open := IncompleteTasks(r);
    assert forall i :: 0 <= i < |open| ==> open[i].id != id by {
      forall i | 0 <= i < |open| ensures open[i].id != id {
        assert OtherThan(id)(open[i]);
      }
    }
    var ranked := PrioritizeTasks(r);
    assert forall t :: t in ranked ==> t.id != id by {
      forall t | t in ranked ensures t.id != id {
        assert t in multiset(ranked);
        assert t in multiset(open);
      }
    }
  }

  /** `Scheduler.add_pet` as written. The scheduler's pet list is the owner's list itself, so the
      append already puts the pet in the owner's list; the following `owner.add_pet` then finds it
      there and does nothing, and the pet's owner link is never set. */
  function RegisterPetAsWritten(s: Scheduler, p: Pet): (r: (Scheduler, Pet))
    ensures r.0 == s.(owner := r.0.owner) && r.0.owner.(pets := s.owner.pets) == s.owner
    ensures r.0.owner.pets == if p in s.owner.pets then s.owner.pets else s.owner.pets + [p]
    ensures r.1 == p
  {
    if p !in s.owner.pets then
      var appended := s.owner.(pets := s.owner.pets + [p]);
      assert (s.owner.pets + [p])[|s.owner.pets|] == p;
      var (o, q) := AddPet(appended, p);
      (s.(owner := o), q)
    else
      (s, p)
  }

  /** A pet registered through the scheduler as written ends up in the owner's list without an
      owner link, breaking the back-reference that `Owner.add_pet` maintains. */
  lemma RegisterPetAsWrittenLeavesOwnerUnset()
    ensures var s := NewScheduler(Owner(7, "Jordan", 120, []));
            var p := Pet("Mochi", "cat", 2, [], None);
            var r := RegisterPetAsWritten(s, p);
            && OwnsAll(s.owner)
            && r.0.owner.pets == [p]
            && r.1.owner == None
            && !OwnsAll(r.0.owner)
  {
  }

  /** `Scheduler.add_pet` as evidently intended: the pet joins the owner's list through
      `Owner.add_pet`, which sets its owner link. */
  function RegisterPet(s: Scheduler, p: Pet): (r: (Scheduler, Pet))
    ensures r.0 == s.(owner := r.0.owner) && r.0.owner.(pets := s.owner.pets) == s.owner
    ensures r.1 in r.0.owner.pets
    ensures p in s.owner.pets ==> r == (s, p)
    ensures p !in s.owner.pets ==> r.0.owner.pets == s.owner.pets + [r.1]
    ensures p !in s.owner.pets ==> r.1 == p.(owner := Some(s.owner.id))
    ensures OwnsAll(s.owner) ==> OwnsAll(r.0.owner)
  {
    var (o, q) := AddPet(s.owner, p);
    (s.(owner := o), q)
  }
}
