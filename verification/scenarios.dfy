/** Worked scenarios: the plans the scheduler builds for a few small, fixed inputs. */
module Scenarios {
  import opened Wrappers
  import opened Seqs
  import opened Entities
  import opened Priority
  import opened Planner
  import opened Scheduling

  /** A one-owner, one-pet scheduler with the given budget and tasks registered in order. */
  function Setup(budget: int, tasks: seq<Task>): Scheduler {
    Scheduler(Owner(0, "Jordan", budget, []), tasks, [])
  }

  /** The pet every scenario task belongs to. */
  function Buddy(): Pet {
    Pet("Buddy", "dog", 3, [], None)
  }

  /** An open task of the scenario pet; names play no part in planning and are left empty. */
  function Chore(id: nat, duration: int, priority: int, kind: TaskType): Task {
    Task(id, "", duration, priority, kind, Buddy(), false)
  }

  /** Four tasks of 60, 10, 40 and 40 minutes at priorities 5, 4, 3 and 2, registered in that order. */
  function OverflowTasks(): seq<Task> {
    [Chore(1, 60, 5, Walk), Chore(2, 10, 4, Feed), Chore(3, 40, 3, Playtime), Chore(4, 40, 2, Grooming)]
  }

  /** All four overflow tasks are open. */
  lemma OverflowAllOpen()
    ensures IncompleteTasks(Setup(120, OverflowTasks())) == OverflowTasks()
  {
    FilterKeepsAll(OverflowTasks(), IsOpen);
  }

  /** The overflow tasks are registered in prioritised order already. */
  lemma OverflowAlreadyRanked()
    ensures Prioritize(OverflowTasks()) == OverflowTasks()
  {
    assert Ranked(OverflowTasks());
    PrioritizeRankedIsIdentity(OverflowTasks());
  }

  /** Prioritising the overflow tasks leaves them in registration order. */
  lemma OverflowRanking()
    ensures PrioritizeTasks(Setup(120, OverflowTasks())) == OverflowTasks()
  {
    OverflowAllOpen();
    OverflowAlreadyRanked();
  }

  /** The greedy pass over the overflow tasks with 120 minutes takes the first three. */
  lemma OverflowGreedy()
    ensures GreedyPlan(OverflowTasks(), 120, 0) == OverflowTasks()[..3]
  {
    var ts := OverflowTasks();
    var a, b, c, d := ts[0], ts[1], ts[2], ts[3];
    assert ts == [a, b, c, d];
    assert [d][1..] == [];
    assert GreedyPlan([d], 120, 110) == [];
    assert [c, d][1..] == [d];
    assert GreedyPlan([c, d], 120, 70) == [c];
    assert [b, c, d][1..] == [c, d];
    assert GreedyPlan([b, c, d], 120, 60) == [b, c];
    assert [a, b, c, d][1..] == [b, c, d];
    assert ts[..3] == [a, b, c];
  }

  /** The first three overflow tasks take 110 minutes. */
  lemma OverflowTotal()
    ensures Duration(OverflowTasks()[..3]) == 110
  {
    var ts := OverflowTasks();
    var a, b, c := ts[0], ts[1], ts[2];
    assert ts[..3] == [a, b, c];
    assert [a, b, c][1..] == [b, c] && [b, c][1..] == [c] && [c][1..] == [];
  }

  /** Against a 120-minute budget the first three overflow tasks are taken (110 minutes) and the
      last, which no longer fits, is left out. */
  lemma OverflowScenario()
    ensures var g := GenerateDailyPlan(Setup(120, OverflowTasks()));
            g.plan == OverflowTasks()[..3] && TotalScheduledTime(g) == 110
  {
    OverflowRanking();
    OverflowGreedy();
    OverflowTotal();
  }

  /** A completed task is never planned, even when it would fit. */
  lemma CompletedTaskScenario()
    ensures var done := Task(1, "Walk", 30, 5, Walk, Buddy(), true);
            var open := Task(2, "Feed", 10, 5, Feed, Buddy(), false);
            GenerateDailyPlan(Setup(120, [done, open])).plan == [open]
  {
    var done := Task(1, "Walk", 30, 5, Walk, Buddy(), true);
    var open := Task(2, "Feed", 10, 5, Feed, Buddy(), false);
    var s := Setup(120, [done, open]);
    assert [done, open][1..] == [open];
    assert Filter([open], IsOpen) == [open];
    assert IncompleteTasks(s) == [open];
    assert PrioritizeTasks(s) == [open];
  }
}
