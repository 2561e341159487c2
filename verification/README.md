# PawPal+ scheduling core in Dafny

This project models the scheduling engine of PawPal+ (`pawpal_system.py`), a planner for one
owner's daily pet-care tasks, and proves properties of the model. It covers:

- the validating task constructor;
- the task, pet and owner mutators;
- the scheduler's task list operations (add, remove, filter by pet, type or completion);
- prioritisation, a stable sort on the key (-priority, duration) over the incomplete tasks;
- the greedy daily-plan builder and the total scheduled time;
- the branches, counts and skipped-task list of `explain_reasoning`.

Modules:

- `Wrappers`: `Option` and `Result`.
- `Seqs`: an order-preserving `Filter`, the subsequence relation and duplicate-freedom.
- `Entities`: `TaskType`, `Pet`, `Owner`, `Task`, `NewTask` with its `TaskError`, `MarkComplete`,
  `AddSpecialNeed` and `AddPet`.
- `Priority`: the ranking order, `Prioritize` as a stable insertion sort, and its
  characterisation as *the* stable sort.
- `Planner`: the greedy pass `GreedyPlan`, and a declarative description `GreedyChoice` of the
  decisions it makes.
- `Scheduling`: the `Scheduler` record and its operations.
- `Explanations`: what `explain_reasoning` reports.
- `Scenarios`: the worked plans of the project's tests.

Modelling decisions:

- A task carries an `id: nat` that stands for the identity of the Python object. `Task.Equals`
  is the dataclass `==`: every declared field is compared and the id is not. `add_task` and
  `remove_task` test membership with `==` (`Scheduling.Contains`). The skipped list of
  `explain_reasoning` compares ids.
- Mutating a task object is visible wherever that object is held. `mark_complete` on a
  registered task is therefore modelled on the scheduler as a whole: `MarkCompleteShared` marks
  every occurrence of that id, in the task list and in the plan.
- Pets are values. A pet's back-link to its owner is the owner's `id`, held as an
  `Option<nat>`.
- The owner's minute budget is an `int`, because the source never checks its sign.
- Python's `sorted` is stable. Its result is unique: among the lists that are ranked and keep
  each rank's input order there is exactly one. `Priority.PrioritizeIsTheStableSort` proves
  that any such list equals the insertion sort used here.

## Model

| member | source | states |
|---|---|---|
| Entities.NewTask | pawpal_system.py:108-113 | A task is built exactly when 1 <= priority <= 5 and duration > 0, with the given fields. An out-of-range priority is the reported error even when the duration is also bad. |
| Entities.MarkComplete | pawpal_system.py:115-117 | The task becomes completed. Every other field, identity included, is unchanged, and validity is kept. |
| Entities.AddSpecialNeed | pawpal_system.py:82-85 | An empty or already-recorded need leaves the pet unchanged. Any other need is appended at the end, and nothing else about the pet changes. Having no duplicates and having no empty entry are both preserved. |
| Entities.AddSpecialNeedIdempotent | pawpal_system.py:82-85 | Recording the same need twice has the effect of recording it once. |
| Entities.AddPet | pawpal_system.py:47-51 | A pet not already listed is appended, exactly once and as the returned pet, with its owner link set to this owner and no other field changed. A listed pet changes nothing. Nothing but the pet list changes, and "every pet points back to its owner" is preserved. |
| Entities.AddPetIdempotent | pawpal_system.py:47-51 | Adding the same pet again changes nothing. |
| Scheduling.AddTask | pawpal_system.py:155-158 | The call changes nothing exactly when a task `==` to `t` is already registered. Otherwise the object `t` itself is appended at the end. No-`==`-pair and validity are preserved. |
| Scheduling.RemoveTask | pawpal_system.py:160-163 | When a task `==` to `t` is registered, exactly the first such entry is deleted and the others stay in order. Otherwise nothing changes. In a list with no `==` pair, no task `==` to `t` remains. |
| Scheduling.AddTaskKeepsUniqueIds | pawpal_system.py:155-158 | When an identity names one task value, `add_task` never registers the same task object twice. |
| Scheduling.RemoveTaskKeepsUniqueIds | pawpal_system.py:160-163 | `remove_task` keeps the registered task objects distinct. |
| Scheduling.AddThenRemove | pawpal_system.py:155-163 | Removing a newly registered task gives back the scheduler as it was before. |
| Scheduling.TasksByPet | pawpal_system.py:165-167 | Each registered task with that pet is kept, as often as it occurs, in registration order, and no other task is. |
| Scheduling.TasksByType | pawpal_system.py:169-171 | Each registered task of that category is kept, as often as it occurs, in registration order, and no other task is. |
| Scheduling.IncompleteTasks | pawpal_system.py:173-175 | Each registered task not yet completed is kept, as often as it occurs, in registration order, and no completed task is. |
| Priority.Prioritize | pawpal_system.py:218-221 | The result is a permutation of the input, ordered by priority descending and then by duration ascending. |
| Priority.PrioritizeIsStable | pawpal_system.py:218-221 | For every (priority, duration) key, the tasks with that key keep their input order. |
| Priority.PrioritizeIsTheStableSort | pawpal_system.py:218-221 | Any ranked list that keeps each key's input order equals the prioritised list, so the model is the stable sort `sorted` computes. |
| Priority.PrioritizeRankedIsIdentity | pawpal_system.py:218-221 | A list already in ranked order comes back unchanged. |
| Scheduling.PrioritizeTasks | pawpal_system.py:206-223 | The result is a ranked permutation of exactly the incomplete tasks. A task appears in it if and only if it is registered and not completed. |
| Scheduling.PrioritizeTasksIsStable | pawpal_system.py:213-221 | Incomplete tasks with the same key keep their registration order. |
| Planner.GreedyPlan | pawpal_system.py:195-202 | The plan is a subsequence of the list. It never exceeds the budget once it has taken a task. If no task fits on its own, nothing is taken. |
| Planner.GreedyPlanEmpty | pawpal_system.py:195-202 | The pass takes nothing if and only if every task, on its own, overflows the minutes left. |
| Planner.GreedyPlanIsGreedyChoice | pawpal_system.py:199-202 | Any decision vector that takes a task exactly when the minutes already committed plus its duration fit selects precisely the plan the pass builds. |
| Planner.GreedyChoiceExists | pawpal_system.py:199-202 | Such a decision vector exists for every input, and it selects the greedy plan. |
| Planner.GreedyChoiceUnique | pawpal_system.py:199-202 | The greedy decisions are unique. There is no backtracking and no alternative choice. |
| Scheduling.GenerateDailyPlan | pawpal_system.py:181-204 | Only the plan changes. It is a subsequence of the prioritised tasks, holding only registered incomplete tasks. Its total stays within a non-negative budget. It is empty when the budget is 0 or less and all tasks are valid, and empty with total 0 when nothing is incomplete. |
| Scheduling.GenerateDailyPlanIsGreedy | pawpal_system.py:192-202 | The plan is the greedy selection from the prioritised list: a task is taken exactly when it fits in what the earlier picks leave. |
| Scheduling.GenerateDailyPlanIsDeterministic | pawpal_system.py:189-204 | The previous plan is discarded. Generating twice in a row gives the same plan, which `get_schedule` returns. |
| Explanations.NothingFits | pawpal_system.py:192-202 | The generated plan is empty exactly when no incomplete task fits the budget on its own. |
| Scheduling.MarkCompleteShared | pawpal_system.py:115-117 | Every occurrence of the task object, in the task list and in the plan, becomes completed. Nothing else changes. |
| Scheduling.MarkCompleteSharedKeepsUniqueIds | pawpal_system.py:115-117 | `mark_complete` keeps the registered task objects distinct, and keeps each identity naming a single task value. |
| Scheduling.OpenAfterComplete | pawpal_system.py:173-175 | Completing a task object drops exactly that object from the incomplete tasks and keeps the rest in order. |
| Scheduling.CompletedTaskLeavesPlanning | pawpal_system.py:206-214 | After `mark_complete`, the object is neither prioritised nor planned again. |
| Explanations.Skipped | pawpal_system.py:266-270 | The skipped tasks are the incomplete tasks, in registration order, whose identity is not among the planned tasks, counted with multiplicity. |
| Explanations.Explain | pawpal_system.py:225-283 | The fixed text is reported exactly when the plan is empty, whether or not a plan was ever generated. Otherwise the report gives the owner's name, the plan length, the incomplete count, the total, available and remaining minutes, the plan, and the skipped tasks. |
| Explanations.ExplainAfterGenerate | pawpal_system.py:232-270 | Right after planning distinct task objects, the fixed text appears exactly when no incomplete task fits. Otherwise the skipped and planned tasks together are exactly the incomplete tasks, the remaining minutes are not negative, and scheduled plus skipped equals the incomplete count. |
| Explanations.SkippedComplementsPlan | pawpal_system.py:266-270 | With distinct task objects, the plan and the skipped tasks partition the incomplete tasks. |
| Explanations.SkippedUsesIdentity | pawpal_system.py:266-270 | A task is planned, then replaced through `remove_task` and `add_task` by a `==` copy that is a different object. The copy is reported as skipped. |
| Scheduling.RegisterPetAsWritten | pawpal_system.py:149-153 | `Scheduler.add_pet` as written: a pet not yet listed is appended to the owner's list unchanged, and the pet it returns is unchanged. The tasks, the plan and the owner's other fields stay as they were. |
| Scheduling.RegisterPetAsWrittenLeavesOwnerUnset | pawpal_system.py:149-153 | Registering a new pet through the scheduler as written leaves its owner link unset, which breaks the back-reference invariant. |
| Scheduling.RegisterPet | pawpal_system.py:149-153 | Corrected `Scheduler.add_pet`: a listed pet changes nothing. A new pet is appended once, as the returned pet, with its owner link set. The tasks, the plan and the owner's other fields are unchanged, and "every pet points back to its owner" is preserved. |
| Scenarios.OverflowScenario | test_pawpal_system.py:208-229 | Tasks of 60, 10, 40 and 40 minutes at priorities 5 to 2 meet a 120-minute budget. The first three are planned, for 110 minutes, and the last is left out. |
| Scenarios.CompletedTaskScenario | test_pawpal_system.py:231-245 | A completed task is not planned even though it would fit. The open task is. |

## Left out

- Output text: the wording, emoji and Markdown layout of `explain_reasoning`'s text are not
  modelled. Only its branch, counts and task lists are.
- Other files: the Streamlit interface `app.py` and the command-line demo `main.py` are not
  part of this model. They do no scheduling of their own.
- `Owner.get_available_time`, `Task.get_priority` and `Task.get_duration` are read as plain
  fields.
- `Owner.set_preferences` and `Pet.get_info` are left out: they have no effect on scheduling.
- Equality of pets: `Pet ==` compares the owner link through the owner's id, not through a
  field-by-field comparison of the owner. Owner preferences are not modelled.
- Pets are values: a pet mutated after tasks refer to it is not propagated to those tasks.
- Features that test_pawpal_system.py:384-649 exercises but pawpal_system.py does not define are
  not modelled: clock times, time sorting, conflict detection, frequencies and recurring tasks
  (the `Frequency` import at test_pawpal_system.py:9 names a class pawpal_system.py lacks).
- Scheduling.GenerateDailyPlan: "the total stays within the budget" is stated only for a
  non-negative budget or a non-empty plan. With a negative budget the empty plan totals 0, which
  exceeds it.
- Scheduling.TotalScheduledTime, Scheduling.GetSchedule and Scheduling.NewScheduler are plain
  definitions with no contract of their own. Their properties are stated through
  `GenerateDailyPlan`, `GenerateDailyPlanIsDeterministic` and `OverflowScenario`.
- Explanations.ExplainAfterGenerate: the partition needs the registered task objects to be
  distinct (`UniqueIds`). The model does not carry that as a scheduler invariant; it proves
  instead that `add_task`, `remove_task` and `mark_complete` preserve it, given that an identity
  names a single task value (`OneValuePerId`), which holds of Python objects.
- Entities.AddPetIdempotent and Entities.AddSpecialNeedIdempotent hold by unfolding the
  definitions alone.

## Findings

| source | as written | input that shows it | evidently intended | confidence | as-written member | corrected member |
|---|---|---|---|---|---|---|
| pawpal_system.py:149-153 | `Scheduler.pets` is the owner's own list. `add_pet` appends the pet to it and then calls `owner.add_pet`, which finds the pet already there and does nothing, so the pet's owner link is never set. | A new scheduler for an owner with no pets; register `Pet("Mochi", "cat", 2)` through the scheduler. | Registering through the scheduler should behave like `Owner.add_pet`: the pet is listed once and points back to its owner. | not executed | Scheduling.RegisterPetAsWritten, Scheduling.RegisterPetAsWrittenLeavesOwnerUnset | Scheduling.RegisterPet |
