/** The passive entities of the planner: task categories, pets, owners and tasks,
    with their validating constructor and their small mutators, written as
    functions that return the updated value. */
module Entities {
  import opened Wrappers
  import opened Seqs

  /** The fixed set of care-task categories. */
  datatype TaskType = Walk | Feed | Medication | Grooming | Enrichment | Playtime | Training

  /** A pet. `owner` is the back-reference to the owning `Owner`, recorded by the owner's id. */
  datatype Pet = Pet(name: string, species: string, age: int, specialNeeds: seq<string>, owner: Option<nat>)

  /** An owner: `available` is the daily time budget in minutes. The source does not
      check its sign, so it is an `int`. */
  datatype Owner = Owner(id: nat, name: string, available: int, pets: seq<Pet>)

  /** A care task. `id` is the identity of the task object: two tasks may agree on every
      other field and still be different tasks. */
  datatype Task = Task(id: nat, name: string, duration: int, priority: int, kind: TaskType, pet: Pet, completed: bool)
  {
    /** The dataclass `==` of the source: every declared field is compared, the identity is not. */
    predicate Equals(other: Task) {
      && name == other.name
      && duration == other.duration
      && priority == other.priority
      && kind == other.kind
      && pet == other.pet
      && completed == other.completed
    }

    /** The invariant the constructor establishes. */
    predicate Valid() {
      1 <= priority <= 5 && duration > 0
    }
  }

  /** Every task of the list satisfies the constructor's invariant. */
  predicate AllValid(ts: seq<Task>) {
    forall i :: 0 <= i < |ts| ==> ts[i].Valid()
  }

  /** The two `ValueError`s the task constructor raises. */
  datatype TaskError = PriorityOutOfRange | NonPositiveDuration

  /** Builds a task, rejecting it unless its priority lies in [1, 5] and its duration is
      positive; the priority is checked first. */
  function NewTask(id: nat, name: string, duration: int, priority: int, kind: TaskType, pet: Pet, completed: bool)
    : (r: Result<Task, TaskError>)
    ensures r.Ok? <==> 1 <= priority <= 5 && duration > 0
    ensures r.Ok? ==> r.value.Valid()
    ensures r.Ok? ==> r.value == Task(id, name, duration, priority, kind, pet, completed)
    ensures !(1 <= priority <= 5) ==> r == Err(PriorityOutOfRange)
    ensures 1 <= priority <= 5 && duration <= 0 ==> r == Err(NonPositiveDuration)
  {
    if !(1 <= priority <= 5) then Err(PriorityOutOfRange)
    else if duration <= 0 then Err(NonPositiveDuration)
    else Ok(Task(id, name, duration, priority, kind, pet, completed))
  }

  /** Marks a task as done; nothing else about it changes. */
  function MarkComplete(t: Task): (r: Task)
    ensures r.completed
    ensures r.(completed := t.completed) == t
    ensures t.Valid() ==> r.Valid()
  {
    t.(completed := true)
  }

  /** Records a special need, ignoring the empty string and needs already recorded. */
  function AddSpecialNeed(p: Pet, need: string): (r: Pet)
    ensures r.(specialNeeds := p.specialNeeds) == p
    ensures p.specialNeeds <= r.specialNeeds
    ensures forall n :: n in r.specialNeeds <==> n in p.specialNeeds || (n == need && need != "")
    ensures |r.specialNeeds| <= |p.specialNeeds| + 1
    ensures Distinct(p.specialNeeds) ==> Distinct(r.specialNeeds)
    ensures "" !in p.specialNeeds ==> "" !in r.specialNeeds
    ensures need == "" || need in p.specialNeeds ==> r == p
    ensures need != "" && need !in p.specialNeeds ==> r.specialNeeds == p.specialNeeds + [need]
  {
    if need != "" && need !in p.specialNeeds then p.(specialNeeds := p.specialNeeds + [need]) else p
  }

  /** Recording the same need twice has the effect of recording it once. */
  lemma AddSpecialNeedIdempotent(p: Pet, need: string)
    ensures AddSpecialNeed(AddSpecialNeed(p, need), need) == AddSpecialNeed(p, need)
  {
  }

  /** Every pet of `o` points back to `o`. */
  predicate OwnsAll(o: Owner) {
    forall i :: 0 <= i < |o.pets| ==> o.pets[i].owner == Some(o.id)
  }

  /** `Owner.add_pet`: a pet not yet in the list (by `==`) is appended and its owner link set
      to this owner; a pet already present changes nothing. Returns the updated owner and the
      pet as it is after the call. */
  function AddPet(o: Owner, p: Pet): (r: (Owner, Pet))
    ensures r.0.(pets := o.pets) == o
    ensures o.pets <= r.0.pets && |r.0.pets| <= |o.pets| + 1
    ensures r.1 in r.0.pets
    ensures r.1.(owner := p.owner) == p
    ensures p !in o.pets ==> r.1.owner == Some(o.id) && r.0.pets == o.pets + [r.1]
    ensures p in o.pets ==> r == (o, p)
    ensures OwnsAll(o) ==> OwnsAll(r.0)
  {
    if p !in o.pets then
      var q := p.(owner := Some(o.id));
      (o.(pets := o.pets + [q]), q)
    else
      (o, p)
  }

  /** Adding a pet again, as it is after the first call, changes nothing. */
  lemma AddPetIdempotent(o: Owner, p: Pet)
    ensures AddPet(AddPet(o, p).0, AddPet(o, p).1) == AddPet(o, p)
  {
  }
}
