/**
 * The records of TasQuest: tasks (a flat list with parent pointers), goals with
 * their ordered milestones, and the document that holds both plus the points.
 */
module Entities {
  import opened Wrappers

  /**
   * A task. `completed` models the optional boolean with "absent" read as
   * false; `deadline` is the parsed date in milliseconds (an empty date input
   * is absent); `completedAt` is the ISO-8601 stamp written on completion.
   */
  datatype Task = Task(
    id: string,
    title: string,
    parentId: Option<string>,
    deadline: Option<int>,
    completed: bool,
    completedAt: Option<string>)

  datatype Milestone = Milestone(
    id: string,
    title: string,
    completed: bool,
    completedAt: Option<string>)

  /** A goal; `createdAt` is the creation time in milliseconds. */
  datatype Goal = Goal(
    id: string,
    title: string,
    milestones: seq<Milestone>,
    completed: bool,
    createdAt: int)

  /** The persisted document: the whole application state. */
  datatype Document = Document(tasks: seq<Task>, goals: seq<Goal>, points: int)

  /** Why an intent changed nothing, or that it was applied. */
  datatype Outcome =
    | Applied
    | NotFound
    | BlockedByOpenDescendant
    | OutOfSequence(required: string)
    | NotClosable

  /** The result of a toggle intent: the next document and what happened. */
  datatype Step = Step(doc: Document, outcome: Outcome)

  /** The parent key a task is filed under: `parentId` when it is truthy (set and non-empty). */
  function ParentKey(t: Task): (k: Option<string>)
    ensures k.Some? <==> t.parentId.Some? && t.parentId.value != ""
    ensures k.Some? ==> k.value == t.parentId.value
  {
    match t.parentId
    case Some(p) => if p != "" then Some(p) else None
    case None => None
  }

  /** The ids in use: the keys of `new Map(tasks.map(t => [t.id, t]))`. */
  function Ids(ts: seq<Task>): set<string> {
    set t | t in ts :: t.id
  }

  /** Task ids are pairwise distinct (ids are random and assumed not to collide). */
  ghost predicate UniqueIds(ts: seq<Task>) {
    forall i, j | 0 <= i < |ts| && 0 <= j < |ts| && i != j :: ts[i].id != ts[j].id
  }

  /** Putting a task with a fresh id in front keeps the ids distinct. */
  lemma UniqueIdsCons(t: Task, ts: seq<Task>)
    requires UniqueIds(ts) && t.id !in Ids(ts)
    ensures UniqueIds([t] + ts)
  {
    var us := [t] + ts;
    forall i, j | 0 <= i < |us| && 0 <= j < |us| && i != j
      ensures us[i].id != us[j].id
    {
      if i == 0 {
        assert us[j] == ts[j - 1];
      } else if j == 0 {
        assert us[i] == ts[i - 1];
      } else {
        assert us[i] == ts[i - 1] && us[j] == ts[j - 1];
      }
    }
  }

  /** `tasks.find(t => t.id === id)`: the position of the first task with that id. */
  function IndexOf(ts: seq<Task>, id: string): (r: Option<nat>)
    ensures r.Some? ==> r.value < |ts| && ts[r.value].id == id
  {
    IndexFrom(ts, id, 0)
  }

  /** The first position at or after `i` holding a task with that id. */
  function IndexFrom(ts: seq<Task>, id: string, i: nat): (r: Option<nat>)
    requires i <= |ts|
    ensures r.Some? ==> i <= r.value < |ts| && ts[r.value].id == id
    decreases |ts| - i
  {
    if i == |ts| then None
    else if ts[i].id == id then Some(i)
    else IndexFrom(ts, id, i + 1)
  }

  lemma {:induction false} IndexFromSpec(ts: seq<Task>, id: string, i: nat)
    requires i <= |ts|
    ensures IndexFrom(ts, id, i).Some? ==> forall k | i <= k < IndexFrom(ts, id, i).value :: ts[k].id != id
    ensures IndexFrom(ts, id, i).None? <==> forall k | i <= k < |ts| :: ts[k].id != id
    decreases |ts| - i
  {
    if i < |ts| && ts[i].id != id {
      IndexFromSpec(ts, id, i + 1);
    }
  }

  /** `find` returns the first match, and finds nothing only when there is no match. */
  lemma IndexOfSpec(ts: seq<Task>, id: string)
    ensures IndexOf(ts, id).Some? ==> forall k | 0 <= k < IndexOf(ts, id).value :: ts[k].id != id
    ensures IndexOf(ts, id).None? <==> forall k | 0 <= k < |ts| :: ts[k].id != id
  {
    IndexFromSpec(ts, id, 0);
  }

  /** `new Map(tasks.map(t => [t.id, t])).get(id)`: the last task with that id wins. */
  function LastIndexOf(ts: seq<Task>, id: string): (r: Option<nat>)
    ensures r.Some? ==> r.value < |ts| && ts[r.value].id == id
    ensures r.Some? ==> forall k | r.value < k < |ts| :: ts[k].id != id
    ensures r.None? <==> forall k | 0 <= k < |ts| :: ts[k].id != id
  {
    if |ts| == 0 then None
    else if ts[|ts| - 1].id == id then Some(|ts| - 1)
    else LastIndexOf(ts[..|ts| - 1], id)
  }

  /** With distinct ids both lookups find the same task. */
  lemma LookupsAgree(ts: seq<Task>, id: string)
    requires UniqueIds(ts)
    ensures IndexOf(ts, id) == LastIndexOf(ts, id)
  {
    IndexOfSpec(ts, id);
  }

  /** Goal ids are pairwise distinct. */
  ghost predicate UniqueGoalIds(gs: seq<Goal>) {
    forall i, j | 0 <= i < |gs| && 0 <= j < |gs| && i != j :: gs[i].id != gs[j].id
  }

  /** `goals.find(x => x.id === goalId)`. */
  function GoalIndex(gs: seq<Goal>, id: string): (r: Option<nat>)
    ensures r.Some? ==> r.value < |gs| && gs[r.value].id == id
    ensures r.Some? ==> forall k | 0 <= k < r.value :: gs[k].id != id
    ensures r.None? <==> forall k | 0 <= k < |gs| :: gs[k].id != id
  {
    if |gs| == 0 then None
    else if gs[0].id == id then Some(0)
    else
      match GoalIndex(gs[1..], id)
      case Some(j) => Some(j + 1)
      case None => None
  }
}
