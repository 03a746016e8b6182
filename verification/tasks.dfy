/**
 * The task intents of the main page and the "now" page: toggle (with the
 * completion gate and the points rule), add, edit and delete. Every intent
 * is a pure step from one document to the next; the new id and the clock
 * reading are parameters.
 */
module Tasks {
  import opened Wrappers
  import opened Entities
  import opened Lists
  import opened Forest
  import opened Text
  import Tree

  // ---------------------------------------------------------------------------
  // Updating the tasks with one id

  /** `prev.map(t => t.id === id ? f(t) : t)`. */
  function UpdateWhere(ts: seq<Task>, id: string, f: Task -> Task): (r: seq<Task>)
    ensures |r| == |ts|
    ensures forall i | 0 <= i < |ts| :: r[i] == if ts[i].id == id then f(ts[i]) else ts[i]
  {
    if ts == [] then []
    else [if ts[0].id == id then f(ts[0]) else ts[0]] + UpdateWhere(ts[1..], id, f)
  }

  /** The spread `{ ...t, completed: done, completedAt: at }`. */
  function Completion(done: bool, at: Option<string>): Task -> Task {
    (t: Task) => t.(completed := done, completedAt := at)
  }

  /** The completion update keeps every id and parent id, so the forest is unchanged. */
  lemma CompletionKeepsShape(ts: seq<Task>, id: string, done: bool, at: Option<string>)
    ensures SameShape(ts, UpdateWhere(ts, id, Completion(done, at)))
  {
  }

  // ---------------------------------------------------------------------------
  // toggleTask

  /** `willComplete ? prev + 1 : Math.max(0, prev - 1)`. */
  function TogglePoints(p: int, willComplete: bool): int {
    if willComplete then p + 1 else if p - 1 > 0 then p - 1 else 0
  }

  /**
   * The body of `toggleTask` once the target has been looked up: no target is
   * a no-op; an incomplete target with an open descendant is refused;
   * otherwise every task with the id flips to `!target.completed`, the stamp
   * follows, and the points move by the rule.
   */
  function Toggle(d: Document, target: Option<nat>, id: string, now: string): Step
    requires target.Some? ==> target.value < |d.tasks|
  {
    match target
    case None => Step(d, NotFound)
    case Some(j) =>
      var t := d.tasks[j];
      if !t.completed && SomeOpenDescendant(d.tasks, id) then Step(d, BlockedByOpenDescendant)
      else
        var willComplete := !t.completed;
        var stamp := if willComplete then Some(now) else None;
        Step(Document(UpdateWhere(d.tasks, id, Completion(willComplete, stamp)), d.goals,
                      TogglePoints(d.points, willComplete)),
             Applied)
  }

  /** `toggleTask` on the main page: the target is `tasks.find(...)`, the first task with the id. */
  function ToggleTask(d: Document, id: string, now: string): Step {
    Toggle(d, IndexOf(d.tasks, id), id, now)
  }

  /** `toggleTask` on the "now" page: the target is `taskMap.get(id)`, the last task with the id. */
  function ToggleTaskNow(d: Document, id: string, now: string): Step {
    Toggle(d, LastIndexOf(d.tasks, id), id, now)
  }

  /** With distinct ids both pages' toggles are the same step. */
  lemma TogglesAgree(d: Document, id: string, now: string)
    requires UniqueIds(d.tasks)
    ensures ToggleTask(d, id, now) == ToggleTaskNow(d, id, now)
  {
    LookupsAgree(d.tasks, id);
  }

  /**
   * A toggle that is not applied changes nothing; it is refused for an
   * unknown id, and for an incomplete task exactly when something below it
   * is open.
   */
  lemma ToggleRefusals(d: Document, id: string, now: string)
    requires UniqueIds(d.tasks)
    ensures var s := ToggleTask(d, id, now);
      && (s.outcome != Applied ==> s.doc == d)
      && (s.outcome == NotFound <==> id !in Ids(d.tasks))
      && (s.outcome == BlockedByOpenDescendant <==>
            exists t :: t in d.tasks && t.id == id && !t.completed && SomeOpenDescendant(d.tasks, id))
      && (s.outcome == Applied || s.outcome == NotFound || s.outcome == BlockedByOpenDescendant)
  {
    IndexOfSpec(d.tasks, id);
    if t :| t in d.tasks && t.id == id {
      IndexOfMember(d.tasks, t);
    }
  }

  /**
   * An applied toggle flips `completed` on the target only, stamps it with
   * the clock reading exactly when it is now completed, keeps the other tasks and the goals, and moves
   * the points by one (never below zero when un-completing).
   */
  lemma ToggleApplied(d: Document, id: string, now: string)
    requires UniqueIds(d.tasks)
    requires ToggleTask(d, id, now).outcome == Applied
    ensures var s := ToggleTask(d, id, now);
      && id in Ids(d.tasks)
      && |s.doc.tasks| == |d.tasks|
      && s.doc.goals == d.goals
      && (forall i | 0 <= i < |d.tasks| && d.tasks[i].id != id :: s.doc.tasks[i] == d.tasks[i])
      && (forall i | 0 <= i < |d.tasks| && d.tasks[i].id == id ::
            && s.doc.tasks[i].completed == !d.tasks[i].completed
            && (s.doc.tasks[i].completedAt.Some? <==> s.doc.tasks[i].completed)
            && (s.doc.tasks[i].completed ==> s.doc.tasks[i].completedAt == Some(now))
            && s.doc.tasks[i] == d.tasks[i].(completed := s.doc.tasks[i].completed,
                                             completedAt := s.doc.tasks[i].completedAt)
            && (s.doc.tasks[i].completed ==> s.doc.points == d.points + 1)
            && (!s.doc.tasks[i].completed ==> s.doc.points == if d.points >= 1 then d.points - 1 else 0))
  {
    var j := IndexOf(d.tasks, id).value;
    forall i | 0 <= i < |d.tasks| && d.tasks[i].id == id
      ensures i == j
    {
    }
  }

  /** Completing a task adds a point and un-completing it takes the point back. */
  lemma PointsRoundTrip(p: int)
    requires p >= 0
    ensures TogglePoints(TogglePoints(p, true), false) == p
    ensures TogglePoints(p, false) >= 0 && TogglePoints(p, true) >= 1
  {
  }

  /** The other order does not round-trip at zero: the floor swallows the un-completion. */
  lemma PointsFloor()
    ensures TogglePoints(TogglePoints(0, false), true) == 1
  {
  }

  /** Every completed task carries a stamp and no open task does. */
  ghost predicate StampsAgree(ts: seq<Task>) {
    forall i | 0 <= i < |ts| :: ts[i].completedAt.Some? <==> ts[i].completed
  }

  /** A toggle keeps stamps and completion in step. */
  lemma ToggleKeepsStamps(d: Document, id: string, now: string)
    requires UniqueIds(d.tasks) && StampsAgree(d.tasks)
    ensures StampsAgree(ToggleTask(d, id, now).doc.tasks)
  {
    if ToggleTask(d, id, now).outcome == Applied {
      ToggleApplied(d, id, now);
    } else {
      ToggleRefusals(d, id, now);
    }
  }

  /** Completing a task and toggling it again restores the document. */
  lemma ToggleRoundTrip(d: Document, id: string, now: string, later: string)
    requires UniqueIds(d.tasks) && StampsAgree(d.tasks) && d.points >= 0
    requires ToggleTask(d, id, now).outcome == Applied
    requires ToggleTask(d, id, now).doc.points == d.points + 1
    ensures var s := ToggleTask(ToggleTask(d, id, now).doc, id, later);
      s.outcome == Applied && s.doc == d
  {
    var d1 := ToggleTask(d, id, now).doc;
    ToggleApplied(d, id, now);
    var j := IndexOf(d.tasks, id).value;
    IndexOfSpec(d.tasks, id);
    assert !d.tasks[j].completed;
    CompletionKeepsShape(d.tasks, id, true, Some(now));
    SameShapeAncestry(d.tasks, d1.tasks);
    SameShapeIndexFrom(d.tasks, d1.tasks, id, 0);
    assert d1.tasks[j].completed;
    var d2 := ToggleTask(d1, id, later).doc;
    ToggleApplied(d1, id, later);
    assert d2.tasks == d.tasks;
  }

  /** No completed task has anything open below it. */
  ghost predicate ClosedBelow(ts: seq<Task>) {
    forall i | 0 <= i < |ts| && ts[i].completed :: !SomeOpenDescendant(ts, ts[i].id)
  }

  /** The task with this id is open, so a toggle would complete it. */
  predicate Opens(ts: seq<Task>, id: string) {
    exists t :: t in ts && t.id == id && !t.completed
  }

  /**
   * Completing through the gate keeps every completed task's subtree closed:
   * the gate checks the target, and the target's ancestors had it open
   * below them, so none of them was completed.
   */
  lemma CompletionKeepsClosed(d: Document, id: string, now: string)
    requires UniqueIds(d.tasks) && ClosedBelow(d.tasks)
    requires Opens(d.tasks, id) && ToggleTask(d, id, now).outcome == Applied
    ensures ClosedBelow(ToggleTask(d, id, now).doc.tasks)
  {
    var us := ToggleTask(d, id, now).doc.tasks;
    ToggleApplied(d, id, now);
    forall a | 0 <= a < |us| && us[a].completed
      ensures !SomeOpenDescendant(us, us[a].id)
    {
      ClosedAfterCompletion(d, id, now, a);
    }
  }

  lemma ClosedAfterCompletion(d: Document, id: string, now: string, a: nat)
    requires UniqueIds(d.tasks) && ClosedBelow(d.tasks)
    requires Opens(d.tasks, id) && ToggleTask(d, id, now).outcome == Applied
    requires a < |d.tasks| && ToggleTask(d, id, now).doc.tasks[a].completed
    ensures !SomeOpenDescendant(ToggleTask(d, id, now).doc.tasks, d.tasks[a].id)
  {
    var ts := d.tasks;
    var us := ToggleTask(d, id, now).doc.tasks;
    ToggleApplied(d, id, now);
    CompletionKeepsShape(ts, id, true, Some(now));
    CompletedTargets(d, id, now);
    forall x | 0 <= x < |us| && IsStrictDescendant(us, us[x], ts[a].id)
      ensures us[x].completed
    {
      SameShapeDescendant(us, ts, x, ts[a].id);
      if ts[a].id != id {
        assert ts[a].completed;
      }
    }
  }

  /** Completing through the gate: the target was open with nothing open below it, and every task with the id is now completed. */
  lemma CompletedTargets(d: Document, id: string, now: string)
    requires UniqueIds(d.tasks)
    requires Opens(d.tasks, id) && ToggleTask(d, id, now).outcome == Applied
    ensures !SomeOpenDescendant(d.tasks, id)
    ensures forall i | 0 <= i < |d.tasks| && d.tasks[i].id == id ::
      !d.tasks[i].completed && ToggleTask(d, id, now).doc.tasks[i].completed
  {
    var t :| t in d.tasks && t.id == id && !t.completed;
    IndexOfMember(d.tasks, t);
    ToggleApplied(d, id, now);
  }

  /**
   * Un-completing is not gated: with a completed parent and child,
   * un-completing the child leaves the parent completed above an open task.
   */
  lemma UncompletionCanOpenBelow()
    ensures var parent := Task("p", "parent", None, None, true, Some("t0"));
      var child := Task("c", "child", Some("p"), None, true, Some("t1"));
      var d := Document([parent, child], [], 2);
      && ClosedBelow(d.tasks)
      && ToggleTask(d, "c", "t2").outcome == Applied
      && !ClosedBelow(ToggleTask(d, "c", "t2").doc.tasks)
  {
    var parent := Task("p", "parent", None, None, true, Some("t0"));
    var child := Task("c", "child", Some("p"), None, true, Some("t1"));
    var ts := [parent, child];
    var us := ToggleTask(Document(ts, [], 2), "c", "t2").doc.tasks;
    assert Links(ts) == [None, Some(0)] by {
      LinksAt(ts, 0);
      LinksAt(ts, 1);
    }
    assert !SomeOpenDescendant(ts, "p") by {
      forall i | 0 <= i < 2
        ensures ts[i].completed
      {
      }
    }
    assert !SomeOpenDescendant(ts, "c") by {
      assert forall t | t in ts :: ParentKey(t) != Some("c");
      FilterNone(ts, FiledUnder("c"));
      NoChildrenNoOpenDescendant(ts, "c");
    }
    assert IndexOf(ts, "c") == Some(1) by {
      assert IndexFrom(ts, "c", 1) == Some(1);
    }
    assert us == UpdateWhere(ts, "c", Completion(false, None));
    assert !us[1].completed && us[1].id == "c";
    assert KeyAt(us, us[1], 0) == Some("p");
  }

  // ---------------------------------------------------------------------------
  // addtask / addTask

  /** `{ id, title: input.trim(), completed: false, deadline, parentId: parentId || undefined }`. */
  function NewTask(newId: string, input: string, deadline: Option<int>, parentId: string): Task {
    Task(newId, Trim(input), if parentId == "" then None else Some(parentId), deadline, false, None)
  }

  /**
   * `addtask` / `addTask`: a blank input changes nothing; otherwise the new
   * task goes to the front of the list. `newId` stands for `nanoid(6)` or
   * `crypto.randomUUID().slice(0, 6)`.
   */
  function AddTask(d: Document, input: string, deadline: Option<int>, parentId: string, newId: string): Document {
    if Trim(input) == "" then d
    else d.(tasks := [NewTask(newId, input, deadline, parentId)] + d.tasks)
  }

  /**
   * A blank input is a no-op. Otherwise exactly one task is put in front of
   * the others: the trimmed input as its (non-blank) title, the given
   * deadline, open, unstamped, filed under the given parent (none for an
   * empty parent field).
   */
  lemma AddTaskSpec(d: Document, input: string, deadline: Option<int>, parentId: string, newId: string)
    ensures var r := AddTask(d, input, deadline, parentId, newId);
      && (Blank(input) ==> r == d)
      && (!Blank(input) ==>
            && |r.tasks| == |d.tasks| + 1
            && r.tasks[1..] == d.tasks
            && r.goals == d.goals && r.points == d.points
            && r.tasks[0].id == newId
            && r.tasks[0].title == Trim(input)
            && r.tasks[0].title != "" && !IsSpace(r.tasks[0].title[0])
            && !IsSpace(r.tasks[0].title[|r.tasks[0].title| - 1])
            && !r.tasks[0].completed && r.tasks[0].completedAt.None?
            && r.tasks[0].deadline == deadline
            && (ParentKey(r.tasks[0]) == Some(parentId) <==> parentId != "")
            && (parentId == "" ==> r.tasks[0].parentId.None?))
  {
  }

  /** A fresh id keeps the ids distinct. */
  lemma AddTaskFresh(d: Document, input: string, deadline: Option<int>, parentId: string, newId: string)
    requires UniqueIds(d.tasks) && newId !in Ids(d.tasks)
    ensures UniqueIds(AddTask(d, input, deadline, parentId, newId).tasks)
  {
    if !Blank(input) {
      UniqueIdsCons(NewTask(newId, input, deadline, parentId), d.tasks);
    }
  }

  /**
   * A new child is listed first under its parent, and the parent now has an
   * open descendant, so completing it is refused until the child is done.
   */
  lemma AddTaskBlocksParent(d: Document, input: string, deadline: Option<int>, parentId: string, newId: string)
    requires !Blank(input) && parentId != ""
    ensures var ts := AddTask(d, input, deadline, parentId, newId).tasks;
      && Children(ts, parentId) == [ts[0]] + Children(d.tasks, parentId)
      && SomeOpenDescendant(ts, parentId)
  {
    var ts := AddTask(d, input, deadline, parentId, newId).tasks;
    FilterAppend([ts[0]], d.tasks, FiledUnder(parentId));
    assert KeyAt(ts, ts[0], 0) == Some(parentId);
  }

  // ---------------------------------------------------------------------------
  // saveTask

  /** The spread `{ ...t, title: input, deadline, parentId: parentId || undefined }`. */
  function Edit(input: string, deadline: Option<int>, parentId: string): Task -> Task {
    (t: Task) => t.(title := input, deadline := deadline, parentId := if parentId == "" then None else Some(parentId))
  }

  /**
   * `saveTask`: without an editing id (null or empty) nothing changes;
   * otherwise every task with that id takes the form's title (untrimmed),
   * deadline and parent.
   */
  function SaveTask(d: Document, editingId: Option<string>, input: string, deadline: Option<int>, parentId: string): Document {
    match editingId
    case None => d
    case Some(e) => if e == "" then d else d.(tasks := UpdateWhere(d.tasks, e, Edit(input, deadline, parentId)))
  }

  /**
   * A save edits exactly the tasks with the editing id: title, deadline and
   * parent change (an empty parent field clears the parent), and id,
   * completion and stamp stay.
   */
  lemma SaveTaskSpec(d: Document, editingId: Option<string>, input: string, deadline: Option<int>, parentId: string)
    ensures var r := SaveTask(d, editingId, input, deadline, parentId);
      && (editingId.None? || editingId == Some("") ==> r == d)
      && r.goals == d.goals && r.points == d.points
      && |r.tasks| == |d.tasks|
      && Ids(r.tasks) == Ids(d.tasks)
      && (forall i | 0 <= i < |d.tasks| ::
            && r.tasks[i].id == d.tasks[i].id
            && r.tasks[i].completed == d.tasks[i].completed
            && r.tasks[i].completedAt == d.tasks[i].completedAt)
      && (forall i | 0 <= i < |d.tasks| && (editingId.None? || d.tasks[i].id != editingId.value) ::
            r.tasks[i] == d.tasks[i])
      && (forall i | 0 <= i < |d.tasks| && editingId == Some(d.tasks[i].id) && d.tasks[i].id != "" ::
            && r.tasks[i].title == input
            && r.tasks[i].deadline == deadline
            && (ParentKey(r.tasks[i]) == Some(parentId) <==> parentId != "")
            && (parentId == "" ==> r.tasks[i].parentId.None?)
            && (parentId != "" ==> r.tasks[i].parentId == Some(parentId)))
  {
    var r := SaveTask(d, editingId, input, deadline, parentId);
    forall x | x in Ids(r.tasks)
      ensures x in Ids(d.tasks)
    {
      var i :| 0 <= i < |r.tasks| && r.tasks[i].id == x;
      assert d.tasks[i] in d.tasks;
    }
    forall x | x in Ids(d.tasks)
      ensures x in Ids(r.tasks)
    {
      var i :| 0 <= i < |d.tasks| && d.tasks[i].id == x;
      assert r.tasks[i] in r.tasks;
    }
  }

  // ---------------------------------------------------------------------------
  // onDelete

  /** The test `task.id !== id`. */
  function IdIsNot(id: string): Task -> bool {
    (t: Task) => t.id != id
  }

  /** `onDelete(id)`: `prevTasks.filter(task => task.id !== id)`. */
  function DeleteTask(d: Document, id: string): Document {
    d.(tasks := Filter(d.tasks, IdIsNot(id)))
  }

  /**
   * A delete removes exactly the tasks with that id and keeps the rest in
   * order with distinct ids; the goals and points stay.
   */
  lemma DeleteTaskSpec(d: Document, id: string)
    requires UniqueIds(d.tasks)
    ensures var r := DeleteTask(d, id);
      && (forall t :: t in r.tasks <==> t in d.tasks && t.id != id)
      && (forall i, j | 0 <= i < j < |r.tasks| :: Precedes(d.tasks, r.tasks[i], r.tasks[j]))
      && Ids(r.tasks) == Ids(d.tasks) - {id}
      && r.goals == d.goals && r.points == d.points
      && UniqueIds(r.tasks)
  {
    var ts := d.tasks;
    var rs := DeleteTask(d, id).tasks;
    ChildrenDistinct(ts, id);
    FilterDistinct(ts, IdIsNot(id));
    DeleteKeepsOrder(d, id);
    forall i, j | 0 <= i < |rs| && 0 <= j < |rs| && i != j
      ensures rs[i].id != rs[j].id
    {
      assert rs[i] in ts && rs[j] in ts;
      var a :| 0 <= a < |ts| && ts[a] == rs[i];
      var b :| 0 <= b < |ts| && ts[b] == rs[j];
    }
  }

  /** Any two tasks left by a delete sit in the same order in the list before it. */
  lemma DeleteKeepsOrder(d: Document, id: string)
    ensures var r := DeleteTask(d, id);
      forall i, j | 0 <= i < j < |r.tasks| :: Precedes(d.tasks, r.tasks[i], r.tasks[j])
  {
    var rs := DeleteTask(d, id).tasks;
    forall i, j | 0 <= i < j < |rs|
      ensures Precedes(d.tasks, rs[i], rs[j])
    {
      FilterOrder(d.tasks, IdIsNot(id), i, j);
    }
  }

  /** The former children keep their parent id and, their parent gone, are roots of the rebuilt forest. */
  lemma DeleteOrphansRoots(d: Document, id: string)
    ensures var rs := DeleteTask(d, id).tasks;
      forall t | t in rs && ParentKey(t) == Some(id) :: t in d.tasks && t in Tree.Roots(rs)
  {
    var rs := DeleteTask(d, id).tasks;
    forall k | 0 <= k < |rs|
      ensures rs[k].id != id
    {
      assert rs[k] in rs;
    }
    IndexOfSpec(rs, id);
  }
}
