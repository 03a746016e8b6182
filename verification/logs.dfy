/**
 * The history page: the completed, stamped tasks, most recent stamp first,
 * and `revert`, which reopens a task without touching the points.
 */
module Logs {
  import opened Wrappers
  import opened Entities
  import opened Lists
  import opened Forest
  import opened Sorting
  import opened Text
  import Tasks

  /** `t.completed && t.completedAt`: completed with a non-empty stamp. */
  function IsLogged(): Task -> bool {
    (t: Task) => t.completed && t.completedAt.Some? && t.completedAt.value != ""
  }

  /** `t.completedAt ?? ""`. */
  function Stamp(t: Task): string {
    t.completedAt.GetOr("")
  }

  /** `(b.completedAt ?? "").localeCompare(a.completedAt ?? "")` is negative: `a`'s stamp sorts after `b`'s. */
  predicate LaterStamp(a: Task, b: Task) {
    StrLt(Stamp(b), Stamp(a))
  }

  lemma LaterStampOrder()
    ensures StrictOrder(LaterStamp)
  {
    forall a: Task, b: Task | LaterStamp(a, b)
      ensures !LaterStamp(b, a)
    {
      StrLtAsymmetric(Stamp(b), Stamp(a));
    }
    forall a: Task, b: Task, c: Task | LaterStamp(a, b) && LaterStamp(b, c)
      ensures LaterStamp(a, c)
    {
      StrLtTransitive(Stamp(c), Stamp(b), Stamp(a));
    }
  }

  /** `completed`: the logged tasks, sorted by stamp, latest first. */
  function History(ts: seq<Task>): seq<Task> {
    SortBy(Filter(ts, IsLogged()), LaterStamp)
  }

  /**
   * The history lists exactly the completed tasks with a non-empty stamp,
   * each as often as in the list, and no entry's stamp sorts after an
   * earlier entry's.
   */
  lemma HistorySpec(ts: seq<Task>)
    ensures var r := History(ts);
      && multiset(r) == multiset(Filter(ts, IsLogged()))
      && (forall t :: t in r <==> t in ts && t.completed && t.completedAt.Some? && t.completedAt.value != "")
      && (forall i, j | 0 <= i < j < |r| :: !StrLt(Stamp(r[i]), Stamp(r[j])))
  {
    var f := Filter(ts, IsLogged());
    forall t
      ensures t in History(ts) <==> t in f
    {
      SortByMembers(f, LaterStamp, t);
    }
    LaterStampOrder();
    SortBySorted(f, LaterStamp);
  }

  /** `revert`: every task with the id is reopened and unstamped; the points stay. */
  function Revert(d: Document, id: string): Document {
    d.(tasks := Tasks.UpdateWhere(d.tasks, id, Tasks.Completion(false, None)))
  }

  /**
   * Reverting reopens and unstamps exactly the tasks with the id, changes
   * nothing else (the points included), and takes them out of the history
   * while every other logged task stays in it.
   */
  lemma RevertSpec(d: Document, id: string)
    ensures var r := Revert(d, id);
      && |r.tasks| == |d.tasks| && r.goals == d.goals && r.points == d.points
      && (forall i | 0 <= i < |d.tasks| ::
            if d.tasks[i].id == id then r.tasks[i] == d.tasks[i].(completed := false, completedAt := None)
            else r.tasks[i] == d.tasks[i])
      && (forall t | t in History(r.tasks) :: t.id != id)
      && (forall t | t in History(d.tasks) && t.id != id :: t in History(r.tasks))
  {
    var r := Revert(d, id);
    HistorySpec(d.tasks);
    HistorySpec(r.tasks);
    forall t | t in History(r.tasks)
      ensures t.id != id
    {
      var i :| 0 <= i < |r.tasks| && r.tasks[i] == t;
    }
    forall t | t in History(d.tasks) && t.id != id
      ensures t in r.tasks
    {
      var i :| 0 <= i < |d.tasks| && d.tasks[i] == t;
      assert r.tasks[i] == t;
    }
  }

  /** Reverting twice is reverting once. */
  lemma RevertIdempotent(d: Document, id: string)
    ensures Revert(Revert(d, id), id) == Revert(d, id)
  {
    var r := Revert(d, id);
    var rr := Revert(r, id);
    assert forall i | 0 <= i < |d.tasks| :: rr.tasks[i] == r.tasks[i];
  }

  /**
   * Reverting a completed task reopens it just as `toggleTask` would, but
   * without the open-descendant check and without taking a point away.
   */
  lemma RevertVsToggle(d: Document, id: string, now: string)
    requires UniqueIds(d.tasks)
    requires exists t :: t in d.tasks && t.id == id && t.completed
    ensures var s := Tasks.ToggleTask(d, id, now);
      && s.outcome == Applied
      && s.doc.tasks == Revert(d, id).tasks
      && s.doc.points == (if d.points >= 1 then d.points - 1 else 0)
      && Revert(d, id).points == d.points
  {
    var t :| t in d.tasks && t.id == id && t.completed;
    IndexOfMember(d.tasks, t);
  }
}
