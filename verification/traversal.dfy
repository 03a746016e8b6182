/**
 * The parent-to-children index (`childrenMap`) and the stack walk over it
 * (`hasOpenDescendant`), both written out as in the pages that use them, and
 * proved equal to their reference definitions in `Forest`.
 */
module Traversal {
  import opened Wrappers
  import opened Entities
  import opened Forest
  import opened Lists

  /** `childrenMap.get(id) ?? []`. */
  function Lookup(m: map<string, seq<Task>>, id: string): seq<Task> {
    if id in m then m[id] else []
  }

  /** `m` is the children index of `ts`: every key's lookup is the tasks filed under it. */
  ghost predicate IsChildrenMap(ts: seq<Task>, m: map<string, seq<Task>>) {
    forall id :: Lookup(m, id) == Children(ts, id)
  }

  /** The index entry update for one task: append it under its truthy `parentId`. */
  function FileTask(m: map<string, seq<Task>>, t: Task): map<string, seq<Task>> {
    match ParentKey(t)
    case None => m
    case Some(p) => m[p := Lookup(m, p) + [t]]
  }

  /** Filing the next task keeps `m` the children index of the prefix read so far. */
  lemma FileTaskIndex(m: map<string, seq<Task>>, s: seq<Task>, t: Task)
    requires forall id :: Lookup(m, id) == Children(s, id)
    requires forall id | id in m :: m[id] != []
    ensures forall id :: Lookup(FileTask(m, t), id) == Children(s + [t], id)
    ensures forall id | id in FileTask(m, t) :: FileTask(m, t)[id] != []
  {
    ChildrenSnoc(s, t);
  }

  /**
   * `childrenMap`: one pass over the list, appending each task with a truthy
   * `parentId` to the entry for that key.
   */
  method BuildChildrenMap(ts: seq<Task>) returns (m: map<string, seq<Task>>)
    ensures forall id :: id in m <==> exists t :: t in ts && ParentKey(t) == Some(id)
    ensures forall id | id in m :: m[id] == Children(ts, id)
    ensures IsChildrenMap(ts, m)
  {
    m := map[];
    var i := 0;
    while i < |ts|
      invariant 0 <= i <= |ts|
      invariant forall id :: Lookup(m, id) == Children(ts[..i], id)
      invariant forall id | id in m :: m[id] != []
    {
      var t := ts[i];
      FileTaskIndex(m, ts[..i], t);
      assert ts[..i + 1] == ts[..i] + [t];
      if ParentKey(t).Some? {
        var p := ParentKey(t).value;
        var arr := if p in m then m[p] else [];
        m := m[p := arr + [t]];
      }
      i := i + 1;
    }
    assert ts[..i] == ts;
    IndexKeys(ts, m);
  }

  /** The keys of a children index are exactly the truthy parent keys in use. */
  lemma IndexKeys(ts: seq<Task>, m: map<string, seq<Task>>)
    requires forall id :: Lookup(m, id) == Children(ts, id)
    requires forall id | id in m :: m[id] != []
    ensures forall id :: id in m <==> exists t :: t in ts && ParentKey(t) == Some(id)
  {
    forall id | id in m
      ensures exists t :: t in ts && ParentKey(t) == Some(id)
    {
      assert m[id][0] in Children(ts, id);
    }
    forall id | exists t :: t in ts && ParentKey(t) == Some(id)
      ensures id in m
    {
      var t :| t in ts && ParentKey(t) == Some(id);
      assert t in Children(ts, id);
    }
  }

  /** The level of a task in the stack weight: the deeper, the lighter. */
  function Level(ts: seq<Task>, t: Task): nat {
    |ts| + 1 - DepthOf(ts, t)
  }

  function Pow(b: nat, e: nat): (r: nat)
    ensures b > 0 ==> r > 0
  {
    if e == 0 then 1 else b * Pow(b, e - 1)
  }

  /** Sum of `(|ts| + 1)^Level(e)` over the stack. */
  ghost function Weight(ts: seq<Task>, s: seq<Task>): nat {
    if s == [] then 0
    else Weight(ts, s[..|s| - 1]) + Pow(|ts| + 1, Level(ts, s[|s| - 1]))
  }

  lemma {:induction false} WeightAppend(ts: seq<Task>, s: seq<Task>, t: seq<Task>)
    ensures Weight(ts, s + t) == Weight(ts, s) + Weight(ts, t)
    decreases |t|
  {
    if t == [] {
      assert s + t == s;
    } else {
      assert (s + t)[..|s + t| - 1] == s + t[..|t| - 1];
      WeightAppend(ts, s, t[..|t| - 1]);
    }
  }

  /** Tasks all on level `e` weigh `|s|` times the weight of one. */
  lemma {:induction false} WeightLevel(ts: seq<Task>, s: seq<Task>, e: nat)
    requires forall k | k in s :: Level(ts, k) == e
    ensures Weight(ts, s) == |s| * Pow(|ts| + 1, e)
    decreases |s|
  {
    if s != [] {
      var p := Pow(|ts| + 1, e);
      assert s[|s| - 1] in s;
      WeightLevel(ts, s[..|s| - 1], e);
      MulSucc(|s| - 1, p);
    }
  }

  lemma MulSucc(a: nat, p: nat)
    ensures a * p + p == (a + 1) * p
  {
  }

  lemma MulLess(a: nat, b: nat, c: nat)
    requires a < b && c > 0
    ensures a * c < b * c
  {
  }

  /** Fewer than `|ts| + 1` tasks on level `e` weigh less than one task on level `e + 1`. */
  lemma LevelWeighsLess(ts: seq<Task>, s: seq<Task>, e: nat)
    requires forall k | k in s :: Level(ts, k) == e
    requires |s| <= |ts|
    ensures Weight(ts, s) < Pow(|ts| + 1, e + 1)
  {
    WeightLevel(ts, s, e);
    MulLess(|s|, |ts| + 1, Pow(|ts| + 1, e));
  }

  /** In an acyclic list the children of a task sit one level lower in the stack weight. */
  lemma ChildLevels(ts: seq<Task>, cur: Task)
    requires UniqueIds(ts) && Acyclic(ts)
    requires cur in ts
    ensures forall k | k in Children(ts, cur.id) :: Level(ts, k) + 1 == Level(ts, cur)
  {
    forall k | k in Children(ts, cur.id)
      ensures Level(ts, k) + 1 == Level(ts, cur)
    {
      DepthOfChild(ts, cur, k);
    }
  }

  /** The children of a task weigh less than the task. */
  lemma ChildrenWeighLess(ts: seq<Task>, cur: Task)
    requires UniqueIds(ts) && Acyclic(ts)
    requires cur in ts
    ensures Weight(ts, Children(ts, cur.id)) < Pow(|ts| + 1, Level(ts, cur))
  {
    var kids := Children(ts, cur.id);
    ChildLevels(ts, cur);
    if kids != [] {
      assert Level(ts, kids[0]) + 1 == Level(ts, cur);
      LevelWeighsLess(ts, kids, Level(ts, cur) - 1);
    }
  }

  /** Some task on the stack is open or has something open below it. */
  predicate AnyOpen(ts: seq<Task>, s: seq<Task>) {
    exists e :: e in s && OpenAtOrBelow(ts, e)
  }

  lemma AnyOpenAppend(ts: seq<Task>, a: seq<Task>, b: seq<Task>)
    ensures AnyOpen(ts, a + b) <==> AnyOpen(ts, a) || AnyOpen(ts, b)
  {
    if AnyOpen(ts, a + b) {
      var e :| e in a + b && OpenAtOrBelow(ts, e);
    }
    if AnyOpen(ts, a) {
      var e :| e in a && OpenAtOrBelow(ts, e);
      assert e in a + b;
    }
    if AnyOpen(ts, b) {
      var e :| e in b && OpenAtOrBelow(ts, e);
      assert e in a + b;
    }
  }

  /** Popping a completed task and pushing its children keeps the answer the same. */
  lemma ReplaceByChildren(ts: seq<Task>, rest: seq<Task>, cur: Task)
    requires UniqueIds(ts) && Acyclic(ts)
    requires cur.completed
    ensures AnyOpen(ts, rest + Children(ts, cur.id)) <==> AnyOpen(ts, rest + [cur])
  {
    OpenDescendantSplit(ts, cur.id);
    AnyOpenAppend(ts, rest, Children(ts, cur.id));
    AnyOpenAppend(ts, rest, [cur]);
    assert AnyOpen(ts, [cur]) <==> OpenAtOrBelow(ts, cur);
  }

  /**
   * One round of the loop on a completed task on top of the stack: replacing
   * it by its children keeps the answer, keeps the stack inside the list and
   * lowers the weight.
   */
  lemma PopStep(ts: seq<Task>, stack: seq<Task>)
    requires UniqueIds(ts) && Acyclic(ts)
    requires stack != [] && stack[|stack| - 1].completed
    requires forall e | e in stack :: e in ts
    ensures var next := stack[..|stack| - 1] + Children(ts, stack[|stack| - 1].id);
      && (forall e | e in next :: e in ts)
      && (AnyOpen(ts, next) <==> AnyOpen(ts, stack))
      && Weight(ts, next) < Weight(ts, stack)
  {
    var cur := stack[|stack| - 1];
    var rest := stack[..|stack| - 1];
    assert stack == rest + [cur];
    assert cur in stack;
    ReplaceByChildren(ts, rest, cur);
    ChildrenWeighLess(ts, cur);
    WeightAppend(ts, rest, Children(ts, cur.id));
  }

  /** An open task on top of the stack answers the question. */
  lemma OpenTop(ts: seq<Task>, stack: seq<Task>)
    requires stack != [] && !stack[|stack| - 1].completed
    ensures AnyOpen(ts, stack)
  {
    assert stack[|stack| - 1] in stack;
  }

  /**
   * `hasOpenDescendant(id)`: pop tasks off a stack seeded with the children of
   * `id`; an incomplete one answers true, a completed one is replaced by its
   * own children.
   */
  method HasOpenDescendant(ts: seq<Task>, m: map<string, seq<Task>>, id: string) returns (r: bool)
    requires UniqueIds(ts) && Acyclic(ts)
    requires IsChildrenMap(ts, m)
    ensures r <==> SomeOpenDescendant(ts, id)
  {
    var stack := Lookup(m, id);
    assert stack == Children(ts, id);
    OpenDescendantSplit(ts, id);
    while |stack| > 0
      invariant forall e | e in stack :: e in ts
      invariant SomeOpenDescendant(ts, id) <==> AnyOpen(ts, stack)
      decreases Weight(ts, stack)
    {
      var cur := stack[|stack| - 1];
      if !cur.completed {
        OpenTop(ts, stack);
        return true;
      }
      var kids := Lookup(m, cur.id);
      assert kids == Children(ts, cur.id);
      PopStep(ts, stack);
      stack := stack[..|stack| - 1] + kids;
    }
    return false;
  }
}
