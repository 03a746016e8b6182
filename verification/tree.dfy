/**
 * The task forest the main page renders: `buildTaskTree` files every task
 * under the task its `parentId` names, or among the roots when that task does
 * not exist; `flattenAndSortByDeadline` lists everything below one task,
 * latest deadline first.
 *
 * The tree is returned as the list of roots plus, for every task id, the
 * list of its children; the source's nodes are copies of the tasks carrying
 * such a list.
 */
module Tree {
  import opened Wrappers
  import opened Entities
  import opened Lists
  import opened Forest
  import opened Sorting

  /** `!(task.parentId && taskMap[task.parentId])`: no task of the list has the id the task names. */
  function IsRootIn(ts: seq<Task>): Task -> bool {
    (t: Task) => ParentIndex(ts, t).None?
  }

  /** The roots of the forest, in list order. */
  function Roots(ts: seq<Task>): seq<Task> {
    Filter(ts, IsRootIn(ts))
  }

  /** `buildTaskTree`'s result: the roots, and the children list of every node by id. */
  datatype TaskTree = TaskTree(roots: seq<Task>, children: map<string, seq<Task>>)

  /** The per-task callback of the second pass: file `t` under its parent's node if that node exists, else among the roots. */
  function FileNode(tree: TaskTree, t: Task): TaskTree {
    if t.parentId.Some? && t.parentId.value != "" && t.parentId.value in tree.children then
      var p := t.parentId.value;
      tree.(children := tree.children[p := tree.children[p] + [t]])
    else
      tree.(roots := tree.roots + [t])
  }

  /** After filing the prefix `s`: one node per task id, and roots and children lists are those of `s`. */
  ghost predicate FiledUpTo(ts: seq<Task>, s: seq<Task>, tree: TaskTree) {
    && tree.children.Keys == Ids(ts)
    && tree.roots == Filter(s, IsRootIn(ts))
    && (forall id | id in tree.children :: tree.children[id] == Children(s, id))
  }

  /**
   * `buildTaskTree(tasks)`: a node (with an empty children list) per id, then
   * one pass that appends each task to its parent's list when the parent
   * exists and to the roots otherwise.
   */
  method BuildTaskTree(ts: seq<Task>) returns (tree: TaskTree)
    ensures tree.roots == Roots(ts)
    ensures tree.children.Keys == Ids(ts)
    ensures forall id | id in tree.children :: tree.children[id] == Children(ts, id)
  {
    var nodes: map<string, seq<Task>> := map[];
    var i := 0;
    while i < |ts|
      invariant 0 <= i <= |ts|
      invariant nodes.Keys == Ids(ts[..i])
      invariant forall id | id in nodes :: nodes[id] == []
    {
      assert ts[..i + 1] == ts[..i] + [ts[i]];
      nodes := nodes[ts[i].id := []];
      i := i + 1;
    }
    assert ts[..i] == ts;
    tree := TaskTree([], nodes);
    i := 0;
    while i < |ts|
      invariant 0 <= i <= |ts|
      invariant FiledUpTo(ts, ts[..i], tree)
    {
      FileStep(ts, ts[..i], ts[i], tree);
      assert ts[..i + 1] == ts[..i] + [ts[i]];
      tree := FileNode(tree, ts[i]);
      i := i + 1;
    }
    assert ts[..i] == ts;
  }

  /** Filing the next task keeps the roots and every children list those of the longer prefix. */
  lemma FileStep(ts: seq<Task>, s: seq<Task>, t: Task, tree: TaskTree)
    requires FiledUpTo(ts, s, tree)
    ensures FiledUpTo(ts, s + [t], FileNode(tree, t))
  {
    ParentExists(ts, t, tree.children);
    if t.parentId.Some? && t.parentId.value != "" && t.parentId.value in tree.children {
      FileUnderParent(ts, s, t, tree);
    } else {
      FileAsRoot(ts, s, t, tree);
    }
  }

  lemma FileUnderParent(ts: seq<Task>, s: seq<Task>, t: Task, tree: TaskTree)
    requires FiledUpTo(ts, s, tree)
    requires ParentIndex(ts, t).Some?
    requires t.parentId.Some? && t.parentId.value != "" && t.parentId.value in tree.children
    ensures FiledUpTo(ts, s + [t], FileNode(tree, t))
  {
    var p := t.parentId.value;
    var next := FileNode(tree, t);
    assert next == TaskTree(tree.roots, tree.children[p := tree.children[p] + [t]]);
    assert next.roots == Filter(s + [t], IsRootIn(ts)) by {
      RootsSnoc(ts, s, t);
    }
    forall id | id in next.children
      ensures next.children[id] == Children(s + [t], id)
    {
      ChildrenSnocAt(s, t, id);
    }
  }

  lemma FileAsRoot(ts: seq<Task>, s: seq<Task>, t: Task, tree: TaskTree)
    requires FiledUpTo(ts, s, tree)
    requires ParentIndex(ts, t).None?
    requires !(t.parentId.Some? && t.parentId.value != "" && t.parentId.value in tree.children)
    ensures FiledUpTo(ts, s + [t], FileNode(tree, t))
  {
    RootsSnoc(ts, s, t);
    forall id | id in tree.children
      ensures tree.children[id] == Children(s + [t], id)
    {
      ChildrenSnocAt(s, t, id);
      assert ParentKey(t) != Some(id);
    }
  }

  /** The callback's test `task.parentId && taskMap[task.parentId]` holds exactly when the parent is in the list. */
  lemma ParentExists(ts: seq<Task>, t: Task, nodes: map<string, seq<Task>>)
    requires nodes.Keys == Ids(ts)
    ensures (t.parentId.Some? && t.parentId.value != "" && t.parentId.value in nodes) <==> ParentIndex(ts, t).Some?
  {
    if ParentKey(t).Some? {
      var p := ParentKey(t).value;
      IndexOfSpec(ts, p);
      if p in nodes {
        var u :| u in ts && u.id == p;
        var k :| 0 <= k < |ts| && ts[k] == u;
      }
    }
  }

  lemma RootsSnoc(ts: seq<Task>, s: seq<Task>, t: Task)
    ensures Filter(s + [t], IsRootIn(ts)) == Filter(s, IsRootIn(ts)) + (if ParentIndex(ts, t).None? then [t] else [])
  {
    FilterAppend(s, [t], IsRootIn(ts));
    assert Filter([t], IsRootIn(ts)) == if ParentIndex(ts, t).None? then [t] else [];
  }

  /**
   * Every task sits in exactly one place of the forest: among the roots when
   * its parent does not exist, otherwise in the children list of its parent
   * and of no other id; and no list holds it twice.
   */
  lemma PlacedOnce(ts: seq<Task>, t: Task)
    requires UniqueIds(ts) && t in ts
    ensures t in Roots(ts) <==> ParentIndex(ts, t).None?
    ensures ParentIndex(ts, t).Some? ==> t in Children(ts, ts[ParentIndex(ts, t).value].id)
    ensures forall id | t in Children(ts, id) :: ParentKey(t) == Some(id)
    ensures Distinct(Roots(ts))
    ensures forall id :: Distinct(Children(ts, id))
  {
    ChildrenDistinct(ts, "");
    FilterDistinct(ts, IsRootIn(ts));
    forall id
      ensures Distinct(Children(ts, id))
    {
      ChildrenDistinct(ts, id);
    }
  }

  // ---------------------------------------------------------------------------
  // flattenAndSortByDeadline

  /**
   * `traverse` over `t.children`: each child, then everything below it, in
   * children-list order. It terminates because each step goes one level
   * deeper in an acyclic list.
   */
  function Flatten(ts: seq<Task>, t: Task): seq<Task>
    requires UniqueIds(ts) && Acyclic(ts) && t in ts
    decreases |ts| + 1 - DepthOf(ts, t), 1, 0
  {
    FlattenFrom(ts, t, 0)
  }

  /** The part of `Flatten(ts, p)` contributed by `p`'s children from position `i` on. */
  function FlattenFrom(ts: seq<Task>, p: Task, i: nat): seq<Task>
    requires UniqueIds(ts) && Acyclic(ts) && p in ts
    requires i <= |Children(ts, p.id)|
    decreases |ts| + 1 - DepthOf(ts, p), 0, |Children(ts, p.id)| - i
  {
    var kids := Children(ts, p.id);
    if i == |kids| then []
    else
      DepthOfChild(ts, p, kids[i]);
      [kids[i]] + Flatten(ts, kids[i]) + FlattenFrom(ts, p, i + 1)
  }

  /** The test for "strictly below the task with id `id`". */
  function StrictlyBelow(ts: seq<Task>, id: string): Task -> bool {
    (x: Task) => IsStrictDescendant(ts, x, id)
  }

  /** Reference list: the strict descendants of `t`, in list order. */
  function Descendants(ts: seq<Task>, t: Task): seq<Task> {
    Filter(ts, StrictlyBelow(ts, t.id))
  }

  /** `Flatten(ts, t)` holds exactly the tasks strictly below `t`. */
  lemma FlattenMembers(ts: seq<Task>, t: Task)
    requires UniqueIds(ts) && Acyclic(ts) && t in ts
    ensures forall x :: x in Flatten(ts, t) <==> x in ts && IsStrictDescendant(ts, x, t.id)
  {
    forall x
      ensures x in Flatten(ts, t) <==> x in ts && IsStrictDescendant(ts, x, t.id)
    {
      FlattenMember(ts, t, x);
    }
  }

  lemma {:induction false} FlattenMember(ts: seq<Task>, t: Task, x: Task)
    requires UniqueIds(ts) && Acyclic(ts) && t in ts
    ensures x in Flatten(ts, t) <==> x in ts && IsStrictDescendant(ts, x, t.id)
    decreases |ts| + 1 - DepthOf(ts, t), 1, 0
  {
    FlattenFromMember(ts, t, 0, x);
    if x in ts {
      DescendantSplit(ts, t.id, x);
      assert Children(ts, t.id)[0..] == Children(ts, t.id);
    }
  }

  /** `FlattenFrom(ts, p, i)` holds exactly the tasks at or below one of `p`'s children from position `i` on. */
  lemma {:induction false} FlattenFromMember(ts: seq<Task>, p: Task, i: nat, x: Task)
    requires UniqueIds(ts) && Acyclic(ts) && p in ts
    requires i <= |Children(ts, p.id)|
    ensures x in FlattenFrom(ts, p, i)
        <==> x in ts && exists k :: k in Children(ts, p.id)[i..] && AtOrBelow(ts, k, x)
    decreases |ts| + 1 - DepthOf(ts, p), 0, |Children(ts, p.id)| - i
  {
    var kids := Children(ts, p.id);
    if i < |kids| {
      var k := kids[i];
      assert k in kids;
      DepthOfChild(ts, p, k);
      FlattenMember(ts, k, x);
      FlattenFromMember(ts, p, i + 1, x);
      FrontSplit(kids, i);
      var f := FlattenFrom(ts, p, i);
      assert f == [k] + Flatten(ts, k) + FlattenFrom(ts, p, i + 1);
      if x in f {
        if x !in FlattenFrom(ts, p, i + 1) {
          assert x in ts && k in kids[i..] && AtOrBelow(ts, k, x);
        }
      }
      if k2 :| k2 in kids[i..] && AtOrBelow(ts, k2, x) {
        if x in ts && k2 == k {
          assert x in f;
        }
      }
    }
  }

  /** A task is never listed below itself, and nothing below a task is listed twice. */
  lemma {:induction false} FlattenDistinct(ts: seq<Task>, t: Task)
    requires UniqueIds(ts) && Acyclic(ts) && t in ts
    ensures Distinct(Flatten(ts, t))
    decreases |ts| + 1 - DepthOf(ts, t), 1, 0
  {
    FlattenFromDistinct(ts, t, 0);
  }

  lemma {:induction false} FlattenFromDistinct(ts: seq<Task>, p: Task, i: nat)
    requires UniqueIds(ts) && Acyclic(ts) && p in ts
    requires i <= |Children(ts, p.id)|
    ensures Distinct(FlattenFrom(ts, p, i))
    decreases |ts| + 1 - DepthOf(ts, p), 0, |Children(ts, p.id)| - i
  {
    var kids := Children(ts, p.id);
    if i < |kids| {
      var k := kids[i];
      assert k in kids;
      DepthOfChild(ts, p, k);
      FlattenDistinct(ts, k);
      FlattenFromDistinct(ts, p, i + 1);
      FlattenMembers(ts, k);
      ChildrenDistinct(ts, p.id);
      if k in Flatten(ts, k) {
        DescendantDeeper(ts, k, k);
      }
      DistinctConcat([k], Flatten(ts, k));
      forall x | x in [k] + Flatten(ts, k)
        ensures x !in FlattenFrom(ts, p, i + 1)
      {
        FlattenFromMember(ts, p, i + 1, x);
        if x in FlattenFrom(ts, p, i + 1) {
          var k2 :| k2 in kids[i + 1..] && AtOrBelow(ts, k2, x);
          var j :| i + 1 <= j < |kids| && kids[j] == k2;
          assert AtOrBelow(ts, k, x);
          SubtreesDisjoint(ts, p.id, k, k2, x);
          assert false;
        }
      }
      DistinctConcat([k] + Flatten(ts, k), FlattenFrom(ts, p, i + 1));
    }
  }

  /**
   * The comparator of `flattenAndSortByDeadline` returns a negative number:
   * `a` has a deadline and `b` has none, or both have one and `a`'s is later.
   */
  predicate LaterDeadline(a: Task, b: Task) {
    a.deadline.Some? && (b.deadline.None? || a.deadline.value > b.deadline.value)
  }

  lemma LaterDeadlineOrder()
    ensures StrictOrder(LaterDeadline)
  {
  }

  /** `flattenAndSortByDeadline(t)`: everything below `t`, sorted (stably) by the comparator. */
  function FlattenAndSortByDeadline(ts: seq<Task>, t: Task): seq<Task>
    requires UniqueIds(ts) && Acyclic(ts) && t in ts
  {
    SortBy(Flatten(ts, t), LaterDeadline)
  }

  /**
   * The sorted list is a permutation of `t`'s strict descendants (so `t`
   * itself is not in it); the tasks with a deadline come first, latest
   * deadline first.
   */
  lemma FlattenAndSortByDeadlineSpec(ts: seq<Task>, t: Task)
    requires UniqueIds(ts) && Acyclic(ts) && t in ts
    ensures var r := FlattenAndSortByDeadline(ts, t);
      && multiset(r) == multiset(Descendants(ts, t))
      && t !in r
      && (forall i, j | 0 <= i < j < |r| :: r[i].deadline.None? ==> r[j].deadline.None?)
      && (forall i, j | 0 <= i < j < |r| && r[j].deadline.Some? ::
            r[i].deadline.Some? && r[i].deadline.value >= r[j].deadline.value)
  {
    var f := Flatten(ts, t);
    var r := FlattenAndSortByDeadline(ts, t);
    FlattenMembers(ts, t);
    FlattenDistinct(ts, t);
    ChildrenDistinct(ts, t.id);
    FilterDistinct(ts, StrictlyBelow(ts, t.id));
    SameMembersPermutation(f, Descendants(ts, t));
    if t in f {
      DescendantDeeper(ts, t, t);
    }
    assert t !in multiset(f);
    LaterDeadlineOrder();
    SortBySorted(f, LaterDeadline);
  }
}
