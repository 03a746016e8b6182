/**
 * Ancestry over the flat task list. A task's parent is the task its truthy
 * `parentId` names (the first one with that id, as `find` returns); a key
 * that names no task ends the walk, and the task is then a root of the
 * forest. `KeyAt(ts, t, n)` is the parent key read `n` steps above `t`; the
 * steps themselves go through the list's parent table `Links(ts)`.
 */
module Forest {
  import opened Wrappers
  import opened Entities
  import opened Lists
  import Walk

  /** Position of the task a task's `parentId` names, if that task exists. */
  function ParentIndex(ts: seq<Task>, t: Task): (r: Option<nat>)
    ensures r.Some? ==> r.value < |ts| && ParentKey(t).Some? && ts[r.value].id == ParentKey(t).value
    ensures ParentKey(t).Some? ==> r == IndexOf(ts, ParentKey(t).value)
  {
    match ParentKey(t)
    case None => None
    case Some(p) => IndexOf(ts, p)
  }

  /** The parent table of the list: entry `i` is the parent position of `ts[i]` (see `LinksAt`). */
  function Links(ts: seq<Task>): (links: seq<Option<nat>>)
    ensures |links| == |ts|
  {
    LinksUpTo(ts, |ts|)
  }

  function LinksUpTo(ts: seq<Task>, n: nat): (links: seq<Option<nat>>)
    requires n <= |ts|
    ensures |links| == n
  {
    if n == 0 then [] else LinksUpTo(ts, n - 1) + [ParentIndex(ts, ts[n - 1])]
  }

  /** The parent key read `n` steps above position `j`. */
  function KeyFrom(ts: seq<Task>, j: nat, n: nat): Option<string> {
    match Walk.Up(Links(ts), j, n)
    case None => None
    case Some(u) => if u < |ts| then ParentKey(ts[u]) else None
  }

  /** The parent key read `n` steps above `t`: `t`'s own key for 0; None once the walk has passed a root. */
  function KeyAt(ts: seq<Task>, t: Task, n: nat): Option<string> {
    if n == 0 then ParentKey(t)
    else
      match ParentIndex(ts, t)
      case None => None
      case Some(j) => KeyFrom(ts, j, n - 1)
  }

  /** The parent links form a forest: no walk goes round a cycle. */
  ghost predicate Acyclic(ts: seq<Task>) {
    Walk.Terminating(Links(ts))
  }

  /** `id` is read on the walk up from `d`: `d` lies strictly below `id`. */
  predicate IsStrictDescendant(ts: seq<Task>, d: Task, id: string) {
    exists n | 0 <= n < |ts| :: KeyAt(ts, d, n) == Some(id)
  }

  /** Reference meaning of `hasOpenDescendant(id)`: some incomplete task lies strictly below `id`. */
  predicate SomeOpenDescendant(ts: seq<Task>, id: string) {
    exists i | 0 <= i < |ts| :: !ts[i].completed && IsStrictDescendant(ts, ts[i], id)
  }

  /** `t` itself or something below it is incomplete. */
  predicate OpenAtOrBelow(ts: seq<Task>, t: Task) {
    !t.completed || SomeOpenDescendant(ts, t.id)
  }

  /** `x` is `k` or lies strictly below it. */
  predicate AtOrBelow(ts: seq<Task>, k: Task, x: Task) {
    x == k || IsStrictDescendant(ts, x, k.id)
  }

  /** The test `childrenMap` files a task under `id` by: its truthy `parentId` is `id`. */
  function FiledUnder(id: string): Task -> bool {
    (t: Task) => ParentKey(t) == Some(id)
  }

  /** The tasks filed under parent key `id`, in list order: `childrenMap.get(id) ?? []`. */
  function Children(ts: seq<Task>, id: string): (r: seq<Task>)
    ensures |r| <= |ts|
    ensures forall t :: t in r <==> t in ts && ParentKey(t) == Some(id)
  {
    Filter(ts, FiledUnder(id))
  }

  /** Number of ancestors of `t` in the list (as far as `|ts|` steps look). */
  function DepthOf(ts: seq<Task>, t: Task): (d: nat)
    ensures d <= |ts| + 1
  {
    match ParentIndex(ts, t)
    case None => 0
    case Some(j) => 1 + Walk.Depth(Links(ts), j, |ts|)
  }

  /** Looking up `k`'s id finds `k` itself. */
  predicate Found(ts: seq<Task>, k: Task) {
    IndexOf(ts, k.id).Some? && ts[IndexOf(ts, k.id).value] == k
  }

  // ---------------------------------------------------------------------------
  // The parent table

  lemma {:induction false} LinksUpToAt(ts: seq<Task>, n: nat, i: nat)
    requires i < n <= |ts|
    ensures LinksUpTo(ts, n)[i] == ParentIndex(ts, ts[i])
    decreases n
  {
    if i < n - 1 {
      LinksUpToAt(ts, n - 1, i);
    }
  }

  /** Entry `i` of the table is the parent position of `ts[i]`. */
  lemma LinksAt(ts: seq<Task>, i: nat)
    requires i < |ts|
    ensures Links(ts)[i] == ParentIndex(ts, ts[i])
  {
    LinksUpToAt(ts, |ts|, i);
  }

  lemma LinksValid(ts: seq<Task>)
    ensures Walk.ValidLinks(Links(ts))
  {
    forall i | 0 <= i < |ts|
      ensures Links(ts)[i].Some? ==> Links(ts)[i].value < |ts|
    {
      LinksAt(ts, i);
    }
  }

  /** From a member of the list, the walk over the table is the walk over the tasks. */
  lemma KeyAtMember(ts: seq<Task>, j: nat, n: nat)
    requires j < |ts|
    ensures KeyAt(ts, ts[j], n) == KeyFrom(ts, j, n)
  {
    LinksAt(ts, j);
  }

  /** With distinct ids, looking up a member's id finds that member. */
  lemma IndexOfMember(ts: seq<Task>, k: Task)
    requires UniqueIds(ts)
    requires k in ts
    ensures Found(ts, k)
  {
    var i :| 0 <= i < |ts| && ts[i] == k;
    IndexOfSpec(ts, k.id);
  }

  // ---------------------------------------------------------------------------
  // Stepping along the walk

  /** The task at which the walk from `d` reads `id` is filed under `id`, and `d` is at or below it. */
  lemma ChildOnWalk(ts: seq<Task>, d: Task, n: nat, id: string) returns (k: Task)
    requires d in ts
    requires KeyAt(ts, d, n) == Some(id)
    ensures k in Children(ts, id)
    ensures n == 0 ==> k == d
    ensures n > 0 ==> KeyAt(ts, d, n - 1) == Some(k.id)
  {
    var i :| 0 <= i < |ts| && ts[i] == d;
    var links := Links(ts);
    KeyAtMember(ts, i, n);
    var u := Walk.Up(links, i, n).value;
    k := ts[u];
    if n > 0 {
      Walk.UpAdd(links, i, n - 1, 1);
      var v := Walk.Up(links, i, n - 1).value;
      LinksValid(ts);
      Walk.UpIn(links, i, n - 1);
      LinksAt(ts, v);
      KeyAtMember(ts, i, n - 1);
    }
  }

  /** After reading a found task's id, the walk goes on as the walk from that task. */
  lemma KeyStep(ts: seq<Task>, x: Task, n: nat, k: Task, m: nat)
    requires x in ts && Found(ts, k)
    requires KeyAt(ts, x, n) == Some(k.id)
    ensures KeyAt(ts, x, n + 1 + m) == KeyAt(ts, k, m)
  {
    var i :| 0 <= i < |ts| && ts[i] == x;
    var links := Links(ts);
    var c := IndexOf(ts, k.id).value;
    KeyAtMember(ts, i, n);
    var u := Walk.Up(links, i, n).value;
    LinksAt(ts, u);
    assert links[u] == Some(c);
    Walk.UpAdd(links, i, n, 1 + m);
    KeyAtMember(ts, i, n + 1 + m);
    KeyAtMember(ts, c, m);
  }

  /** In an acyclic list every key on a member's walk is read within `|ts|` steps. */
  lemma KeyBound(ts: seq<Task>, x: Task, n: nat)
    requires Acyclic(ts) && x in ts
    requires KeyAt(ts, x, n).Some?
    ensures n < |ts|
  {
    var i :| 0 <= i < |ts| && ts[i] == x;
    KeyAtMember(ts, i, n);
    Walk.TerminatingBound(Links(ts), i, n);
  }

  /** The number of steps from `x` up to `k`, for a member `x` at or below a member `k`. */
  lemma LevelOf(ts: seq<Task>, i: nat, k: Task) returns (n: nat, c: nat)
    requires UniqueIds(ts)
    requires i < |ts| && k in ts
    requires AtOrBelow(ts, k, ts[i])
    ensures c < |ts| && ts[c] == k
    ensures Walk.Up(Links(ts), i, n) == Some(c)
  {
    IndexOfMember(ts, k);
    c := IndexOf(ts, k.id).value;
    if ts[i] == k {
      n := 0;
      IndexOfSpec(ts, k.id);
    } else {
      var m :| 0 <= m < |ts| && KeyAt(ts, ts[i], m) == Some(k.id);
      var links := Links(ts);
      KeyAtMember(ts, i, m);
      var u := Walk.Up(links, i, m).value;
      LinksAt(ts, u);
      Walk.UpNext(links, i, m, u);
      n := m + 1;
    }
  }

  // ---------------------------------------------------------------------------
  // Descendants are found through the direct children

  /** Whatever lies strictly below `id` is, or lies below, a task filed under `id`. */
  lemma DescendantToChild(ts: seq<Task>, id: string, x: Task) returns (k: Task)
    requires x in ts
    requires IsStrictDescendant(ts, x, id)
    ensures k in Children(ts, id) && AtOrBelow(ts, k, x)
  {
    var n :| 0 <= n < |ts| && KeyAt(ts, x, n) == Some(id);
    k := ChildOnWalk(ts, x, n, id);
  }

  /** What is, or lies below, a task filed under `id` lies strictly below `id`. */
  lemma ChildToDescendant(ts: seq<Task>, id: string, x: Task, k: Task)
    requires UniqueIds(ts) && Acyclic(ts)
    requires x in ts
    requires k in Children(ts, id) && AtOrBelow(ts, k, x)
    ensures IsStrictDescendant(ts, x, id)
  {
    if x == k {
      assert KeyAt(ts, x, 0) == Some(id);
    } else {
      var m :| 0 <= m < |ts| && KeyAt(ts, x, m) == Some(k.id);
      IndexOfMember(ts, k);
      assert KeyAt(ts, k, 0) == Some(id);
      KeyStep(ts, x, m, k, 0);
      KeyBound(ts, x, m + 1);
    }
  }

  /**
   * `x` lies strictly below `id` exactly when it is, or lies below, one of the
   * tasks filed directly under `id`.
   */
  lemma DescendantSplit(ts: seq<Task>, id: string, x: Task)
    requires UniqueIds(ts) && Acyclic(ts)
    requires x in ts
    ensures IsStrictDescendant(ts, x, id)
        <==> exists k :: k in Children(ts, id) && AtOrBelow(ts, k, x)
  {
    if IsStrictDescendant(ts, x, id) {
      var k := DescendantToChild(ts, id, x);
    }
    if k :| k in Children(ts, id) && AtOrBelow(ts, k, x) {
      ChildToDescendant(ts, id, x, k);
    }
  }

  /**
   * The step the stack traversal relies on: something below `id` is open
   * exactly when one of its direct children is open or has something open
   * below it.
   */
  lemma OpenDescendantSplit(ts: seq<Task>, id: string)
    requires UniqueIds(ts) && Acyclic(ts)
    ensures SomeOpenDescendant(ts, id)
        <==> exists k :: k in Children(ts, id) && OpenAtOrBelow(ts, k)
  {
    if SomeOpenDescendant(ts, id) {
      var i :| 0 <= i < |ts| && !ts[i].completed && IsStrictDescendant(ts, ts[i], id);
      DescendantSplit(ts, id, ts[i]);
      var k :| k in Children(ts, id) && AtOrBelow(ts, k, ts[i]);
      assert OpenAtOrBelow(ts, k);
    }
    if k :| k in Children(ts, id) && OpenAtOrBelow(ts, k) {
      var i :| 0 <= i < |ts| && ts[i] == k;
      if k.completed {
        i :| 0 <= i < |ts| && !ts[i].completed && IsStrictDescendant(ts, ts[i], k.id);
      }
      assert AtOrBelow(ts, k, ts[i]);
      DescendantSplit(ts, id, ts[i]);
    }
  }

  /** An id with nothing filed under it has no open descendant, whatever the links. */
  lemma NoChildrenNoOpenDescendant(ts: seq<Task>, id: string)
    requires Children(ts, id) == []
    ensures !SomeOpenDescendant(ts, id)
  {
    if SomeOpenDescendant(ts, id) {
      var i :| 0 <= i < |ts| && !ts[i].completed && IsStrictDescendant(ts, ts[i], id);
      var n :| 0 <= n < |ts| && KeyAt(ts, ts[i], n) == Some(id);
      var k := ChildOnWalk(ts, ts[i], n, id);
    }
  }

  /** In an acyclic list, two tasks filed under the same key have disjoint subtrees. */
  lemma SubtreesDisjoint(ts: seq<Task>, id: string, k1: Task, k2: Task, x: Task)
    requires UniqueIds(ts) && Acyclic(ts)
    requires x in ts
    requires k1 in Children(ts, id) && k2 in Children(ts, id)
    requires AtOrBelow(ts, k1, x) && AtOrBelow(ts, k2, x)
    ensures k1 == k2
  {
    var i :| 0 <= i < |ts| && ts[i] == x;
    var links := Links(ts);
    var n1, c1 := LevelOf(ts, i, k1);
    var n2, c2 := LevelOf(ts, i, k2);
    LinksAt(ts, c1);
    LinksAt(ts, c2);
    Walk.UpNext(links, i, n1, c1);
    Walk.UpNext(links, i, n2, c2);
    if links[c1].Some? {
      LinksValid(ts);
      Walk.VisitOnce(links, i, n1 + 1, n2 + 1);
    } else if n1 < n2 {
      Walk.UpNoneStays(links, i, n1 + 1, n2);
    } else if n2 < n1 {
      Walk.UpNoneStays(links, i, n2 + 1, n1);
    }
  }

  // ---------------------------------------------------------------------------
  // Depth

  /** In an acyclic list a child sits one level below the task it is filed under. */
  lemma DepthOfChild(ts: seq<Task>, t: Task, k: Task)
    requires UniqueIds(ts) && Acyclic(ts)
    requires t in ts && k in Children(ts, t.id)
    ensures DepthOf(ts, k) == DepthOf(ts, t) + 1
  {
    var links := Links(ts);
    IndexOfMember(ts, t);
    var c := IndexOf(ts, t.id).value;
    LinksAt(ts, c);
    if links[c].Some? {
      var j := links[c].value;
      assert Walk.Up(links, c, |ts|) == Walk.Up(links, j, |ts| - 1);
      Walk.DepthStable(links, j, |ts| - 1, |ts|);
    }
  }

  /** A task `n + 1` steps below `p` on the walk sits `n + 1` levels deeper. */
  lemma {:induction false} WalkDepth(ts: seq<Task>, x: Task, n: nat, p: Task)
    requires UniqueIds(ts) && Acyclic(ts)
    requires x in ts && p in ts
    requires KeyAt(ts, x, n) == Some(p.id)
    ensures DepthOf(ts, x) == DepthOf(ts, p) + n + 1
    decreases n
  {
    var k := ChildOnWalk(ts, x, n, p.id);
    DepthOfChild(ts, p, k);
    if n > 0 {
      WalkDepth(ts, x, n - 1, k);
    }
  }

  /** In an acyclic list whatever lies strictly below a task is deeper than it. */
  lemma DescendantDeeper(ts: seq<Task>, x: Task, p: Task)
    requires UniqueIds(ts) && Acyclic(ts)
    requires x in ts && p in ts
    requires IsStrictDescendant(ts, x, p.id)
    ensures DepthOf(ts, x) > DepthOf(ts, p)
  {
    var n :| 0 <= n < |ts| && KeyAt(ts, x, n) == Some(p.id);
    WalkDepth(ts, x, n, p);
  }

  /** With distinct ids the list, and so every children list, holds no task twice. */
  lemma ChildrenDistinct(ts: seq<Task>, id: string)
    requires UniqueIds(ts)
    ensures Distinct(ts) && Distinct(Children(ts, id))
  {
    FilterDistinct(ts, FiledUnder(id));
  }

  /** Filing one more task only extends the entry for its own key. */
  lemma ChildrenSnoc(s: seq<Task>, t: Task)
    ensures forall id :: Children(s + [t], id) == Children(s, id) + (if ParentKey(t) == Some(id) then [t] else [])
  {
    forall id
      ensures Children(s + [t], id) == Children(s, id) + (if ParentKey(t) == Some(id) then [t] else [])
    {
      ChildrenSnocAt(s, t, id);
    }
  }

  lemma ChildrenSnocAt(s: seq<Task>, t: Task, id: string)
    ensures Children(s + [t], id) == Children(s, id) + (if ParentKey(t) == Some(id) then [t] else [])
  {
    FilterAppend(s, [t], FiledUnder(id));
  }

  // ---------------------------------------------------------------------------
  // Edits that keep ids and parent keys

  /** Two lists with the same ids and parent ids, position by position: the same forest. */
  predicate SameShape(a: seq<Task>, b: seq<Task>) {
    |a| == |b| && forall i | 0 <= i < |a| :: a[i].id == b[i].id && a[i].parentId == b[i].parentId
  }

  lemma {:induction false} SameShapeIndexFrom(a: seq<Task>, b: seq<Task>, id: string, i: nat)
    requires SameShape(a, b) && i <= |a|
    ensures IndexFrom(a, id, i) == IndexFrom(b, id, i)
    decreases |a| - i
  {
    if i < |a| {
      SameShapeIndexFrom(a, b, id, i + 1);
    }
  }

  lemma {:induction false} SameShapeLinksUpTo(a: seq<Task>, b: seq<Task>, n: nat)
    requires SameShape(a, b) && n <= |a|
    ensures LinksUpTo(a, n) == LinksUpTo(b, n)
    decreases n
  {
    if n > 0 {
      SameShapeLinksUpTo(a, b, n - 1);
      if ParentKey(a[n - 1]).Some? {
        SameShapeIndexFrom(a, b, ParentKey(a[n - 1]).value, 0);
      }
    }
  }

  /** Lists of the same shape have the same parent table, so the same ancestry. */
  lemma SameShapeAncestry(a: seq<Task>, b: seq<Task>)
    requires SameShape(a, b)
    ensures Links(a) == Links(b)
    ensures Acyclic(a) <==> Acyclic(b)
    ensures UniqueIds(a) <==> UniqueIds(b)
    ensures forall i, id, n | 0 <= i < |a| :: KeyAt(a, a[i], n) == Some(id) <==> KeyAt(b, b[i], n) == Some(id)
  {
    SameShapeLinksUpTo(a, b, |a|);
    forall i, id, n | 0 <= i < |a|
      ensures KeyAt(a, a[i], n) == Some(id) <==> KeyAt(b, b[i], n) == Some(id)
    {
      KeyAtMember(a, i, n);
      KeyAtMember(b, i, n);
    }
  }

  lemma SameShapeDescendant(a: seq<Task>, b: seq<Task>, i: nat, id: string)
    requires SameShape(a, b) && i < |a|
    ensures IsStrictDescendant(a, a[i], id) <==> IsStrictDescendant(b, b[i], id)
  {
    SameShapeAncestry(a, b);
  }
}
