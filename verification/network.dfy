/**
 * The network page's graph: one node per task, then one edge per task with a
 * truthy `parentId`, from the parent id to the task.
 */
module Network {
  import opened Wrappers
  import opened Entities
  import opened Lists
  import opened Forest

  /** A graph element: a node (`completed` as the strings "true"/"false") or an edge. */
  datatype Element =
    | Node(id: string, caption: string, completed: string)
    | Edge(source: string, target: string)

  function ToNode(t: Task): Element {
    Node(t.id, t.title, if t.completed then "true" else "false")
  }

  /** `tasks.filter(t => t.parentId)`. */
  function HasParent(): Task -> bool {
    (t: Task) => ParentKey(t).Some?
  }

  /** `{ source: t.parentId!, target: t.id }`. */
  function ToEdge(t: Task): Element {
    Edge(t.parentId.GetOr(""), t.id)
  }

  /** `tasks.map(...)` into nodes. */
  function Nodes(ts: seq<Task>): seq<Element> {
    Map(ts, ToNode)
  }

  /** `tasks.filter(t => t.parentId).map(...)` into edges. */
  function Edges(ts: seq<Task>): seq<Element> {
    Map(Filter(ts, HasParent()), ToEdge)
  }

  /** `elements`: the nodes, then the edges. */
  function Elements(ts: seq<Task>): seq<Element> {
    Nodes(ts) + Edges(ts)
  }

  /**
   * The graph has one node per task, in order, coloured by completion, and
   * an edge `p -> c` exactly when a task `c` is filed under the parent id
   * `p` (one of `p`'s children), whether or not a task with id `p` exists.
   */
  lemma ElementsSpec(ts: seq<Task>)
    ensures var r := Elements(ts);
      && |r| == |ts| + |Filter(ts, HasParent())|
      && (forall i | 0 <= i < |ts| ::
            r[i].Node? && r[i].id == ts[i].id && r[i].caption == ts[i].title
            && (r[i].completed == "true" <==> ts[i].completed))
      && (forall i | |ts| <= i < |r| :: r[i].Edge?)
      && (forall p, c :: Edge(p, c) in r <==> exists t :: t in Children(ts, p) && t.id == c)
  {
    var r := Elements(ts);
    assert forall e | e in Nodes(ts) :: e.Node?;
    forall p, c
      ensures Edge(p, c) in r <==> exists t :: t in Children(ts, p) && t.id == c
    {
      assert Edge(p, c) in r <==> Edge(p, c) in Edges(ts);
      EdgeMember(ts, p, c);
    }
  }

  /** An edge `p -> c` is the edge of a task `c` filed under `p`. */
  lemma EdgeMember(ts: seq<Task>, p: string, c: string)
    ensures Edge(p, c) in Edges(ts) <==> exists t :: t in Children(ts, p) && t.id == c
  {
    var f := Filter(ts, HasParent());
    if Edge(p, c) in Edges(ts) {
      var i :| 0 <= i < |f| && Edges(ts)[i] == Edge(p, c);
      assert f[i] in f;
      assert f[i] in Children(ts, p);
    }
    if t :| t in Children(ts, p) && t.id == c {
      assert t in f;
      var i :| 0 <= i < |f| && f[i] == t;
      assert Edges(ts)[i] == Edge(p, c);
    }
  }
}
