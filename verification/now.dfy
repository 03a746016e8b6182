/**
 * The "now" page: the actionable tasks (open, with nothing open below them),
 * earliest deadline first, grouped by their parent; groups ordered by their
 * earliest deadline, then by the parent's title.
 */
module Now {
  import opened Wrappers
  import opened Entities
  import opened Lists
  import opened Forest
  import opened Sorting
  import opened Text
  import Tasks

  // ---------------------------------------------------------------------------
  // actionable

  /** `!t.completed && !hasOpenDescendant(t.id)`. */
  function IsActionable(ts: seq<Task>): Task -> bool {
    (t: Task) => !t.completed && !SomeOpenDescendant(ts, t.id)
  }

  /**
   * The comparator `ta - tb` with an absent deadline read as `Infinity` is
   * negative: `a` has a deadline and `b` has none, or `a`'s is earlier. Two
   * absent deadlines give `NaN`, which the sort treats as a tie.
   */
  predicate EarlierDeadline(a: Task, b: Task) {
    a.deadline.Some? && (b.deadline.None? || a.deadline.value < b.deadline.value)
  }

  lemma EarlierDeadlineOrder()
    ensures StrictOrder(EarlierDeadline)
  {
  }

  /** `actionable`: the filter, then the stable sort by deadline. */
  function Actionable(ts: seq<Task>): seq<Task> {
    SortBy(Filter(ts, IsActionable(ts)), EarlierDeadline)
  }

  /**
   * `actionable` holds exactly the open tasks with nothing open below them,
   * each as often as in the list; tasks with a deadline come first, earliest
   * first.
   */
  lemma ActionableSpec(ts: seq<Task>)
    ensures var r := Actionable(ts);
      && (forall t :: t in r <==> t in ts && !t.completed && !SomeOpenDescendant(ts, t.id))
      && multiset(r) == multiset(Filter(ts, IsActionable(ts)))
      && (forall i, j | 0 <= i < j < |r| :: r[i].deadline.None? ==> r[j].deadline.None?)
      && (forall i, j | 0 <= i < j < |r| && r[j].deadline.Some? ::
            r[i].deadline.Some? && r[i].deadline.value <= r[j].deadline.value)
  {
    var f := Filter(ts, IsActionable(ts));
    forall t
      ensures t in Actionable(ts) <==> t in f
    {
      SortByMembers(f, EarlierDeadline, t);
    }
    EarlierDeadlineOrder();
    SortBySorted(f, EarlierDeadline);
  }

  /** Every actionable task passes the completion gate: toggling it completes it. */
  lemma ActionablePassesGate(d: Document, t: Task, now: string)
    requires UniqueIds(d.tasks)
    requires t in Actionable(d.tasks)
    ensures Tasks.ToggleTaskNow(d, t.id, now).outcome == Applied
    ensures Tasks.ToggleTaskNow(d, t.id, now).doc.points == d.points + 1
  {
    SortByMembers(Filter(d.tasks, IsActionable(d.tasks)), EarlierDeadline, t);
    IndexOfMember(d.tasks, t);
    LookupsAgree(d.tasks, t.id);
  }

  /** An open task with something open below it is refused and nothing changes. */
  lemma BlockedNoChange(d: Document, t: Task, now: string)
    requires UniqueIds(d.tasks)
    requires t in d.tasks && !t.completed && SomeOpenDescendant(d.tasks, t.id)
    ensures Tasks.ToggleTaskNow(d, t.id, now) == Step(d, BlockedByOpenDescendant)
  {
    IndexOfMember(d.tasks, t);
    LookupsAgree(d.tasks, t.id);
  }

  // ---------------------------------------------------------------------------
  // groups

  /** The key of the root group. */
  const RootKey := "__root__"

  /** The title shown for the root group, which has no parent task. */
  const RootTitle := "(親なし)"

  /** A group: the parent task (none for the root group), its items and its key. */
  datatype Group = Group(parent: Option<Task>, items: seq<Task>, key: string)

  /** `c.parentId ? taskMap.get(c.parentId) ?? null : null`: the parent task, the last with that id. */
  function ParentOf(ts: seq<Task>, c: Task): (p: Option<Task>)
    ensures p.Some? ==> p.value in ts && ParentKey(c) == Some(p.value.id)
    ensures p.None? <==> ParentKey(c).None? || ParentKey(c).value !in Ids(ts)
  {
    match ParentKey(c)
    case None => None
    case Some(k) =>
      match LastIndexOf(ts, k)
      case None => None
      case Some(j) => Some(ts[j])
  }

  /** `p ? p.id : "__root__"`. */
  function KeyOf(ts: seq<Task>, c: Task): string {
    match ParentOf(ts, c)
    case Some(p) => p.id
    case None => RootKey
  }

  /** The test for "belongs to the group with key `k`". */
  function KeyIs(ts: seq<Task>, k: string): Task -> bool {
    (c: Task) => KeyOf(ts, c) == k
  }

  /** Position of the group with key `k`, if there is one. */
  function GroupIndex(gs: seq<Group>, k: string): (r: Option<nat>)
    ensures r.Some? ==> r.value < |gs| && gs[r.value].key == k
    ensures r.None? ==> forall i | 0 <= i < |gs| :: gs[i].key != k
  {
    if gs == [] then None
    else if gs[|gs| - 1].key == k then Some(|gs| - 1)
    else GroupIndex(gs[..|gs| - 1], k)
  }

  /** One round of the grouping loop: `map.get(key) ?? { parent: p, items: [], key }`, push, set. */
  function AddToGroup(ts: seq<Task>, gs: seq<Group>, c: Task): seq<Group> {
    var k := KeyOf(ts, c);
    match GroupIndex(gs, k)
    case Some(i) => gs[i := gs[i].(items := gs[i].items + [c])]
    case None => gs + [Group(ParentOf(ts, c), [c], k)]
  }

  /** The groups of `cs` in the order their keys first appear (`Array.from(map.values())`). */
  function GroupBy(ts: seq<Task>, cs: seq<Task>): seq<Group> {
    if cs == [] then []
    else AddToGroup(ts, GroupBy(ts, cs[..|cs| - 1]), cs[|cs| - 1])
  }

  /** No two groups share a key. */
  predicate KeysDistinct(gs: seq<Group>) {
    forall i, j | 0 <= i < j < |gs| :: gs[i].key != gs[j].key
  }

  /** Each group holds, in order, exactly the items of `cs` with its key, and its parent is its first item's. */
  ghost predicate GroupsHold(ts: seq<Task>, cs: seq<Task>, gs: seq<Group>) {
    forall g | g in gs ::
      && g.items == Filter(cs, KeyIs(ts, g.key))
      && g.items != []
      && g.parent == ParentOf(ts, g.items[0])
  }

  /** Every item of `cs` has a group. */
  ghost predicate GroupsCover(ts: seq<Task>, cs: seq<Task>, gs: seq<Group>) {
    forall c | c in cs :: KeyOf(ts, c) in KeysOf(gs)
  }

  function KeysOf(gs: seq<Group>): set<string> {
    set g | g in gs :: g.key
  }

  /** Well-formed grouping of `cs`: one group per key in use, each holding exactly its items in order. */
  ghost predicate GroupsOf(ts: seq<Task>, cs: seq<Task>, gs: seq<Group>) {
    KeysDistinct(gs) && GroupsHold(ts, cs, gs) && GroupsCover(ts, cs, gs)
  }

  /** Appending `c` adds it to its key's list and leaves every other key's list alone. */
  lemma FilterSnocKey(ts: seq<Task>, cs: seq<Task>, c: Task, k: string)
    ensures Filter(cs + [c], KeyIs(ts, k)) == Filter(cs, KeyIs(ts, k)) + (if KeyOf(ts, c) == k then [c] else [])
  {
    FilterAppend(cs, [c], KeyIs(ts, k));
    assert Filter([c], KeyIs(ts, k)) == (if KeyOf(ts, c) == k then [c] else []) by {
      assert [c][1..] == [];
    }
  }

  lemma KeysOfSnoc(gs: seq<Group>, g: Group)
    ensures KeysOf(gs + [g]) == KeysOf(gs) + {g.key}
  {
    forall k | k in KeysOf(gs)
      ensures k in KeysOf(gs + [g])
    {
      var h :| h in gs && h.key == k;
      assert h in gs + [g];
    }
    assert g in gs + [g];
  }

  lemma KeysOfUpdate(gs: seq<Group>, i: nat, g: Group)
    requires i < |gs| && g.key == gs[i].key
    ensures KeysOf(gs[i := g]) == KeysOf(gs)
  {
    forall k | k in KeysOf(gs)
      ensures k in KeysOf(gs[i := g])
    {
      var h :| h in gs && h.key == k;
      var j :| 0 <= j < |gs| && gs[j] == h;
      assert gs[i := g][j] in gs[i := g];
    }
    forall k | k in KeysOf(gs[i := g])
      ensures k in KeysOf(gs)
    {
      var h :| h in gs[i := g] && h.key == k;
      var j :| 0 <= j < |gs| && gs[i := g][j] == h;
      assert gs[j] in gs;
    }
  }

  lemma AddToExisting(ts: seq<Task>, cs: seq<Task>, gs: seq<Group>, c: Task, i: nat)
    requires KeysDistinct(gs) && GroupsHold(ts, cs, gs)
    requires i < |gs| && gs[i].key == KeyOf(ts, c)
    ensures var next := gs[i := gs[i].(items := gs[i].items + [c])];
      KeysDistinct(next) && GroupsHold(ts, cs + [c], next) && KeysOf(next) == KeysOf(gs)
  {
    var next := gs[i := gs[i].(items := gs[i].items + [c])];
    forall g | g in next
      ensures g.items == Filter(cs + [c], KeyIs(ts, g.key)) && g.items != [] && g.parent == ParentOf(ts, g.items[0])
    {
      var j :| 0 <= j < |next| && next[j] == g;
      assert gs[j] in gs;
      FilterSnocKey(ts, cs, c, g.key);
    }
    KeysOfUpdate(gs, i, next[i]);
  }

  /** A new group for `c` holds exactly `c`. */
  lemma NewGroupHolds(ts: seq<Task>, cs: seq<Task>, gs: seq<Group>, c: Task)
    requires GroupsCover(ts, cs, gs)
    requires KeyOf(ts, c) !in KeysOf(gs)
    ensures [c] == Filter(cs + [c], KeyIs(ts, KeyOf(ts, c)))
  {
    var k := KeyOf(ts, c);
    FilterNone(cs, KeyIs(ts, k));
    FilterSnocKey(ts, cs, c, k);
  }

  /** An old group keeps its items when `c` opens a group of its own. */
  lemma OldGroupHolds(ts: seq<Task>, cs: seq<Task>, g: Group, c: Task)
    requires g.items == Filter(cs, KeyIs(ts, g.key))
    requires g.key != KeyOf(ts, c)
    ensures g.items == Filter(cs + [c], KeyIs(ts, g.key))
  {
    FilterSnocKey(ts, cs, c, g.key);
  }

  lemma AddNew(ts: seq<Task>, cs: seq<Task>, gs: seq<Group>, c: Task)
    requires KeysDistinct(gs) && GroupsHold(ts, cs, gs) && GroupsCover(ts, cs, gs)
    requires KeyOf(ts, c) !in KeysOf(gs)
    ensures var next := gs + [Group(ParentOf(ts, c), [c], KeyOf(ts, c))];
      KeysDistinct(next) && GroupsHold(ts, cs + [c], next) && KeysOf(next) == KeysOf(gs) + {KeyOf(ts, c)}
  {
    var k := KeyOf(ts, c);
    var n := Group(ParentOf(ts, c), [c], k);
    var next := gs + [n];
    NewGroupHolds(ts, cs, gs, c);
    forall g | g in next
      ensures g.items == Filter(cs + [c], KeyIs(ts, g.key)) && g.items != [] && g.parent == ParentOf(ts, g.items[0])
    {
      if g != n {
        assert g in gs;
        OldGroupHolds(ts, cs, g, c);
      }
    }
    forall i | 0 <= i < |gs|
      ensures gs[i].key != k
    {
      assert gs[i] in gs;
    }
    KeysOfSnoc(gs, n);
  }

  lemma AddToGroupStep(ts: seq<Task>, cs: seq<Task>, gs: seq<Group>, c: Task)
    requires GroupsOf(ts, cs, gs)
    ensures GroupsOf(ts, cs + [c], AddToGroup(ts, gs, c))
  {
    var k := KeyOf(ts, c);
    var next := AddToGroup(ts, gs, c);
    match GroupIndex(gs, k)
    case Some(i) =>
      AddToExisting(ts, cs, gs, c, i);
      assert k in KeysOf(next) by {
        assert next[i] in next;
      }
    case None =>
      assert k !in KeysOf(gs);
      AddNew(ts, cs, gs, c);
  }

  /**
   * Every item lands in exactly one group: the group keyed by its parent's
   * id when the parent exists, by `"__root__"` otherwise; each group holds
   * its items in the order of the input, and the keys are distinct.
   */
  lemma {:induction false} GroupBySpec(ts: seq<Task>, cs: seq<Task>)
    ensures GroupsOf(ts, cs, GroupBy(ts, cs))
    decreases |cs|
  {
    if cs != [] {
      var init := cs[..|cs| - 1];
      GroupBySpec(ts, init);
      AddToGroupStep(ts, init, GroupBy(ts, init), cs[|cs| - 1]);
      LastSplit(cs);
    }
  }

  /** `Math.min` of the items' deadlines, an absent deadline read as `Infinity` (None). */
  function Earliest(items: seq<Task>): (r: Option<int>)
    ensures r.None? <==> forall i | 0 <= i < |items| :: items[i].deadline.None?
    ensures r.Some? ==> exists i | 0 <= i < |items| :: items[i].deadline == r
    ensures r.Some? ==> forall i | 0 <= i < |items| && items[i].deadline.Some? :: r.value <= items[i].deadline.value
  {
    if items == [] then None
    else
      var rest := Earliest(items[1..]);
      var first := items[0].deadline;
      var r := if first.None? then rest
        else if rest.None? || first.value <= rest.value then first
        else rest;
      assert forall i | 1 <= i < |items| :: items[i] == items[1..][i - 1];
      if r.Some? && r == rest then
        assert exists i | 0 <= i < |items[1..]| :: items[1..][i].deadline == r;
        r
      else r
  }

  /** `A.parent ? A.parent.title : "(親なし)"`. */
  function GroupTitle(g: Group): string {
    match g.parent
    case Some(p) => p.title
    case None => RootTitle
  }

  /** Strictly earlier, with None as `Infinity`. */
  predicate Before(a: Option<int>, b: Option<int>) {
    a.Some? && (b.None? || a.value < b.value)
  }

  /**
   * The group comparator is negative: a different earliest deadline that is
   * earlier, or the same one and a title that sorts first.
   */
  predicate GroupBefore(a: Group, b: Group) {
    var ea, eb := Earliest(a.items), Earliest(b.items);
    Before(ea, eb) || (ea == eb && StrLt(GroupTitle(a), GroupTitle(b)))
  }

  lemma GroupBeforeOrder()
    ensures StrictOrder(GroupBefore)
  {
    forall a: Group, b: Group | GroupBefore(a, b)
      ensures !GroupBefore(b, a)
    {
      StrLtAsymmetric(GroupTitle(a), GroupTitle(b));
    }
    forall a: Group, b: Group, c: Group | GroupBefore(a, b) && GroupBefore(b, c)
      ensures GroupBefore(a, c)
    {
      StrLtTransitive(GroupTitle(a), GroupTitle(b), GroupTitle(c));
    }
  }

  /** `groups`: the actionable tasks grouped by parent, groups sorted by the comparator. */
  function Groups(ts: seq<Task>): seq<Group> {
    SortBy(GroupBy(ts, Actionable(ts)), GroupBefore)
  }

  /**
   * The groups partition the actionable list by parent key (each group in
   * `actionable` order), and they come earliest deadline first, all-undated
   * groups last, ties by title.
   */
  lemma GroupsSpec(ts: seq<Task>)
    ensures var gs := Groups(ts);
      && multiset(gs) == multiset(GroupBy(ts, Actionable(ts)))
      && GroupsOf(ts, Actionable(ts), gs)
      && (forall i, j | 0 <= i < j < |gs| ::
            && !Before(Earliest(gs[j].items), Earliest(gs[i].items))
            && (Earliest(gs[i].items) == Earliest(gs[j].items) ==> !StrLt(GroupTitle(gs[j]), GroupTitle(gs[i]))))
  {
    var cs := Actionable(ts);
    var raw := GroupBy(ts, cs);
    var gs := Groups(ts);
    GroupBySpec(ts, cs);
    GroupBeforeOrder();
    SortBySorted(raw, GroupBefore);
    PermutedGroups(ts, cs, raw, gs);
  }

  /** A reordering of a well-formed grouping is still one. */
  lemma PermutedGroups(ts: seq<Task>, cs: seq<Task>, raw: seq<Group>, gs: seq<Group>)
    requires GroupsOf(ts, cs, raw)
    requires multiset(gs) == multiset(raw)
    ensures GroupsOf(ts, cs, gs)
  {
    forall g
      ensures g in gs <==> g in raw
    {
      assert g in gs <==> g in multiset(gs);
    }
    assert KeysOf(gs) == KeysOf(raw);
    assert Distinct(raw);
    DistinctPermutation(raw, gs);
    forall i, j | 0 <= i < j < |gs|
      ensures gs[i].key != gs[j].key
    {
      assert gs[i] in raw && gs[j] in raw;
      var a :| 0 <= a < |raw| && raw[a] == gs[i];
      var b :| 0 <= b < |raw| && raw[b] == gs[j];
      assert a != b;
    }
  }
}
