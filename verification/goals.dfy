/**
 * The goals page: goals with ordered milestones that are completed from the
 * last one upwards, the progress percentage, the goal order, and the edits.
 */
module Goals {
  import opened Wrappers
  import opened Entities
  import opened Lists
  import opened Sorting
  import opened Text

  // ---------------------------------------------------------------------------
  // progressOf

  function IsDone(): Milestone -> bool {
    (m: Milestone) => m.completed
  }

  /** `g.milestones.filter(m => m.completed).length`. */
  function DoneCount(ms: seq<Milestone>): (n: nat)
    ensures n <= |ms|
  {
    |Filter(ms, IsDone())|
  }

  /** Euclidean division brackets its dividend. */
  lemma DivBracket(n: nat, m: nat)
    requires m > 0
    ensures m * (n / m) <= n < m * (n / m + 1)
  {
  }

  lemma MulCancelLe(a: int, b: int, c: int)
    requires c > 0 && a * c <= b * c
    ensures a <= b
  {
  }

  lemma MulCancelLess(a: int, b: int, c: int)
    requires c > 0 && a * c < b * c
    ensures a < b
  {
  }

  /**
   * `progressOf`: 0 without milestones, otherwise `Math.round(done / total * 100)`,
   * the nearest whole percentage with halves rounded up.
   */
  function ProgressOf(g: Goal): (r: nat)
    ensures |g.milestones| == 0 ==> r == 0
    ensures |g.milestones| > 0 ==>
      var done, total := DoneCount(g.milestones), |g.milestones|;
      2 * total * r <= 200 * done + total < 2 * total * (r + 1)
  {
    var total := |g.milestones|;
    if total == 0 then 0
    else
      DivBracket(200 * DoneCount(g.milestones) + total, 2 * total);
      (200 * DoneCount(g.milestones) + total) / (2 * total)
  }

  lemma AllDoneCount(ms: seq<Milestone>)
    requires forall i | 0 <= i < |ms| :: ms[i].completed
    ensures DoneCount(ms) == |ms|
  {
    assert forall x | x in ms :: IsDone()(x);
    FilterCongruent(ms, IsDone(), (m: Milestone) => true);
    FilterAll(ms);
  }

  lemma {:induction false} FilterAll(ms: seq<Milestone>)
    ensures Filter(ms, (m: Milestone) => true) == ms
    decreases |ms|
  {
    if ms != [] {
      FilterAll(ms[1..]);
    }
  }

  /** Progress is a percentage: 100 when every milestone is done, 0 when none is. */
  lemma ProgressBounds(g: Goal)
    ensures ProgressOf(g) <= 100
    ensures (forall i | 0 <= i < |g.milestones| :: g.milestones[i].completed) && |g.milestones| > 0
      ==> ProgressOf(g) == 100
    ensures (forall i | 0 <= i < |g.milestones| :: !g.milestones[i].completed) ==> ProgressOf(g) == 0
  {
    var ms := g.milestones;
    if |ms| > 0 {
      var r, total, done := ProgressOf(g), |ms|, DoneCount(ms);
      assert 2 * total * r == (2 * r) * total;
      assert 2 * total * (r + 1) == (2 * r + 2) * total;
      MulCancelLe(2 * r, 201, total);
      if forall i | 0 <= i < |ms| :: ms[i].completed {
        AllDoneCount(ms);
        MulCancelLess(201, 2 * r + 2, total);
      }
      if forall i | 0 <= i < |ms| :: !ms[i].completed {
        assert forall x | x in ms :: !IsDone()(x);
        FilterNone(ms, IsDone());
        MulCancelLe(2 * r, 1, total);
      }
    }
  }

  // ---------------------------------------------------------------------------
  // nextActionableMsId

  /** Every milestone from position `from` on is done. */
  predicate DoneFrom(ms: seq<Milestone>, from: nat) {
    forall k | from <= k < |ms| :: ms[k].completed
  }

  /**
   * `nextActionableMsId`: scanning from the end, the position of the first
   * milestone not yet done; none when all are done.
   */
  function NextActionable(ms: seq<Milestone>): (r: Option<nat>)
    ensures r.Some? ==> r.value < |ms| && !ms[r.value].completed && DoneFrom(ms, r.value + 1)
    ensures r.None? <==> DoneFrom(ms, 0)
  {
    NextBelow(ms, |ms|)
  }

  /** The loop from `i - 1` down to 0. */
  function NextBelow(ms: seq<Milestone>, i: nat): (r: Option<nat>)
    requires i <= |ms|
    requires DoneFrom(ms, i)
    ensures r.Some? ==> r.value < i && !ms[r.value].completed && DoneFrom(ms, r.value + 1)
    ensures r.None? <==> DoneFrom(ms, 0)
  {
    if i == 0 then None
    else if !ms[i - 1].completed then Some(i - 1)
    else NextBelow(ms, i - 1)
  }

  // ---------------------------------------------------------------------------
  // toggleMilestone

  /** `g.milestones.find(m => m.id === id)`. */
  function MilestoneIndex(ms: seq<Milestone>, id: string): (r: Option<nat>)
    ensures r.Some? ==> r.value < |ms| && ms[r.value].id == id
    ensures r.None? <==> forall k | 0 <= k < |ms| :: ms[k].id != id
  {
    if ms == [] then None
    else if ms[0].id == id then Some(0)
    else
      match MilestoneIndex(ms[1..], id)
      case Some(j) => Some(j + 1)
      case None => None
  }

  /** The spread flipping a milestone: stamped with `now` when it becomes done, unstamped otherwise. */
  function FlipMilestone(m: Milestone, now: string): Milestone {
    m.(completed := !m.completed, completedAt := if !m.completed then Some(now) else None)
  }

  /** `gg.milestones.map(m => m.id === msId ? flipped : m)`. */
  function FlipMilestones(ms: seq<Milestone>, msId: string, now: string): (r: seq<Milestone>)
    ensures |r| == |ms|
    ensures forall i | 0 <= i < |ms| :: r[i] == if ms[i].id == msId then FlipMilestone(ms[i], now) else ms[i]
  {
    if ms == [] then []
    else [if ms[0].id == msId then FlipMilestone(ms[0], now) else ms[0]] + FlipMilestones(ms[1..], msId, now)
  }

  /** `milestones.length > 0 && milestones.every(m => m.completed)`. */
  predicate AllDone(ms: seq<Milestone>) {
    |ms| > 0 && DoneFrom(ms, 0)
  }

  /** The goal update of `toggleMilestone`: flip the milestone, close the goal once all are done. */
  function MilestoneStep(msId: string, now: string): Goal -> Goal {
    (g: Goal) =>
      var ms := FlipMilestones(g.milestones, msId, now);
      g.(milestones := ms, completed := AllDone(ms) || g.completed)
  }

  /** `prev.map(g => g.id === id ? f(g) : g)`. */
  function UpdateGoals(gs: seq<Goal>, id: string, f: Goal -> Goal): (r: seq<Goal>)
    ensures |r| == |gs|
    ensures forall i | 0 <= i < |gs| :: r[i] == if gs[i].id == id then f(gs[i]) else gs[i]
  {
    if gs == [] then []
    else [if gs[0].id == id then f(gs[0]) else gs[0]] + UpdateGoals(gs[1..], id, f)
  }

  /** `allowed && allowed !== msId`: a truthy next id other than the one clicked. */
  function Gate(ms: seq<Milestone>, msId: string): Option<string> {
    match NextActionable(ms)
    case Some(a) => if ms[a].id != "" && ms[a].id != msId then Some(ms[a].id) else None
    case None => None
  }

  /** The title in the refusal message: the first milestone carrying the required id. */
  function RequiredTitle(ms: seq<Milestone>, id: string): string {
    match MilestoneIndex(ms, id)
    case Some(k) => ms[k].title
    case None => "前のステップ"
  }

  /**
   * `toggleMilestone`: an unknown goal changes nothing; clicking other than
   * the next milestone due (the last one not done) is refused, naming it;
   * otherwise every milestone with that id flips, the goal closes once all
   * are done, and a point is awarded.
   */
  function ToggleMilestone(d: Document, goalId: string, msId: string, now: string): Step {
    match GoalIndex(d.goals, goalId)
    case None => Step(d, NotFound)
    case Some(gi) =>
      var ms := d.goals[gi].milestones;
      match Gate(ms, msId)
      case Some(req) => Step(d, OutOfSequence(RequiredTitle(ms, req)))
      case None =>
        Step(d.(goals := UpdateGoals(d.goals, goalId, MilestoneStep(msId, now)), points := d.points + 1), Applied)
  }

  /** A refused or unknown toggle changes nothing; only the gate can refuse an existing goal. */
  lemma ToggleMilestoneRefusals(d: Document, goalId: string, msId: string, now: string)
    ensures var s := ToggleMilestone(d, goalId, msId, now);
      && (s.outcome != Applied ==> s.doc == d)
      && (s.outcome == NotFound <==> forall k | 0 <= k < |d.goals| :: d.goals[k].id != goalId)
      && (s.outcome.OutOfSequence? ==>
            var g := d.goals[GoalIndex(d.goals, goalId).value];
            var a := NextActionable(g.milestones).value;
            && g.milestones[a].id != msId
            && s.outcome.required == g.milestones[MilestoneIndex(g.milestones, g.milestones[a].id).value].title)
  {
  }

  /**
   * Milestones are completed from the last one upwards: a toggle on an
   * existing goal is accepted exactly when every milestone is done (only
   * then may one be reopened) or the clicked id is that of the last open
   * milestone (or that milestone's id is empty, which the gate lets through).
   */
  lemma ToggleMilestoneOrder(d: Document, goalId: string, msId: string, now: string)
    requires GoalIndex(d.goals, goalId).Some?
    ensures var ms := d.goals[GoalIndex(d.goals, goalId).value].milestones;
      ToggleMilestone(d, goalId, msId, now).outcome == Applied <==>
        DoneFrom(ms, 0) || ms[NextActionable(ms).value].id in {msId, ""}
  {
  }

  /**
   * When the goal exists and the gate lets the click through, the toggle is
   * applied: it flips exactly the milestones with that id in the goals with
   * that id, closes a goal whose milestones are now all done, never
   * reopens a goal, leaves everything else alone and awards one point.
   */
  lemma ToggleMilestoneApplied(d: Document, goalId: string, msId: string, now: string)
    requires GoalIndex(d.goals, goalId).Some?
    requires Gate(d.goals[GoalIndex(d.goals, goalId).value].milestones, msId).None?
    ensures ToggleMilestone(d, goalId, msId, now).outcome == Applied
    ensures var r := ToggleMilestone(d, goalId, msId, now).doc;
      && r.tasks == d.tasks && r.points == d.points + 1
      && |r.goals| == |d.goals|
      && (forall i | 0 <= i < |d.goals| && d.goals[i].id != goalId :: r.goals[i] == d.goals[i])
      && (forall i | 0 <= i < |d.goals| && d.goals[i].id == goalId ::
            var g, h := d.goals[i], r.goals[i];
            && h.id == g.id && h.title == g.title && h.createdAt == g.createdAt
            && |h.milestones| == |g.milestones|
            && (forall j | 0 <= j < |g.milestones| ::
                  && h.milestones[j].id == g.milestones[j].id
                  && h.milestones[j].title == g.milestones[j].title
                  && (h.milestones[j].completed <==> (g.milestones[j].completed != (g.milestones[j].id == msId)))
                  && (g.milestones[j].id == msId ==> (h.milestones[j].completedAt.Some? <==> h.milestones[j].completed))
                  && (g.milestones[j].id == msId && h.milestones[j].completed ==> h.milestones[j].completedAt == Some(now))
                  && (g.milestones[j].id != msId ==> h.milestones[j] == g.milestones[j]))
            && (h.completed <==> g.completed || AllDone(h.milestones)))
  {
  }

  /**
   * Reopening a milestone once all are done is allowed and still awards a
   * point, and the goal stays completed: for a goal with one milestone,
   * unchecking and checking it again earns two points.
   */
  lemma UncheckEarnsPoint()
    ensures var m := Milestone("m", "step", true, Some("t0"));
      var d := Document([], [Goal("g", "goal", [m], true, 0)], 0);
      var s1 := ToggleMilestone(d, "g", "m", "t1");
      var s2 := ToggleMilestone(s1.doc, "g", "m", "t2");
      && s1.outcome == Applied && !s1.doc.goals[0].milestones[0].completed && s1.doc.goals[0].completed
      && s2.outcome == Applied && s2.doc.goals[0].milestones[0].completed
      && s2.doc.points == 2
  {
    var m := Milestone("m", "step", true, Some("t0"));
    var d := Document([], [Goal("g", "goal", [m], true, 0)], 0);
    assert NextActionable([m]).None?;
    var s1 := ToggleMilestone(d, "g", "m", "t1");
    assert s1.doc.goals[0].milestones == [FlipMilestone(m, "t1")];
    assert NextActionable(s1.doc.goals[0].milestones) == Some(0);
    var s2 := ToggleMilestone(s1.doc, "g", "m", "t2");
    assert s2.doc.goals[0].milestones == [FlipMilestone(FlipMilestone(m, "t1"), "t2")];
  }

  // ---------------------------------------------------------------------------
  // toggleGoal

  /** `g.milestones.length === 0 || g.milestones.every(m => m.completed)`. */
  predicate Closable(g: Goal) {
    DoneFrom(g.milestones, 0)
  }

  /** The goal update of `toggleGoal`: flip `completed` when the guard allows. */
  function FlipGoal(g: Goal): Goal {
    if Closable(g) then g.(completed := !g.completed) else g
  }

  function Flip(): Goal -> Goal {
    (g: Goal) => FlipGoal(g)
  }

  /** Number of goals that `toggleGoal` moves from open to completed (two points each). */
  function Closing(gs: seq<Goal>, id: string): (n: nat)
    ensures n <= |gs|
  {
    if gs == [] then 0
    else (if gs[0].id == id && Closable(gs[0]) && !gs[0].completed then 1 else 0) + Closing(gs[1..], id)
  }

  /**
   * `toggleGoal`: every goal with that id whose milestones are all done (or
   * that has none) flips; two points for each that closes. The outcome
   * reports on the first goal with that id.
   */
  function ToggleGoal(d: Document, goalId: string): Step {
    var next := d.(goals := UpdateGoals(d.goals, goalId, Flip()),
                   points := d.points + 2 * Closing(d.goals, goalId));
    match GoalIndex(d.goals, goalId)
    case None => Step(next, NotFound)
    case Some(gi) => Step(next, if Closable(d.goals[gi]) then Applied else NotClosable)
  }

  /** With unique goal ids, closing a goal earns two points and reopening it earns none. */
  lemma {:induction false} ClosingUnique(gs: seq<Goal>, id: string)
    requires UniqueGoalIds(gs)
    ensures Closing(gs, id) == match GoalIndex(gs, id)
      case None => 0
      case Some(i) => if Closable(gs[i]) && !gs[i].completed then 1 else 0
    decreases |gs|
  {
    if gs != [] {
      assert UniqueGoalIds(gs[1..]) by {
        forall i, j | 0 <= i < |gs[1..]| && 0 <= j < |gs[1..]| && i != j
          ensures gs[1..][i].id != gs[1..][j].id
        {
          assert gs[1..][i] == gs[i + 1] && gs[1..][j] == gs[j + 1];
        }
      }
      ClosingUnique(gs[1..], id);
      if gs[0].id == id {
        forall k | 0 <= k < |gs[1..]|
          ensures gs[1..][k].id != id
        {
          assert gs[1..][k] == gs[k + 1];
        }
        ClosingAbsent(gs[1..], id);
      }
    }
  }

  lemma {:induction false} ClosingAbsent(gs: seq<Goal>, id: string)
    requires forall k | 0 <= k < |gs| :: gs[k].id != id
    ensures Closing(gs, id) == 0
    decreases |gs|
  {
    if gs != [] {
      assert forall k | 0 <= k < |gs[1..]| :: gs[1..][k] == gs[k + 1];
      ClosingAbsent(gs[1..], id);
    }
  }

  /**
   * With unique goal ids: an unknown id is reported as such; a goal found is
   * toggled exactly when it is closable (no milestones, or all done), and
   * then it flips, earning two points when it closes; nothing else changes.
   */
  lemma ToggleGoalSpec(d: Document, goalId: string)
    requires UniqueGoalIds(d.goals)
    ensures var s := ToggleGoal(d, goalId);
      && (s.outcome == NotFound <==> GoalIndex(d.goals, goalId).None?)
      && (GoalIndex(d.goals, goalId).Some? ==>
            (s.outcome == Applied <==> Closable(d.goals[GoalIndex(d.goals, goalId).value])))
      && s.doc.tasks == d.tasks && |s.doc.goals| == |d.goals|
      && (s.outcome != Applied ==> s.doc == d)
      && (forall i | 0 <= i < |d.goals| && d.goals[i].id != goalId :: s.doc.goals[i] == d.goals[i])
      && (s.outcome == Applied ==>
            var i := GoalIndex(d.goals, goalId).value;
            && s.doc.goals[i] == d.goals[i].(completed := !d.goals[i].completed)
            && s.doc.points == d.points + (if d.goals[i].completed then 0 else 2))
  {
    ClosingUnique(d.goals, goalId);
    var s := ToggleGoal(d, goalId);
    if s.outcome != Applied {
      forall i | 0 <= i < |d.goals|
        ensures s.doc.goals[i] == d.goals[i]
      {
        if d.goals[i].id == goalId {
          assert i == GoalIndex(d.goals, goalId).value;
        }
      }
    }
  }

  /** Lists with the same ids at every position have their first goal with an id in the same place. */
  lemma {:induction false} GoalIndexIds(a: seq<Goal>, b: seq<Goal>, key: string)
    requires |a| == |b|
    requires forall k | 0 <= k < |a| :: a[k].id == b[k].id
    ensures GoalIndex(a, key) == GoalIndex(b, key)
    decreases |a|
  {
    if a != [] {
      assert forall k | 0 <= k < |a[1..]| :: a[1..][k] == a[k + 1] && b[1..][k] == b[k + 1];
      GoalIndexIds(a[1..], b[1..], key);
    }
  }

  /** Flipping twice restores each goal, since flipping leaves the milestones alone. */
  lemma FlipGoalTwice(gs: seq<Goal>, id: string)
    ensures UpdateGoals(UpdateGoals(gs, id, Flip()), id, Flip()) == gs
  {
    var us := UpdateGoals(UpdateGoals(gs, id, Flip()), id, Flip());
    assert forall k | 0 <= k < |gs| :: us[k] == gs[k];
  }

  /**
   * Toggling a goal twice restores the goals; the points go up by two when
   * the goal found can be toggled (it closes on one of the two toggles) and
   * stay put otherwise.
   */
  lemma ToggleGoalTwice(d: Document, goalId: string)
    requires UniqueGoalIds(d.goals)
    ensures var s := ToggleGoal(ToggleGoal(d, goalId).doc, goalId);
      && s.doc.goals == d.goals
      && s.doc.points == d.points + match GoalIndex(d.goals, goalId)
           case None => 0
           case Some(i) => if Closable(d.goals[i]) then 2 else 0
  {
    FlipGoalTwice(d.goals, goalId);
    ClosingFlip(d.goals, goalId);
  }

  /** Of a goal and its flipped self, exactly one is open and closable, when it is closable at all. */
  lemma ClosingFlip(gs: seq<Goal>, id: string)
    requires UniqueGoalIds(gs)
    ensures Closing(gs, id) + Closing(UpdateGoals(gs, id, Flip()), id) == match GoalIndex(gs, id)
      case None => 0
      case Some(i) => if Closable(gs[i]) then 1 else 0
  {
    var gs1 := UpdateGoals(gs, id, Flip());
    ClosingUnique(gs, id);
    assert UniqueGoalIds(gs1) by {
      assert forall k | 0 <= k < |gs1| :: gs1[k].id == gs[k].id;
    }
    ClosingUnique(gs1, id);
    GoalIndexIds(gs1, gs, id);
  }

  // ---------------------------------------------------------------------------
  // addGoal / addMilestone

  /**
   * `addGoal`: a blank title changes nothing; otherwise a new open goal with
   * no milestones and the trimmed title goes to the front. `newId` and
   * `createdAt` stand for `nanoid(6)` and the clock.
   */
  function AddGoal(d: Document, title: string, newId: string, createdAt: int): Document {
    if Trim(title) == "" then d
    else d.(goals := [Goal(newId, Trim(title), [], false, createdAt)] + d.goals)
  }

  /**
   * A blank title is a no-op. Otherwise exactly one goal is put in front of
   * the others: the given id and creation time, the trimmed title, open,
   * without milestones, so at zero progress and ready to be closed.
   */
  lemma AddGoalSpec(d: Document, title: string, newId: string, createdAt: int)
    ensures var r := AddGoal(d, title, newId, createdAt);
      && (Blank(title) ==> r == d)
      && (!Blank(title) ==>
            && |r.goals| == |d.goals| + 1
            && r.goals[1..] == d.goals && r.tasks == d.tasks && r.points == d.points
            && r.goals[0].id == newId && r.goals[0].createdAt == createdAt
            && r.goals[0].title == Trim(title)
            && r.goals[0].milestones == [] && !r.goals[0].completed
            && r.goals[0].title != "" && !IsSpace(r.goals[0].title[0])
            && !IsSpace(r.goals[0].title[|r.goals[0].title| - 1])
            && ProgressOf(r.goals[0]) == 0 && Closable(r.goals[0]))
  {
  }

  /** A fresh id keeps the goal ids distinct. */
  lemma AddGoalFresh(d: Document, title: string, newId: string, createdAt: int)
    requires UniqueGoalIds(d.goals)
    requires forall k | 0 <= k < |d.goals| :: d.goals[k].id != newId
    ensures UniqueGoalIds(AddGoal(d, title, newId, createdAt).goals)
  {
  }

  /** The milestone update of `addMilestone`: append at the end. */
  function AppendMilestone(m: Milestone): Goal -> Goal {
    (g: Goal) => g.(milestones := g.milestones + [m])
  }

  /**
   * `addMilestone`: a blank input changes nothing; otherwise an open
   * milestone with the trimmed title is appended to every goal with that id.
   */
  function AddMilestone(d: Document, goalId: string, input: string, newId: string): Document {
    if Trim(input) == "" then d
    else d.(goals := UpdateGoals(d.goals, goalId, AppendMilestone(Milestone(newId, Trim(input), false, None))))
  }

  /**
   * A new milestone goes last, so it is the next one due: milestones are
   * entered top down and completed bottom up. The goal's completion flag is
   * left as it was.
   */
  lemma AddMilestoneNext(d: Document, goalId: string, input: string, newId: string)
    requires !Blank(input)
    ensures var r := AddMilestone(d, goalId, input, newId);
      && |r.goals| == |d.goals| && r.tasks == d.tasks && r.points == d.points
      && (forall i | 0 <= i < |d.goals| && d.goals[i].id != goalId :: r.goals[i] == d.goals[i])
      && (forall i | 0 <= i < |d.goals| && d.goals[i].id == goalId ::
            && r.goals[i] == d.goals[i].(milestones := d.goals[i].milestones + [Milestone(newId, Trim(input), false, None)])
            && r.goals[i].milestones[..|d.goals[i].milestones|] == d.goals[i].milestones
            && |r.goals[i].milestones| == |d.goals[i].milestones| + 1
            && r.goals[i].completed == d.goals[i].completed
            && NextActionable(r.goals[i].milestones) == Some(|d.goals[i].milestones|)
            && r.goals[i].milestones[|d.goals[i].milestones|].id == newId
            && !Closable(r.goals[i]))
  {
  }

  lemma AddMilestoneBlank(d: Document, goalId: string, input: string, newId: string)
    requires Blank(input)
    ensures AddMilestone(d, goalId, input, newId) == d
  {
  }

  // ---------------------------------------------------------------------------
  // renaming

  /** `editingTitle.trim() || old`: the trimmed new title, or the old one when that is empty. */
  function Renamed(current: string, input: string): (r: string)
    ensures Blank(input) ==> r == current
    ensures !Blank(input) ==> r == Trim(input) && r != "" && !IsSpace(r[0]) && !IsSpace(r[|r| - 1])
  {
    if Trim(input) == "" then current else Trim(input)
  }

  /** `saveEditGoal`: with no goal being edited nothing changes; otherwise rename every goal with that id. */
  function SaveEditGoal(d: Document, editingGoalId: Option<string>, input: string): Document {
    match editingGoalId
    case None => d
    case Some(id) =>
      if id == "" then d
      else d.(goals := UpdateGoals(d.goals, id, (g: Goal) => g.(title := Renamed(g.title, input))))
  }

  /**
   * Only the goals with the edited id are renamed, and only their title: a
   * non-blank input makes it the trimmed input, a blank one keeps it.
   */
  lemma SaveEditGoalSpec(d: Document, editingGoalId: Option<string>, input: string)
    ensures var r := SaveEditGoal(d, editingGoalId, input);
      && (editingGoalId.None? || editingGoalId == Some("") || Blank(input) ==> r.goals == d.goals)
      && r.tasks == d.tasks && r.points == d.points && |r.goals| == |d.goals|
      && (forall i | 0 <= i < |d.goals| ::
            r.goals[i] == d.goals[i].(title := r.goals[i].title)
            && (r.goals[i].title != d.goals[i].title ==> Some(d.goals[i].id) == editingGoalId && r.goals[i].title == Trim(input))
            && (editingGoalId == Some(d.goals[i].id) && d.goals[i].id != "" && !Blank(input) ==> r.goals[i].title == Trim(input)))
  {
    var r := SaveEditGoal(d, editingGoalId, input);
    if editingGoalId.Some? && editingGoalId.value != "" && Blank(input) {
      assert forall i | 0 <= i < |d.goals| :: r.goals[i] == d.goals[i];
    }
  }

  /** `m.id === msId ? { ...m, title } : m`. */
  function RenameMilestones(ms: seq<Milestone>, msId: string, input: string): (r: seq<Milestone>)
    ensures |r| == |ms|
    ensures forall j | 0 <= j < |ms| ::
      r[j] == if ms[j].id == msId then ms[j].(title := Renamed(ms[j].title, input)) else ms[j]
  {
    if ms == [] then []
    else
      var m := if ms[0].id == msId then ms[0].(title := Renamed(ms[0].title, input)) else ms[0];
      [m] + RenameMilestones(ms[1..], msId, input)
  }

  /** `saveEditMs`: rename the milestones with that id inside the goals with that id. */
  function SaveEditMs(d: Document, editing: Option<(string, string)>, input: string): Document {
    match editing
    case None => d
    case Some((goalId, msId)) =>
      d.(goals := UpdateGoals(d.goals, goalId, (g: Goal) => g.(milestones := RenameMilestones(g.milestones, msId, input))))
  }

  /**
   * Only the milestones with the edited id, inside the goals with the edited
   * goal id, are renamed, and only their title: a non-blank input makes it
   * the trimmed input, a blank one keeps it.
   */
  lemma SaveEditMsSpec(d: Document, editing: Option<(string, string)>, input: string)
    ensures var r := SaveEditMs(d, editing, input);
      && r.tasks == d.tasks && r.points == d.points && |r.goals| == |d.goals|
      && (editing.None? || Blank(input) ==> r.goals == d.goals)
      && (forall i | 0 <= i < |d.goals| ::
            && |r.goals[i].milestones| == |d.goals[i].milestones|
            && r.goals[i] == d.goals[i].(milestones := r.goals[i].milestones)
            && forall j | 0 <= j < |d.goals[i].milestones| ::
                 var m, n := d.goals[i].milestones[j], r.goals[i].milestones[j];
                 n == m.(title := n.title)
                 && (n.title != m.title ==> editing == Some((d.goals[i].id, m.id)) && n.title == Trim(input))
                 && (editing == Some((d.goals[i].id, m.id)) && !Blank(input) ==> n.title == Trim(input)))
  {
    var r := SaveEditMs(d, editing, input);
    if editing.Some? && Blank(input) {
      forall i | 0 <= i < |d.goals|
        ensures r.goals[i] == d.goals[i]
      {
        assert r.goals[i].milestones == d.goals[i].milestones;
      }
    }
  }

  // ---------------------------------------------------------------------------
  // sorted

  /** The comparator of `sorted` is negative: open before completed, then newer first. */
  predicate GoalBefore(a: Goal, b: Goal) {
    if a.completed != b.completed then !a.completed else a.createdAt > b.createdAt
  }

  lemma GoalBeforeOrder()
    ensures StrictOrder(GoalBefore)
  {
  }

  /** `sorted`: the goals, open ones first, newest first within each part. */
  function SortedGoals(gs: seq<Goal>): seq<Goal> {
    SortBy(gs, GoalBefore)
  }

  lemma SortedGoalsSpec(gs: seq<Goal>)
    ensures var r := SortedGoals(gs);
      && multiset(r) == multiset(gs)
      && (forall i, j | 0 <= i < j < |r| :: r[i].completed ==> r[j].completed)
      && (forall i, j | 0 <= i < j < |r| && r[i].completed == r[j].completed :: r[i].createdAt >= r[j].createdAt)
  {
    GoalBeforeOrder();
    SortBySorted(gs, GoalBefore);
  }
}
