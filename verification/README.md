# TasQuest core in Dafny

TasQuest is a personal task and goal tracker. Tasks are kept as a flat list
with parent pointers. The main page rebuilds the list into a forest and
refuses to complete a task while anything below it is still open. The "now"
page lists the tasks that can be done right away, grouped by parent. Goals
carry ordered milestones, which are completed from the last one upwards.
Completing things earns points. The history page lists the completed tasks
and can reopen one. The network page turns the list into a graph.

This project models those pages' logic as pure functions over one
`Document(tasks, goals, points)` and proves what they promise.

Modules, in dependency order:

- `Wrappers`: `Option`.
- `Lists`: `filter`, `map`, duplicate-freedom.
- `Sorting`: an insertion sort standing in for `Array.prototype.sort`.
- `Text`: `trim` and string order.
- `Entities`: the records, `find` and `Map.get` lookups.
- `Walk` and `Forest`: the parent-pointer walk, acyclicity, descendants, children.
- `Traversal`: `childrenMap` and the stack walk `hasOpenDescendant`.
- `Tree`: `buildTaskTree` and `flattenAndSortByDeadline`.
- `Tasks`: toggling, adding, editing and deleting tasks.
- `Now`: the actionable list and the parent groups.
- `Goals`: progress, milestone sequencing, goal toggling and edits.
- `Logs`: the history and `revert`.
- `Network`: graph elements.

How JavaScript is modelled:

- Truthiness is explicit. `parentId` counts only when it is set and non-empty (`ParentKey`). `completedAt` counts only when it is set and non-empty.
- `Array.prototype.find` is the first match (`IndexOf`, `GoalIndex`). A `Map` built by `set` in list order answers with the last match (`LastIndexOf`).
- `localeCompare` is modelled as lexicographic order of characters (`StrLt`), and equal strings tie. Characters are Unicode scalar values, not UTF-16 code units, and no locale collation is applied.
- A comparator "returns a negative number" is a strict-order predicate. The insertion sort places each element after the elements it ties with, so ties keep their input order, as in a stable sort. The contracts state only sortedness and permutation, not stability.
- Dates are numbers. A task `deadline` and a goal `createdAt` are integers in milliseconds, and an absent or empty deadline is `None` (the code's `Infinity`).
- `nanoid`, `crypto.randomUUID` and `new Date().toISOString()` become parameters (`newId`, `now`, `createdAt`).

Two behaviours of the code are easy to misread. The model follows the code:

- Un-completing a milestone is not unconditional. The code refuses any click on a milestone other than the last open one, in both directions, so a completed milestone can be unchecked only once all milestones are done.
- Every accepted milestone toggle adds a point, including an un-check (`Goals.UncheckEarnsPoint`).

## Model

| member | source | states |
|---|---|---|
| Entities.LookupsAgree | frontend/src/pages/now.tsx:19-23 | with distinct ids, the `taskMap` lookup (last task with the id) and `tasks.find` (first) pick the same task |
| Entities.UniqueIdsCons | frontend/src/pages/index.tsx:64-73 | a task with a fresh id put in front keeps the ids distinct |
| Forest.Children | frontend/src/pages/index.tsx:23-32 | the tasks filed under an id are exactly the tasks whose truthy `parentId` is that id |
| Forest.DescendantSplit | frontend/src/pages/index.tsx:34-43 | a task is strictly below `id` exactly when it is a child of `id` or below one of its children, the recursion the stack walk relies on |
| Forest.OpenDescendantSplit | frontend/src/pages/index.tsx:34-43 | something below `id` is open exactly when one of its children is open or has something open below it |
| Forest.SubtreesDisjoint | frontend/src/pages/index.tsx:112-129 | in an acyclic list with distinct ids, the subtrees of two different children of a task share no task |
| Forest.ChildrenDistinct | frontend/src/pages/index.tsx:23-32 | with distinct ids, a children list holds no task twice |
| Traversal.BuildChildrenMap | frontend/src/pages/index.tsx:23-32 | the map's keys are exactly the truthy parent ids in use, and each entry lists that key's children in list order |
| Traversal.PopStep | frontend/src/pages/index.tsx:36-41 | popping a completed task and pushing its children keeps the answer, keeps the stack inside the list and lowers a well-founded weight |
| Traversal.HasOpenDescendant | frontend/src/pages/index.tsx:34-43 | the stack walk returns true exactly when some task strictly below `id` is open, and terminates on an acyclic list |
| Tree.BuildTaskTree | frontend/src/pages/index.tsx:112-129 | the roots are the tasks whose parent is missing, in list order; every task's children are its children in list order |
| Tree.PlacedOnce | frontend/src/pages/index.tsx:120-126 | each task is placed once: a root exactly when its parent does not exist, otherwise under its parent; no root or child list repeats a task |
| Tree.FlattenMembers | frontend/src/pages/index.tsx:220-228 | the traversal collects exactly the tasks strictly below the given task |
| Tree.FlattenDistinct | frontend/src/pages/index.tsx:220-228 | the traversal lists no task twice |
| Tree.LaterDeadlineOrder | frontend/src/pages/index.tsx:230-235 | the deadline comparator is a strict order |
| Tree.FlattenAndSortByDeadlineSpec | frontend/src/pages/index.tsx:220-236 | the result is a permutation of the task's descendants, undated tasks last, dated ones latest deadline first |
| Tasks.TogglesAgree | frontend/src/pages/now.tsx:98-121 | with distinct ids the "now" page's toggle equals the main page's |
| Tasks.ToggleRefusals | frontend/src/pages/index.tsx:80-87 | an unknown id or an open task with something open below it is refused, and a refusal changes nothing |
| Tasks.ToggleApplied | frontend/src/pages/index.tsx:89-103 | an accepted toggle flips only the tasks with the id, stamps with the clock reading exactly when completing, keeps goals, and moves the points by +1 or down to at least 0 |
| Tasks.PointsRoundTrip | frontend/src/pages/index.tsx:91 | for non-negative points, completing then un-completing restores the points |
| Tasks.PointsFloor | frontend/src/pages/index.tsx:91 | un-completing at 0 points and then completing ends at 1, not 0, because of the floor at 0 |
| Tasks.ToggleKeepsStamps | frontend/src/pages/index.tsx:93-103 | a toggle keeps "stamped exactly when completed" true of every task |
| Tasks.ToggleRoundTrip | frontend/src/pages/index.tsx:80-106 | for non-negative points, completing an open task and then toggling it again restores the whole document |
| Tasks.CompletionKeepsShape | frontend/src/pages/index.tsx:93-103 | the completion update keeps every id and parent id, so the forest is unchanged |
| Tasks.ClosedAfterCompletion | frontend/src/pages/index.tsx:84-103 | when no completed task has an open task below it, an accepted completion keeps it so |
| Tasks.CompletedTargets | frontend/src/pages/index.tsx:84-103 | an accepted toggle of an open task means nothing below it was open, and completes every task with the id |
| Tasks.UncompletionCanOpenBelow | frontend/src/pages/index.tsx:84 | un-completing is not gated: a completed parent can end up above an open child |
| Tasks.AddTaskSpec | frontend/src/pages/index.tsx:61-78 | blank input is a no-op; otherwise one open, unstamped task goes to the front, with the new id, the trimmed input as title, the given deadline, and the parent field as parent (none when empty) |
| Tasks.AddTaskFresh | frontend/src/pages/index.tsx:64-73 | a fresh id keeps ids distinct |
| Tasks.AddTaskBlocksParent | frontend/src/pages/index.tsx:61-78 | a new child is listed first under its parent and blocks the parent's completion |
| Tasks.SaveTaskSpec | frontend/src/pages/index.tsx:45-59 | with no task being edited nothing changes; otherwise the tasks with the id take the raw title, the deadline and the parent, and an empty parent field clears the parent; nothing else changes |
| Tasks.DeleteTaskSpec | frontend/src/pages/index.tsx:108-110 | deleting removes exactly the tasks with the id and keeps every other task in its original relative order, along with the goals, the points and distinct ids |
| Tasks.DeleteOrphansRoots | frontend/src/pages/index.tsx:108-129 | children of a deleted task become roots of the rebuilt tree |
| Now.ActionableSpec | frontend/src/pages/now.tsx:53-63 | the list holds exactly the open tasks with nothing open below them; dated before undated, earliest first |
| Now.ActionablePassesGate | frontend/src/pages/now.tsx:98-121 | toggling an actionable task is accepted and earns a point |
| Now.BlockedNoChange | frontend/src/pages/now.tsx:101-104 | an open task with something open below it is refused without change |
| Now.ParentOf | frontend/src/pages/now.tsx:70 | the parent is a task in the list with the item's truthy parent id, and is absent exactly when no task has that id |
| Now.GroupBySpec | frontend/src/pages/now.tsx:66-75 | keys are distinct; each group holds, in order, exactly the items with its key; every item has a group |
| Now.Earliest | frontend/src/pages/now.tsx:78-85 | the earliest deadline is one of the items' deadlines and no later than any of them, and is absent exactly when no item has one |
| Now.GroupBeforeOrder | frontend/src/pages/now.tsx:87-95 | the group comparator is a strict order |
| Now.GroupsSpec | frontend/src/pages/now.tsx:66-96 | the sorted groups still partition the actionable list by key, ordered by earliest deadline with all-undated groups last, ties by title |
| Goals.ProgressOf | frontend/src/pages/goals.tsx:10-15 | 0 without milestones; otherwise the whole percentage nearest to done/total, halves rounded up |
| Goals.ProgressBounds | frontend/src/pages/goals.tsx:10-15 | progress is at most 100, 100 when all milestones are done, 0 when none is |
| Goals.NextActionable | frontend/src/pages/goals.tsx:18-23 | the result is an open milestone with every later one done; it is absent exactly when all are done |
| Goals.ToggleMilestoneRefusals | frontend/src/pages/goals.tsx:101-110 | an unknown goal or a click other than the next milestone due is refused without change, naming the milestone due |
| Goals.ToggleMilestoneOrder | frontend/src/pages/goals.tsx:104-110 | a toggle on an existing goal is accepted exactly when all milestones are done or the clicked id is that of the last open milestone (or that id is empty) |
| Goals.ToggleMilestoneApplied | frontend/src/pages/goals.tsx:112-133 | a toggle the gate lets through is applied: it flips exactly the milestones with the id and leaves every other milestone as it was, stamps with the clock reading on completion, closes a goal whose milestones are all done, never reopens one, and adds one point |
| Goals.UncheckEarnsPoint | frontend/src/pages/goals.tsx:101-133 | unchecking and re-checking the only milestone of a finished goal earns two points and leaves the goal completed |
| Goals.ToggleGoalSpec | frontend/src/pages/goals.tsx:58-71 | with distinct goal ids, an unknown id is reported as not found; a goal found is toggled exactly when it is closable, and then flips, earning two points when it closes; otherwise nothing changes |
| Goals.ToggleGoalTwice | frontend/src/pages/goals.tsx:58-71 | toggling a goal twice restores the goals and earns two points exactly when the goal is closable |
| Goals.ClosingUnique | frontend/src/pages/goals.tsx:60-67 | with distinct goal ids, at most the goal found earns the two points |
| Goals.AddGoalSpec | frontend/src/pages/goals.tsx:44-55 | blank title is a no-op; otherwise an open goal without milestones goes to the front, with the new id, the trimmed title and the given creation time |
| Goals.AddGoalFresh | frontend/src/pages/goals.tsx:44-55 | a fresh id keeps goal ids distinct |
| Goals.AddMilestoneNext | frontend/src/pages/goals.tsx:82-98 | an open, unstamped milestone with the new id and the trimmed input as title is appended and nothing else in the goal changes; it becomes the next one due; the goal can no longer be closed until it is done |
| Goals.AddMilestoneBlank | frontend/src/pages/goals.tsx:84-85 | blank input changes nothing |
| Goals.Renamed | frontend/src/pages/goals.tsx:149 | a blank edit keeps the old title; otherwise the title becomes the trimmed input, which is non-blank |
| Goals.SaveEditGoalSpec | frontend/src/pages/goals.tsx:144-155 | only the title of goals with the edited id changes; a non-blank input becomes their title, trimmed, and a blank one keeps it |
| Goals.SaveEditMsSpec | frontend/src/pages/goals.tsx:171-186 | only the title of milestones with the edited id inside goals with the edited id changes; a non-blank input becomes their title, trimmed, and a blank one keeps it |
| Goals.SortedGoalsSpec | frontend/src/pages/goals.tsx:34-41 | the result is a permutation with open goals first and newer first within each part |
| Logs.HistorySpec | frontend/src/pages/logs.tsx:28-36 | the history is a permutation of the completed, stamped tasks, latest stamp first |
| Logs.RevertSpec | frontend/src/pages/logs.tsx:39-45 | revert reopens and unstamps exactly the tasks with the id and changes nothing else, points included; they leave the history, and the other logged tasks stay |
| Logs.RevertIdempotent | frontend/src/pages/logs.tsx:39-42 | reverting twice equals reverting once |
| Logs.RevertVsToggle | frontend/src/pages/logs.tsx:39-45 | on a completed task revert gives the same tasks as the toggle, but keeps the point the toggle takes away |
| Network.ElementsSpec | frontend/src/pages/network.tsx:68-80 | one node per task in order, coloured by completion, then an edge p→c exactly when c is one of p's children, including children of a missing parent |
| Text.Trim | frontend/src/pages/index.tsx:62-66 | the trimmed string is empty exactly when the input is blank, and otherwise starts and ends with a non-space |
| Text.StrLtTransitive | frontend/src/pages/logs.tsx:32-34 | the string order used for `localeCompare` is transitive |
| Sorting.SortBySorted | frontend/src/pages/now.tsx:57-61 | the sort's output is ordered for any strict-order comparator |

## Left out

- Rendering, `alert`, celebration effects, clipboard copy, dialogs and input-field resets are not modelled. Neither are the load and save calls to the storage process, nor the store plumbing.
- Dates: deadlines and `createdAt` are integers. An unparseable date string, which makes `NaN` in the code and a comparator that is not an order, is not modelled. Comparing ISO stamps as strings orders them by time.
- Progress: `Math.round` is applied to the exact fraction. Floating-point rounding of `done / total * 100` at exact halves is not modelled.
- Traversal.HasOpenDescendant: requires an acyclic list with distinct ids. On a cycle of completed tasks the code's loop never ends, and a non-terminating loop has no total model.
- Tree.FlattenAndSortByDeadlineSpec: requires an acyclic list with distinct ids, for the same reason. A task on a cycle is never a root, so the page never renders it.
- Tasks.SaveTaskSpec: does not state that acyclicity is kept. The parent field is free text, so an edit can make a task its own parent or close a cycle. No model member proves that adding, editing or deleting keeps the list acyclic.
- Tasks.ToggleRefusals, Tasks.ToggleApplied, Goals.ToggleGoalSpec: assume distinct ids, because ids are random and the code relies on them not colliding. Lookups and updates model duplicates as written: `find` and `Map.get` pick the first and the last match, and `map` updates every match. The completion gate does not. `SomeOpenDescendant` walks up through the first task with each parent id, but the code's stack walk descends from every task with that id. So when ids repeat, `Tasks.Toggle` and `Now.IsActionable` can accept a task that the code refuses.
- Tree.BuildTaskTree: keys inherited from `Object.prototype` are not modelled. The code files tasks in a plain object, so a parent field naming such a key (`constructor`, `toString`, `__proto__`, ...) that is not a task id looks up an inherited value, and the `children.push` on it throws, so the page fails to render. The model makes such a task a root instead. A task id equal to such a key is not modelled either.
- Now.GroupsSpec: group titles are ordered by `StrLt`, which compares characters one by one. `localeCompare` uses locale collation instead, so ties between groups with the same earliest deadline can come out in a different order. For example, collation puts "apple" before "Banana", but character order puts "Banana" first. Characters are also Unicode scalar values, where JavaScript strings hold UTF-16 code units.
- Logs.HistorySpec: stamps are ordered by `StrLt`, not by locale collation. The two agree on the fixed-format ISO stamps that `toISOString` writes.
- The `children: []` field that `addtask` writes onto a stored task is not modelled. The tree is always rebuilt from parent ids.
- Points are an unbounded integer. JavaScript's number precision limit is not modelled.
