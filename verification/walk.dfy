/**
 * Walks over a parent table: entry `i` of `links` is the position of the
 * parent of position `i`, or None for a root. The task forest is read
 * through such a table; the facts here do not depend on what the positions
 * hold.
 */
module Walk {
  import opened Wrappers

  /** Every parent position the table names is a position of the table. */
  ghost predicate ValidLinks(links: seq<Option<nat>>) {
    forall i | 0 <= i < |links| :: links[i].Some? ==> links[i].value < |links|
  }

  /** The position `n` steps above `i` (`i` itself for 0), or None once the walk has passed a root. */
  function Up(links: seq<Option<nat>>, i: nat, n: nat): Option<nat>
    decreases n
  {
    if n == 0 then Some(i)
    else if i < |links| && links[i].Some? then Up(links, links[i].value, n - 1)
    else None
  }

  /** Every walk passes a root within as many steps as there are positions: there is no cycle. */
  ghost predicate Terminating(links: seq<Option<nat>>) {
    forall i | 0 <= i < |links| :: Up(links, i, |links|).None?
  }

  /** Number of steps from `i` up to its root (counted up to `fuel`). */
  function Depth(links: seq<Option<nat>>, i: nat, fuel: nat): (d: nat)
    ensures d <= fuel
    decreases fuel
  {
    if fuel > 0 && i < |links| && links[i].Some? then 1 + Depth(links, links[i].value, fuel - 1)
    else 0
  }

  /** Walking `a + b` steps is walking `a`, then `b` from there. */
  lemma {:induction false} UpAdd(links: seq<Option<nat>>, i: nat, a: nat, b: nat)
    ensures Up(links, i, a + b) == match Up(links, i, a) case None => None case Some(u) => Up(links, u, b)
    decreases a
  {
    if a > 0 && i < |links| && links[i].Some? {
      UpAdd(links, links[i].value, a - 1, b);
    }
  }

  /** One more step from where the walk stands. */
  lemma UpNext(links: seq<Option<nat>>, i: nat, n: nat, u: nat)
    requires Up(links, i, n) == Some(u)
    ensures Up(links, i, n + 1) == if u < |links| && links[u].Some? then Some(links[u].value) else None
  {
    UpAdd(links, i, n, 1);
  }

  /** Once the walk has passed a root it stays out. */
  lemma UpNoneStays(links: seq<Option<nat>>, i: nat, a: nat, b: nat)
    requires a <= b && Up(links, i, a).None?
    ensures Up(links, i, b).None?
  {
    UpAdd(links, i, a, b - a);
  }

  /** Walking a valid table from one of its positions only meets its positions. */
  lemma {:induction false} UpIn(links: seq<Option<nat>>, i: nat, n: nat)
    requires ValidLinks(links) && i < |links|
    ensures Up(links, i, n).Some? ==> Up(links, i, n).value < |links|
    decreases n
  {
    if n > 0 && links[i].Some? {
      UpIn(links, links[i].value, n - 1);
    }
  }

  /** In a table without cycles a walk from a position ends within `|links|` steps. */
  lemma TerminatingBound(links: seq<Option<nat>>, i: nat, n: nat)
    requires Terminating(links) && i < |links|
    requires Up(links, i, n).Some?
    ensures n < |links|
  {
    if n >= |links| {
      UpNoneStays(links, i, |links|, n);
    }
  }

  lemma {:induction false} UpRepeat(links: seq<Option<nat>>, i: nat, p: nat, m: nat)
    requires Up(links, i, p) == Some(i)
    ensures Up(links, i, m * p) == Some(i)
    decreases m
  {
    if m > 0 {
      assert m * p == p + (m - 1) * p;
      UpAdd(links, i, p, (m - 1) * p);
      UpRepeat(links, i, p, m - 1);
    }
  }

  lemma {:induction false} LeMul(a: nat, p: nat)
    requires p > 0
    ensures a <= a * p
    decreases p
  {
    if p > 1 {
      LeMul(a, p - 1);
      assert a * p == a * (p - 1) + a;
    }
  }

  /** In a table without cycles no position is its own strict ancestor. */
  lemma NoReturn(links: seq<Option<nat>>, i: nat, p: nat)
    requires Terminating(links) && i < |links| && p > 0
    ensures Up(links, i, p) != Some(i)
  {
    if Up(links, i, p) == Some(i) {
      UpRepeat(links, i, p, |links|);
      LeMul(|links|, p);
      UpNoneStays(links, i, |links|, |links| * p);
    }
  }

  /** A walk without cycles visits a position at most once. */
  lemma VisitOnce(links: seq<Option<nat>>, i: nat, a: nat, b: nat)
    requires Terminating(links) && ValidLinks(links) && i < |links|
    requires Up(links, i, a).Some? && Up(links, i, a) == Up(links, i, b)
    ensures a == b
  {
    if a != b {
      var lo, hi := if a < b then a else b, if a < b then b else a;
      var u := Up(links, i, lo).value;
      UpIn(links, i, lo);
      UpAdd(links, i, lo, hi - lo);
      NoReturn(links, u, hi - lo);
    }
  }

  /** Once the walk has passed a root, more fuel does not change the depth. */
  lemma {:induction false} DepthStable(links: seq<Option<nat>>, i: nat, f: nat, g: nat)
    requires Up(links, i, f).None?
    requires f <= g
    ensures Depth(links, i, f) == Depth(links, i, g)
    decreases f
  {
    if f > 0 && i < |links| && links[i].Some? {
      DepthStable(links, links[i].value, f - 1, g - 1);
    }
  }
}
