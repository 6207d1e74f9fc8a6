/** `findParent`: a depth-first search from a node for the internal node
    that lists a given child. The search is stated as a function on the
    tree value; the lemmas show it finds the recorded parent of every
    linked node below the root, even while a split node waits to be hung
    below its parent. */
module BPlusTreeParent {
  import opened Common
  import opened BPlusTreeModel
  import opened BPlusTreeSplit

  /** The part of the tree's shape the search relies on: children sit one
      level below their parent and record it. */
  predicate Skeleton(t: TreeState) {
    Sized(t)
    && (forall n :: 0 <= n < |t.nodes| ==> NodeShape(t, n))
    && (forall n, j :: 0 <= n < |t.nodes| && t.nodes[n].Internal? && 0 <= j < |t.nodes[n].children| ==>
          ChildShape(t, n, j))
  }

  /** `findParent(n, c)`: nothing below a leaf or below `c` itself;
      otherwise the children of `n` in order. */
  function FindParentIn(t: TreeState, n: nat, c: nat): Option<nat>
    requires Skeleton(t) && n < |t.nodes|
    decreases t.meta[n].height, 1, 0
  {
    if t.nodes[n].Leaf? || n == c then None else FindParentAmong(t, n, c, 0)
  }

  /** The `for` loop of `findParent` from the `i`-th child of `n` on: `n`
      itself if the child is `c`, else the first answer found below an
      internal child. */
  function FindParentAmong(t: TreeState, n: nat, c: nat, i: nat): Option<nat>
    requires Skeleton(t) && n < |t.nodes| && t.nodes[n].Internal? && i <= |t.nodes[n].children|
    decreases t.meta[n].height, 0, |t.nodes[n].children| - i
  {
    var cs := t.nodes[n].children;
    if i == |cs| then None
    else if cs[i] == c then Some(n)
    else
      assert ChildShape(t, n, i);
      var sub := if t.nodes[cs[i]].Internal? then FindParentIn(t, cs[i], c) else None;
      if sub.Some? then sub else FindParentAmong(t, n, c, i + 1)
  }

  /** Whatever the search answers lists `c` among its children and is the
      recorded parent of `c`. */
  lemma {:induction false} FindParentSound(t: TreeState, n: nat, c: nat)
    requires Skeleton(t) && n < |t.nodes|
    ensures var r := FindParentIn(t, n, c);
      r.Some? ==> r.value < |t.nodes| && t.nodes[r.value].Internal?
                  && c in t.nodes[r.value].children && c < |t.nodes| && r.value == t.meta[c].parent
    decreases t.meta[n].height, 1, 0
  {
    if t.nodes[n].Internal? && n != c {
      FindParentAmongSound(t, n, c, 0);
    }
  }

  lemma {:induction false} FindParentAmongSound(t: TreeState, n: nat, c: nat, i: nat)
    requires Skeleton(t) && n < |t.nodes| && t.nodes[n].Internal? && i <= |t.nodes[n].children|
    ensures var r := FindParentAmong(t, n, c, i);
      r.Some? ==> r.value < |t.nodes| && t.nodes[r.value].Internal?
                  && c in t.nodes[r.value].children && c < |t.nodes| && r.value == t.meta[c].parent
    decreases t.meta[n].height, 0, |t.nodes[n].children| - i
  {
    var cs := t.nodes[n].children;
    if i < |cs| {
      assert ChildShape(t, n, i);
      assert cs[i] < |t.nodes|;
      if cs[i] != c {
        if t.nodes[cs[i]].Internal? {
          FindParentSound(t, cs[i], c);
        }
        FindParentAmongSound(t, n, c, i + 1);
      }
    }
  }

  /** `n` is `m` or an ancestor of `m`, reached through links that the
      parents list. */
  predicate Beneath(t: TreeState, m: nat, n: nat)
    requires Skeleton(t) && m < |t.nodes| && n < |t.nodes|
    decreases t.meta[n].height - t.meta[m].height
  {
    m == n
    || (t.meta[m].height < t.meta[n].height && Linked(t, m)
        && var p := t.meta[m].parent;
           ParentAbove(t, m) && Beneath(t, p, n))
  }

  /** A linked node sits one level below its parent. */
  predicate ParentAbove(t: TreeState, m: nat)
    requires Skeleton(t) && m < |t.nodes| && Linked(t, m)
    ensures ParentAbove(t, m)
  {
    var p := t.meta[m].parent;
    assert ChildShape(t, p, IndexOf(t.nodes[p].children, m));
    t.meta[p].height == t.meta[m].height + 1
  }

  lemma {:induction false} BeneathHeight(t: TreeState, m: nat, n: nat)
    requires Skeleton(t) && m < |t.nodes| && n < |t.nodes| && Beneath(t, m, n)
    ensures t.meta[m].height <= t.meta[n].height
  {
  }

  /** The child of `n` on the way down to `m`. */
  function StepToward(t: TreeState, m: nat, n: nat): (r: nat)
    requires Skeleton(t) && m < |t.nodes| && n < |t.nodes| && Beneath(t, m, n) && m != n
    ensures r < |t.nodes| && Linked(t, r) && t.meta[r].parent == n && Beneath(t, m, r)
    decreases t.meta[n].height - t.meta[m].height
  {
    var p := t.meta[m].parent;
    if p == n then m
    else
      var r := StepToward(t, p, n);
      BeneathHeight(t, p, r);
      r
  }

  /** The search from `n` finds the parent of a linked node `c` whenever
      that parent lies below `n`. */
  lemma {:induction false} FindParentFinds(t: TreeState, n: nat, c: nat)
    requires Skeleton(t) && n < |t.nodes| && c < |t.nodes| && Linked(t, c)
    requires Beneath(t, t.meta[c].parent, n)
    ensures FindParentIn(t, n, c) == Some(t.meta[c].parent)
    decreases t.meta[n].height, 1, 0
  {
    var q := t.meta[c].parent;
    assert ParentAbove(t, c);
    BeneathHeight(t, q, n);
    if q == n {
      FindParentAmongFinds(t, n, c, 0, IndexOf(t.nodes[n].children, c));
    } else {
      var m := StepToward(t, q, n);
      BeneathHeight(t, q, m);
      assert NodeShape(t, m);
      FindParentAmongFinds(t, n, c, 0, IndexOf(t.nodes[n].children, m));
    }
  }

  /** The target of the search at the `k`-th child of `n`: the child
      itself, or an internal child above the parent of `c`. */
  predicate Target(t: TreeState, n: nat, c: nat, k: nat)
    requires Skeleton(t) && n < |t.nodes| && t.nodes[n].Internal? && c < |t.nodes| && Linked(t, c)
  {
    var cs := t.nodes[n].children;
    k < |cs| && cs[k] < |t.nodes|
    && (cs[k] == c || (t.nodes[cs[k]].Internal? && Beneath(t, t.meta[c].parent, cs[k])))
  }

  lemma {:induction false} FindParentAmongFinds(t: TreeState, n: nat, c: nat, i: nat, k: nat)
    requires Skeleton(t) && n < |t.nodes| && t.nodes[n].Internal? && c < |t.nodes| && Linked(t, c)
    requires i <= k && Target(t, n, c, k)
    ensures FindParentAmong(t, n, c, i) == Some(t.meta[c].parent)
    decreases t.meta[n].height, 0, |t.nodes[n].children| - i
  {
    var cs := t.nodes[n].children;
    assert ChildShape(t, n, i) && ChildShape(t, n, k);
    if cs[i] != c {
      if t.nodes[cs[i]].Internal? {
        FindParentSound(t, cs[i], c);
        if i == k {
          FindParentFinds(t, cs[i], c);
        }
      }
      if i < k {
        FindParentAmongFinds(t, n, c, i + 1, k);
      }
    }
  }

  /** Every node at or above the level of the orphan, other than the
      orphan, hangs below the root. */
  lemma {:induction false} ReachRoot(t: TreeState, o: Option<nat>, m: nat)
    requires Shape(t, o) && m < |t.nodes|
    requires o.Some? ==> o.value < |t.nodes| && t.meta[o.value].height < t.meta[m].height
    ensures Skeleton(t) && Beneath(t, m, t.root)
    decreases t.meta[t.root].height - t.meta[m].height
  {
    if m != t.root {
      assert Linked(t, m);
      assert ParentAbove(t, m);
      ReachRoot(t, o, t.meta[m].parent);
    }
  }

  /** Right after a split below the root, `findParent(root, x)` finds the
      parent that `x` records. */
  lemma FindParentPending(t: TreeState, x: nat, y: nat, s: int, j: nat)
    requires Pending(t, x, y, s, j) && x != t.root
    ensures Skeleton(t) && FindParentIn(t, t.root, x) == Some(t.meta[x].parent)
  {
    assert Linked(t, x);
    assert ParentAbove(t, x) by { assert Skeleton(t); }
    ReachRoot(t, Some(y), t.meta[x].parent);
    FindParentFinds(t, t.root, x);
  }
}
