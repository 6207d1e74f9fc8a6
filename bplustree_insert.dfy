/** The steps `insert` and `insertIntoParent` take after a split, each as
    one lemma about the tree value: hanging the new node into the parent,
    splitting the parent, and finding the grandparent to continue with. */
module BPlusTreeInsert {
  import opened Common
  import opened BPlusTreeModel
  import opened BPlusTreeSplit
  import opened BPlusTreeParent
  import opened BPlusTreeQueries

  /** The position of `n` among its parent's children (0 for the root). */
  function Slot(t: TreeState, n: nat): nat
    requires Sized(t) && n < |t.nodes| && (n != t.root ==> Linked(t, n))
  {
    if n == t.root then 0 else IndexOf(t.nodes[t.meta[n].parent].children, n)
  }

  /** Splitting a full leaf leaves the tree pending on the two halves, with
      the same pairs. */
  lemma LeafSplitStep(t: TreeState, x: nat)
    requires Valid(t) && x < |t.nodes| && FullLeaf(t, x)
    ensures (x != t.root ==> Linked(t, x)) && Splittable(t, x)
    ensures var t' := SplitLeafState(t, x);
      var y := |t.nodes|;
      y < |t'.nodes| && t'.nodes[y].Leaf? && |t'.nodes[y].keys| > 0
      && Pending(t', x, y, t'.nodes[y].keys[0], Slot(t, x)) && Entries(t') == Entries(t)
      && t'.root == t.root && t'.meta[x] == t.meta[x].(hi := t'.meta[x].hi)
  {
    if x != t.root {
      assert Linked(t, x);
    }
    SplitLeafPending(t, x, Slot(t, x));
  }

  /** `insertIntoParent`'s insertion of the new node `y` and separator `s`
      into the parent of `x` keeps every pair, every leaf and every
      height, and leaves only the parent possibly one key over. */
  lemma SpliceStep(t: TreeState, x: nat, y: nat, s: int, j: nat)
    requires Pending(t, x, y, s, j) && x != t.root
    ensures var p := t.meta[x].parent;
      p < |t.nodes| && t.nodes[p].Internal? && |t.nodes[p].children| == |t.nodes[p].keys| + 1
      && var t' := Splice(t, p, s, y);
      Inv(t', Some(p)) && Entries(t') == Entries(t) && LeavesKept(t, t')
      && t'.root == t.root && t'.meta == t.meta
  {
    SpliceInv(t, x, y, s, j);
    var p := t.meta[x].parent;
    LeavesKeptInternal(t, Splice(t, p, s, y), p);
  }

  /** Splitting a parent that reached `order` keys leaves the tree pending
      on the two halves of the parent, with the same pairs and leaves, and
      the parent at its height below the same root. */
  lemma SplitStep(t: TreeState, p: nat)
    requires Inv(t, Some(p)) && p < |t.nodes| && t.nodes[p].Internal? && |t.nodes[p].keys| >= t.order
    ensures Overfull(t, p) && (p != t.root ==> Linked(t, p))
    ensures var t' := SplitInternalState(t, p);
      Pending(t', p, |t.nodes|, t.nodes[p].keys[t.order / 2], Slot(t, p))
      && Entries(t') == Entries(t) && LeavesKept(t, t')
      && t'.root == t.root && t'.meta[t'.root].height == t.meta[t.root].height
      && t'.meta[p].height == t.meta[p].height
  {
    if p != t.root {
      assert Linked(t, p);
    }
    SplitInternalMeta(t, p);
    SplitInternalPending(t, p, Slot(t, p));
    LeavesKeptInternal(t, SplitInternalState(t, p), p);
  }

  /** Below the root, `findParent(root, x)` answers the parent of `x`, one
      level up and not above the root: `insertIntoParent` can continue
      there. */
  lemma ClimbStep(t: TreeState, x: nat, y: nat, s: int, j: nat)
    requires Pending(t, x, y, s, j) && x != t.root
    ensures Skeleton(t) && FindParentIn(t, t.root, x) == Some(t.meta[x].parent)
    ensures var g := t.meta[x].parent;
      g < |t.nodes| && t.meta[g].height == t.meta[x].height + 1 && t.meta[g].height <= t.meta[t.root].height
  {
    FindParentPending(t, x, y, s, j);
    var g := t.meta[x].parent;
    assert ChildShape(t, g, IndexOf(t.nodes[g].children, x));
    if g != t.root {
      assert Linked(t, g);
    }
  }
}
