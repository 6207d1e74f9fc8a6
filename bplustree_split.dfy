/** Splits in the B+ tree model: `LeafNode.split`, the split of an internal
    node inside `insertIntoParent`, the new root built when the root splits,
    and the insertion of a separator and a new child into a parent. Between
    a split and the hanging of the new node below its parent the tree is in
    a `Pending` state; the lemmas show that each split leads to one and
    that each way out of one restores the invariant. */
module BPlusTreeSplit {
  import opened Common
  import opened BPlusTreeModel

  /** All child intervals are right except possibly that of the `j`-th
      child of `p`. */
  predicate BoundedExcept(t: TreeState, p: nat, j: nat) {
    forall n, i ::
      0 <= n < |t.nodes| && t.nodes[n].Internal? && 0 <= i < |t.nodes[n].children| && (n != p || i != j) ==>
        ChildBounds(t, n, i)
  }

  /** `x` is the `j`-th child of its parent, and the intervals of `x` and
      `y` together make up the interval of that position. */
  predicate PendingAt(t: TreeState, x: nat, y: nat, j: nat)
    requires Sized(t) && x < |t.nodes| && y < |t.nodes|
  {
    var p := t.meta[x].parent;
    p < |t.nodes| && t.nodes[p].Internal? && j < |t.nodes[p].children| && j <= |t.nodes[p].keys|
    && t.nodes[p].children[j] == x
    && t.meta[x].lo == ChildLo(t.nodes[p], t.meta[p], j)
    && t.meta[y].hi == ChildHi(t.nodes[p], t.meta[p], j)
  }

  /** Node `x` has just been split into `x` and the orphan `y` at separator
      `s`: `x` answers for the keys below `s`, `y` for the rest of what `x`
      answered for before. */
  predicate Pending(t: TreeState, x: nat, y: nat, s: int, j: nat) {
    Shape(t, Some(y)) && x < |t.nodes| && y < |t.nodes| && x != y && y != t.root
    && t.meta[y].height == t.meta[x].height && t.meta[y].parent == t.meta[x].parent
    && t.meta[x].hi == Some(s) && t.meta[y].lo == Some(s)
    && Above(t.meta[x].lo, s) && Below(t.meta[y].hi, s)
    && Ordered(t, None) && Chained(t)
    && (x == t.root ==> t.meta[x].lo.None? && t.meta[y].hi.None? && Bounded(t))
    && (x != t.root ==> RootOpen(t) && PendingAt(t, x, y, j) && BoundedExcept(t, t.meta[x].parent, j))
  }

  /** A new root over `x` and `y`, as `insert` and `insertIntoParent` build
      when the root splits. */
  function Grow(t: TreeState, x: nat, y: nat, s: int): TreeState
    requires Sized(t) && x < |t.nodes| && y < |t.nodes|
  {
    var r := |t.nodes|;
    t.(root := r,
       nodes := t.nodes + [Internal([s], [x, y])],
       meta := t.meta[x := t.meta[x].(parent := r)][y := t.meta[y].(parent := r)]
               + [Meta(None, None, t.meta[x].height + 1, 0)])
  }

  /** `insertIntoParent`'s `keys.add(i, key)` and `children.add(i + 1, newNode)`. */
  function Splice(t: TreeState, p: nat, s: int, y: nat): TreeState
    requires p < |t.nodes| && t.nodes[p].Internal?
    requires |t.nodes[p].children| == |t.nodes[p].keys| + 1
  {
    var ks, cs := t.nodes[p].keys, t.nodes[p].children;
    var i := InsertPos(ks, s);
    t.(nodes := t.nodes[p := Internal(ks[..i] + [s] + ks[i..], cs[..i + 1] + [y] + cs[i + 1..])])
  }

  // ---------------------------------------------------------------------
  // Leaving a pending state through a new root
  // ---------------------------------------------------------------------

  /** The new root's skeleton: every node keeps its shape, and `x` and `y`
      hang below the new root. */
  lemma GrowShape(t: TreeState, x: nat, y: nat, s: int, j: nat)
    requires Pending(t, x, y, s, j) && x == t.root
    ensures Shape(Grow(t, x, y, s), None)
  {
    var t' := Grow(t, x, y, s);
    var r := |t.nodes|;
    forall n | 0 <= n < |t'.nodes| ensures NodeShape(t', n) {
      if n < r {
        assert NodeShape(t, n);
      }
    }
    forall n, i | 0 <= n < |t'.nodes| && t'.nodes[n].Internal? && 0 <= i < |t'.nodes[n].children|
      ensures ChildShape(t', n, i)
    {
      if n < r {
        assert ChildShape(t, n, i);
        assert t.nodes[n].children[i] != y;
      }
    }
    forall n | 0 <= n < |t'.nodes| && n != t'.root
      ensures t'.meta[n].height < t'.meta[t'.root].height && Linked(t', n)
    {
      if n != x && n != y {
        assert Linked(t, n);
      }
    }
  }

  /** Under the new root every node keeps its keys in order and every
      child its interval. */
  lemma GrowOrder(t: TreeState, x: nat, y: nat, s: int, j: nat)
    requires Pending(t, x, y, s, j) && x == t.root
    ensures Sized(Grow(t, x, y, s))
    ensures Ordered(Grow(t, x, y, s), None) && Bounded(Grow(t, x, y, s))
  {
    var t' := Grow(t, x, y, s);
    var r := |t.nodes|;
    forall n | 0 <= n < |t'.nodes| ensures NodeOrder(t', n, None) {
      if n < r {
        assert NodeOrder(t, n, None);
      }
    }
    forall n, i | 0 <= n < |t'.nodes| && t'.nodes[n].Internal? && 0 <= i < |t'.nodes[n].children|
      ensures ChildBounds(t', n, i)
    {
      if n < r {
        assert ChildBounds(t, n, i);
      }
    }
  }

  /** A new root leaves the chain of leaves and the pairs as they were. */
  lemma GrowChain(t: TreeState, x: nat, y: nat, s: int, j: nat)
    requires Pending(t, x, y, s, j) && x == t.root
    ensures Sized(Grow(t, x, y, s)) && Chained(Grow(t, x, y, s))
    ensures Entries(Grow(t, x, y, s)) == Entries(t)
  {
    var t' := Grow(t, x, y, s);
    forall i | 0 <= i < |t'.chain| ensures LinkAt(t', i) {
      assert LinkAt(t, i);
    }
    forall n | 0 <= n < |t'.nodes| && t'.nodes[n].Leaf? ensures n in t'.chain {
    }
    forall i, k | 0 <= i < k < |t'.chain| ensures Separated(t', i, k) {
      assert Separated(t, i, k);
    }
    ChainEntriesFrame(t.nodes, t'.nodes, t.chain);
  }

  /** When the split node was the root, a new root over both halves gives a
      valid tree. */
  lemma GrowValid(t: TreeState, x: nat, y: nat, s: int, j: nat)
    requires Pending(t, x, y, s, j) && x == t.root
    ensures Valid(Grow(t, x, y, s)) && Entries(Grow(t, x, y, s)) == Entries(t)
    ensures Grow(t, x, y, s).meta[Grow(t, x, y, s).root].height == t.meta[t.root].height + 1
  {
    GrowShape(t, x, y, s, j);
    GrowOrder(t, x, y, s, j);
    GrowChain(t, x, y, s, j);
  }

  // ---------------------------------------------------------------------
  // Leaving a pending state through the parent
  // ---------------------------------------------------------------------

  /** The separator goes in exactly at `x`'s position in its parent. */
  lemma SplicePos(t: TreeState, x: nat, y: nat, s: int, j: nat)
    requires Pending(t, x, y, s, j) && x != t.root
    ensures var p := t.meta[x].parent;
      p < |t.nodes| && t.nodes[p].Internal?
      && |t.nodes[p].children| == |t.nodes[p].keys| + 1
      && InsertPos(t.nodes[p].keys, s) == j
      && StrictlySorted(t.nodes[p].keys[..j] + [s] + t.nodes[p].keys[j..])
      && Above(t.meta[p].lo, s) && Below(t.meta[p].hi, s)
  {
    var p := t.meta[x].parent;
    assert NodeShape(t, p) && NodeOrder(t, p, None);
    var ks := t.nodes[p].keys;
    forall i | 0 <= i < j ensures ks[i] < s {
      assert ks[i] <= ks[j - 1];
    }
    InsertPosIs(ks, s, j);
    InsertSorted(ks, j, s);
  }

  /** What the splice into parent `p` at position `j` relies on, without
      the quantified invariant around it. */
  predicate SpliceFacts(t: TreeState, p: nat, s: int, y: nat, j: nat) {
    Sized(t) && p < |t.nodes| && t.nodes[p].Internal?
    && |t.nodes[p].children| == |t.nodes[p].keys| + 1 && j <= |t.nodes[p].keys|
    && InsertPos(t.nodes[p].keys, s) == j
    && y < |t.nodes| && y != t.root && y !in t.nodes[p].children
    && var x := t.nodes[p].children[j];
    x < |t.nodes| && ChildShape(t, p, j)
    && t.meta[y].height == t.meta[x].height && t.meta[y].parent == p
    && t.meta[x].hi == Some(s) && t.meta[y].lo == Some(s)
    && t.meta[x].lo == ChildLo(t.nodes[p], t.meta[p], j)
    && t.meta[y].hi == ChildHi(t.nodes[p], t.meta[p], j)
  }

  lemma SpliceFactsHold(t: TreeState, x: nat, y: nat, s: int, j: nat)
    requires Pending(t, x, y, s, j) && x != t.root
    ensures SpliceFacts(t, t.meta[x].parent, s, y, j)
  {
    var p := t.meta[x].parent;
    SplicePos(t, x, y, s, j);
    assert ChildShape(t, p, j);
  }

  /** The `i`-th child of the parent after the splice sits where it should. */
  lemma SpliceChildAt(t: TreeState, p: nat, s: int, y: nat, j: nat, i: nat)
    requires SpliceFacts(t, p, s, y, j)
    requires i < |t.nodes[p].children| + 1
    requires i < j ==> ChildShape(t, p, i) && ChildBounds(t, p, i)
    requires i > j + 1 ==> ChildShape(t, p, i - 1) && ChildBounds(t, p, i - 1)
    ensures var t' := Splice(t, p, s, y);
      Sized(t') && t'.nodes[p].Internal? && i < |t'.nodes[p].children|
      && ChildShape(t', p, i) && ChildBounds(t', p, i)
  {
    var ks, cs := t.nodes[p].keys, t.nodes[p].children;
    var t' := Splice(t, p, s, y);
    var ks', cs' := t'.nodes[p].keys, t'.nodes[p].children;
    assert ks' == ks[..j] + [s] + ks[j..];
    assert cs' == cs[..j + 1] + [y] + cs[j + 1..];
    if i < j {
      assert cs'[i] == cs[i];
      assert ks'[i] == ks[i];
      if i > 0 { assert ks'[i - 1] == ks[i - 1]; }
    } else if i == j {
      assert cs'[i] == cs[j];
      if i > 0 { assert ks'[i - 1] == ks[i - 1]; }
    } else if i == j + 1 {
      assert cs'[i] == y;
      if i < |ks'| { assert ks'[i] == ks[j]; }
    } else {
      assert cs'[i] == cs[i - 1];
      assert ks'[i - 1] == ks[i - 2];
      if i < |ks'| { assert ks'[i] == ks[i - 1]; }
    }
  }

  lemma SpliceDistinct(cs: seq<nat>, j: nat, y: nat)
    requires Distinct(cs) && j < |cs| && y !in cs
    ensures Distinct(cs[..j + 1] + [y] + cs[j + 1..])
  {
    var cs' := cs[..j + 1] + [y] + cs[j + 1..];
    forall a, b | 0 <= a < b < |cs'| ensures cs'[a] != cs'[b] {
      if b <= j {
      } else if b == j + 1 {
        assert cs[a] in cs;
      } else if a <= j {
        assert cs'[b] == cs[b - 1];
      } else if a == j + 1 {
        assert cs'[b] == cs[b - 1];
        assert cs[b - 1] in cs;
      } else {
        assert cs'[a] == cs[a - 1] && cs'[b] == cs[b - 1];
      }
    }
  }

  lemma SpliceNodes(t: TreeState, x: nat, y: nat, s: int, j: nat)
    requires Pending(t, x, y, s, j) && x != t.root
    ensures var p := t.meta[x].parent;
      p < |t.nodes| && t.nodes[p].Internal? && |t.nodes[p].children| == |t.nodes[p].keys| + 1
      && var t' := Splice(t, p, s, y);
      Sized(t') && forall n :: 0 <= n < |t'.nodes| ==> NodeShape(t', n) && NodeOrder(t', n, Some(p))
  {
    var p := t.meta[x].parent;
    SplicePos(t, x, y, s, j);
    SpliceFactsHold(t, x, y, s, j);
    var t' := Splice(t, p, s, y);
    var cs := t.nodes[p].children;
    assert t'.nodes[p].children == cs[..j + 1] + [y] + cs[j + 1..];
    assert NodeShape(t, p) && NodeOrder(t, p, None);
    SpliceDistinct(cs, j, y);
    forall n | 0 <= n < |t'.nodes| ensures NodeShape(t', n) && NodeOrder(t', n, Some(p)) {
      if n != p {
        assert NodeShape(t, n) && NodeOrder(t, n, None);
      }
    }
  }

  lemma SpliceAllChildren(t: TreeState, x: nat, y: nat, s: int, j: nat)
    requires Pending(t, x, y, s, j) && x != t.root
    ensures var p := t.meta[x].parent;
      p < |t.nodes| && t.nodes[p].Internal? && |t.nodes[p].children| == |t.nodes[p].keys| + 1
      && var t' := Splice(t, p, s, y);
      Sized(t')
      && forall n, i :: 0 <= n < |t'.nodes| && t'.nodes[n].Internal? && 0 <= i < |t'.nodes[n].children| ==>
           ChildShape(t', n, i) && ChildBounds(t', n, i)
  {
    var p := t.meta[x].parent;
    SpliceFactsHold(t, x, y, s, j);
    var t' := Splice(t, p, s, y);
    forall n, i | 0 <= n < |t'.nodes| && t'.nodes[n].Internal? && 0 <= i < |t'.nodes[n].children|
      ensures ChildShape(t', n, i) && ChildBounds(t', n, i)
    {
      if n != p {
        assert ChildShape(t, n, i) && ChildBounds(t, n, i);
      } else {
        if i < j {
          assert ChildShape(t, p, i) && ChildBounds(t, p, i);
        } else if i > j + 1 {
          assert ChildShape(t, p, i - 1) && ChildBounds(t, p, i - 1);
        }
        SpliceChildAt(t, p, s, y, j, i);
      }
    }
  }

  lemma SpliceLinked(t: TreeState, x: nat, y: nat, s: int, j: nat)
    requires Pending(t, x, y, s, j) && x != t.root
    ensures var p := t.meta[x].parent;
      p < |t.nodes| && t.nodes[p].Internal? && |t.nodes[p].children| == |t.nodes[p].keys| + 1
      && var t' := Splice(t, p, s, y);
      Sized(t')
      && forall n :: 0 <= n < |t'.nodes| && n != t'.root ==>
           t'.meta[n].height < t'.meta[t'.root].height && Linked(t', n)
  {
    var p := t.meta[x].parent;
    SpliceFactsHold(t, x, y, s, j);
    var t' := Splice(t, p, s, y);
    var cs := t.nodes[p].children;
    assert t'.nodes[p].children == cs[..j + 1] + [y] + cs[j + 1..];
    forall n | 0 <= n < |t'.nodes| && n != t'.root
      ensures t'.meta[n].height < t'.meta[t'.root].height && Linked(t', n)
    {
      if n == y {
        assert t'.nodes[p].children[j + 1] == y;
      } else {
        assert Linked(t, n);
        if t.meta[n].parent == p {
          var i :| 0 <= i < |cs| && cs[i] == n;
          if i <= j {
            assert t'.nodes[p].children[i] == n;
          } else {
            assert t'.nodes[p].children[i + 1] == n;
          }
        }
      }
    }
  }

  lemma SpliceChained(t: TreeState, x: nat, y: nat, s: int, j: nat)
    requires Pending(t, x, y, s, j) && x != t.root
    ensures var p := t.meta[x].parent;
      p < |t.nodes| && t.nodes[p].Internal? && |t.nodes[p].children| == |t.nodes[p].keys| + 1
      && var t' := Splice(t, p, s, y);
      Sized(t') && Chained(t') && Entries(t') == Entries(t)
  {
    var p := t.meta[x].parent;
    SpliceFactsHold(t, x, y, s, j);
    var t' := Splice(t, p, s, y);
    forall i | 0 <= i < |t'.chain| ensures LinkAt(t', i) {
      assert LinkAt(t, i);
    }
    forall n | 0 <= n < |t'.nodes| && t'.nodes[n].Leaf? ensures n in t'.chain {
      assert t.nodes[n].Leaf?;
    }
    forall i, k | 0 <= i < k < |t'.chain| ensures Separated(t', i, k) {
      assert Separated(t, i, k);
    }
    forall i | 0 <= i < |t.chain| ensures t.chain[i] < |t.nodes| && t.chain[i] < |t'.nodes| && t.nodes[t.chain[i]] == t'.nodes[t.chain[i]] {
      assert LinkAt(t, i);
    }
    ChainEntriesFrame(t.nodes, t'.nodes, t.chain);
  }

  /** When the split node has a parent, hanging the new node below it at
      the separator restores the invariant, except that the parent may now
      hold `order` keys; the stored pairs do not change. */
  lemma SpliceInv(t: TreeState, x: nat, y: nat, s: int, j: nat)
    requires Pending(t, x, y, s, j) && x != t.root
    ensures var p := t.meta[x].parent;
      p < |t.nodes| && t.nodes[p].Internal? && |t.nodes[p].children| == |t.nodes[p].keys| + 1
      && Inv(Splice(t, p, s, y), Some(p)) && Entries(Splice(t, p, s, y)) == Entries(t)
  {
    SpliceNodes(t, x, y, s, j);
    SpliceAllChildren(t, x, y, s, j);
    SpliceLinked(t, x, y, s, j);
    SpliceChained(t, x, y, s, j);
  }

  // ---------------------------------------------------------------------
  // Splitting a leaf
  // ---------------------------------------------------------------------

  /** `x` is the `j`-th child of its recorded parent. */
  predicate ChildAt(t: TreeState, x: nat, j: nat)
    requires Sized(t) && x < |t.nodes|
  {
    var p := t.meta[x].parent;
    p < |t.nodes| && t.nodes[p].Internal? && j < |t.nodes[p].children| && t.nodes[p].children[j] == x
  }

  /** `LeafNode.split`: the upper half of the pairs, from `(order - 1) / 2`
      on, moves to a new leaf linked in right after `x`. */
  function SplitLeafState(t: TreeState, x: nat): TreeState
    requires Splittable(t, x)
  {
    var ks, vs := t.nodes[x].keys, t.nodes[x].values;
    var mid := (t.order - 1) / 2;
    var y := |t.nodes|;
    var q := IndexOf(t.chain, x);
    t.(nodes := t.nodes[x := Leaf(ks[..mid], vs[..mid], Some(y))]
                + [Leaf(ks[mid..], vs[mid..], t.nodes[x].next)],
       meta := t.meta[x := t.meta[x].(hi := Some(ks[mid]))]
               + [Meta(Some(ks[mid]), t.meta[x].hi, 0, t.meta[x].parent)],
       chain := t.chain[..q + 1] + [y] + t.chain[q + 1..])
  }

  /** A full leaf: `LeafNode.insert` refuses a new key. */
  predicate FullLeaf(t: TreeState, x: nat)
    requires Sized(t) && x < |t.nodes|
  {
    t.nodes[x].Leaf? && |t.nodes[x].keys| >= t.order - 1
  }

  /** What `LeafNode.split` needs: a leaf of the chain with more pairs than
      it keeps. */
  predicate Splittable(t: TreeState, x: nat) {
    Sized(t) && x < |t.nodes| && t.nodes[x].Leaf? && x in t.chain
    && 0 < (t.order - 1) / 2 < |t.nodes[x].keys| == |t.nodes[x].values|
  }

  lemma FullLeafFacts(t: TreeState, x: nat)
    requires Valid(t) && x < |t.nodes| && FullLeaf(t, x)
    ensures Splittable(t, x) && |t.nodes[x].keys| == t.order - 1
  {
    assert NodeOrder(t, x, None);
  }

  lemma SplitLeafShape(t: TreeState, x: nat)
    requires Valid(t) && x < |t.nodes| && FullLeaf(t, x)
    ensures Splittable(t, x) && Shape(SplitLeafState(t, x), Some(|t.nodes|))
  {
    FullLeafFacts(t, x);
    var t' := SplitLeafState(t, x);
    var y := |t.nodes|;
    forall n | 0 <= n < |t'.nodes| ensures NodeShape(t', n) {
      if n < y && n != x {
        assert NodeShape(t, n);
      } else {
        assert NodeShape(t, x);
      }
    }
    forall n, i | 0 <= n < |t'.nodes| && t'.nodes[n].Internal? && 0 <= i < |t'.nodes[n].children|
      ensures ChildShape(t', n, i) && t'.nodes[n].children[i] != y
    {
      assert ChildShape(t, n, i);
    }
    forall n | 0 <= n < |t'.nodes| && n != t'.root && n != y
      ensures t'.meta[n].height < t'.meta[t'.root].height && Linked(t', n)
    {
      assert Linked(t, n);
      assert NodeShape(t, t.meta[n].parent);
    }
  }

  lemma SplitLeafOrdered(t: TreeState, x: nat)
    requires Valid(t) && x < |t.nodes| && FullLeaf(t, x)
    ensures Splittable(t, x) && Sized(SplitLeafState(t, x)) && Ordered(SplitLeafState(t, x), None)
  {
    FullLeafFacts(t, x);
    var t' := SplitLeafState(t, x);
    var y := |t.nodes|;
    var ks := t.nodes[x].keys;
    var mid := (t.order - 1) / 2;
    assert NodeOrder(t, x, None);
    forall n | 0 <= n < |t'.nodes| ensures NodeOrder(t', n, None) {
      if n == x {
        forall i | 0 <= i < mid ensures Within(t'.meta[x], ks[i]) {
          assert Within(t.meta[x], ks[i]);
        }
      } else if n == y {
        forall i | 0 <= i < |ks| - mid ensures Within(t'.meta[y], ks[mid..][i]) {
          assert Within(t.meta[x], ks[mid + i]);
        }
      } else {
        assert NodeOrder(t, n, None);
      }
    }
  }

  /** Where the leaves of the chain move when `y` is linked in after
      position `q`. */
  lemma InsertInChain(ch: seq<nat>, q: nat, y: nat)
    requires q < |ch|
    ensures var ch' := ch[..q + 1] + [y] + ch[q + 1..];
      |ch'| == |ch| + 1 && ch'[q + 1] == y
      && (forall i :: 0 <= i <= q ==> ch'[i] == ch[i])
      && (forall i :: q + 1 < i < |ch'| ==> ch'[i] == ch[i - 1])
  {
  }

  lemma SplitLeafLinks(t: TreeState, x: nat)
    requires Valid(t) && x < |t.nodes| && FullLeaf(t, x)
    ensures Splittable(t, x) && Sized(SplitLeafState(t, x))
    ensures var t' := SplitLeafState(t, x);
      |t'.chain| >= 1 && t'.chain[0] == t'.firstLeaf
      && (forall i :: 0 <= i < |t'.chain| ==> t'.chain[i] < |t'.nodes|)
      && (forall i :: 0 <= i < |t'.chain| ==> LinkAt(t', i))
  {
    FullLeafFacts(t, x);
    var t' := SplitLeafState(t, x);
    forall i | 0 <= i < |t'.chain| ensures t'.chain[i] < |t'.nodes| && LinkAt(t', i) {
      SplitLeafLinkAt(t, x, i);
    }
  }

  /** The `i`-th leaf of the chain after the split links to the next. */
  lemma SplitLeafLinkAt(t: TreeState, x: nat, i: nat)
    requires Splittable(t, x) && Chained(t) && i < |t.chain| + 1
    ensures Sized(SplitLeafState(t, x)) && i < |SplitLeafState(t, x).chain|
    ensures SplitLeafState(t, x).chain[i] < |SplitLeafState(t, x).nodes| && LinkAt(SplitLeafState(t, x), i)
  {
    var q := IndexOf(t.chain, x);
    InsertInChain(t.chain, q, |t.nodes|);
    assert LinkAt(t, q);
    if i < q {
      assert LinkAt(t, i);
    } else if i > q + 1 {
      assert LinkAt(t, i - 1);
    }
  }

  lemma SplitLeafMembers(t: TreeState, x: nat)
    requires Valid(t) && x < |t.nodes| && FullLeaf(t, x)
    ensures Splittable(t, x) && Sized(SplitLeafState(t, x))
    ensures var t' := SplitLeafState(t, x);
      Distinct(t'.chain) && forall n :: 0 <= n < |t'.nodes| && t'.nodes[n].Leaf? ==> n in t'.chain
  {
    FullLeafFacts(t, x);
    var t' := SplitLeafState(t, x);
    var y := |t.nodes|;
    var q := IndexOf(t.chain, x);
    var ch, ch' := t.chain, t'.chain;
    InsertInChain(ch, q, y);
    assert Distinct(ch);
    forall i | 0 <= i < |ch| ensures ch[i] < y { assert LinkAt(t, i); }
    forall a, b | 0 <= a < b < |ch'| ensures ch'[a] != ch'[b] {
      if b <= q || a > q + 1 || (a <= q && b > q + 1) {
      }
    }
    forall n | 0 <= n < |t'.nodes| && t'.nodes[n].Leaf? ensures n in ch' {
      if n != y {
        assert n in ch;
        var i :| 0 <= i < |ch| && ch[i] == n;
        if i <= q { assert ch'[i] == n; } else { assert ch'[i + 1] == n; }
      }
    }
  }

  /** The position in the chain before the split of the leaf at position
      `a` after it (the new leaf takes the place of the one it split from). */
  function OldPos(q: nat, a: nat): nat {
    if a <= q then a else a - 1
  }

  /** The interval of the `a`-th leaf after the split: that of the leaf it
      was before, except that the split leaf now ends at the middle key and
      the new leaf begins there. */
  lemma SplitLeafInterval(t: TreeState, x: nat, a: nat)
    requires Splittable(t, x) && Chained(t) && a < |t.chain| + 1
    ensures var t' := SplitLeafState(t, x);
      var q := IndexOf(t.chain, x);
      var mid := (t.order - 1) / 2;
      Sized(t') && a < |t'.chain| && t'.chain[a] < |t'.meta| && OldPos(q, a) < |t.chain|
      && t'.meta[t'.chain[a]].hi
         == (if a == q then Some(t.nodes[x].keys[mid]) else t.meta[t.chain[OldPos(q, a)]].hi)
      && t'.meta[t'.chain[a]].lo
         == (if a == q + 1 then Some(t.nodes[x].keys[mid]) else t.meta[t.chain[OldPos(q, a)]].lo)
  {
    var q := IndexOf(t.chain, x);
    InsertInChain(t.chain, q, |t.nodes|);
    assert Distinct(t.chain);
    if a != q && a != q + 1 {
      assert LinkAt(t, OldPos(q, a));
    }
  }

  /** The leaves `a` and `b` of the chain after the split are separated. */
  lemma SplitLeafSeparatedAt(t: TreeState, x: nat, a: nat, b: nat)
    requires Splittable(t, x) && NodeOrder(t, x, None) && Chained(t)
    requires a < b < |t.chain| + 1
    ensures Sized(SplitLeafState(t, x)) && Separated(SplitLeafState(t, x), a, b)
  {
    var ks := t.nodes[x].keys;
    var mid := (t.order - 1) / 2;
    var q := IndexOf(t.chain, x);
    SplitLeafInterval(t, x, a);
    SplitLeafInterval(t, x, b);
    assert Within(t.meta[x], ks[mid]);
    if a == q && b == q + 1 {
    } else if a == q {
      assert Separated(t, q, b - 1);
    } else if b == q + 1 {
      assert Separated(t, a, q);
    } else {
      assert Separated(t, OldPos(q, a), OldPos(q, b));
    }
  }

  lemma SplitLeafSeparated(t: TreeState, x: nat)
    requires Valid(t) && x < |t.nodes| && FullLeaf(t, x)
    ensures Splittable(t, x) && Sized(SplitLeafState(t, x))
    ensures var t' := SplitLeafState(t, x);
      forall a, b :: 0 <= a < b < |t'.chain| ==> Separated(t', a, b)
  {
    FullLeafFacts(t, x);
    assert NodeOrder(t, x, None);
    var t' := SplitLeafState(t, x);
    forall a, b | 0 <= a < b < |t'.chain| ensures Separated(t', a, b) {
      SplitLeafSeparatedAt(t, x, a, b);
    }
  }

  lemma SplitLeafChained(t: TreeState, x: nat)
    requires Valid(t) && x < |t.nodes| && FullLeaf(t, x)
    ensures Splittable(t, x) && Sized(SplitLeafState(t, x)) && Chained(SplitLeafState(t, x))
  {
    SplitLeafLinks(t, x);
    SplitLeafMembers(t, x);
    SplitLeafSeparated(t, x);
  }

  lemma ZipSplit(ks: seq<int>, vs: seq<int>, mid: nat)
    requires |ks| == |vs| && mid <= |ks|
    ensures Zip(ks[..mid], vs[..mid]) + Zip(ks[mid..], vs[mid..]) == Zip(ks, vs)
  {
  }

  lemma SplitLeafFrame(t: TreeState, x: nat)
    requires Splittable(t, x) && Distinct(t.chain)
    requires forall i :: 0 <= i < |t.chain| ==> t.chain[i] < |t.nodes|
    ensures var q := IndexOf(t.chain, x);
      var ns, ns' := t.nodes, SplitLeafState(t, x).nodes;
      ChainEntries(ns, t.chain[..q]) == ChainEntries(ns', t.chain[..q])
      && ChainEntries(ns, t.chain[q + 1..]) == ChainEntries(ns', t.chain[q + 1..])
  {
    var ns, ns' := t.nodes, SplitLeafState(t, x).nodes;
    var q := IndexOf(t.chain, x);
    var ch := t.chain;
    var pre, suf := ch[..q], ch[q + 1..];
    forall i | 0 <= i < |pre| ensures pre[i] < |ns| && pre[i] < |ns'| && ns[pre[i]] == ns'[pre[i]] {
      assert pre[i] == ch[i] && ch[i] != ch[q];
    }
    forall i | 0 <= i < |suf| ensures suf[i] < |ns| && suf[i] < |ns'| && ns[suf[i]] == ns'[suf[i]] {
      assert suf[i] == ch[q + 1 + i] && ch[q + 1 + i] != ch[q];
    }
    ChainEntriesFrame(ns, ns', pre);
    ChainEntriesFrame(ns, ns', suf);
  }

  lemma SplitLeafMiddle(t: TreeState, x: nat)
    requires Splittable(t, x)
    ensures ChainEntries(SplitLeafState(t, x).nodes, [x, |t.nodes|]) == ChainEntries(t.nodes, [x])
  {
    var ns, ns' := t.nodes, SplitLeafState(t, x).nodes;
    var y := |ns|;
    var ks, vs := ns[x].keys, ns[x].values;
    var mid := (t.order - 1) / 2;
    assert ns'[x] == Leaf(ks[..mid], vs[..mid], Some(y));
    assert ns'[y] == Leaf(ks[mid..], vs[mid..], ns[x].next);
    TwoLeaves(ns', x, y, ks, vs, mid);
    ChainEntriesOne(ns, x);
  }

  /** Two leaves holding the lower and the upper part of `ks` and `vs`
      together hold all of their pairs. */
  lemma TwoLeaves(ns: seq<Node>, x: nat, y: nat, ks: seq<int>, vs: seq<int>, mid: nat)
    requires |ks| == |vs| && mid <= |ks| && x < |ns| && y < |ns|
    requires ns[x].Leaf? && ns[x].keys == ks[..mid] && ns[x].values == vs[..mid]
    requires ns[y].Leaf? && ns[y].keys == ks[mid..] && ns[y].values == vs[mid..]
    ensures ChainEntries(ns, [x, y]) == Zip(ks, vs)
  {
    ZipSplit(ks, vs, mid);
    assert [x, y] == [x] + [y];
    ChainEntriesAppend(ns, [x], [y]);
    ChainEntriesOne(ns, x);
    ChainEntriesOne(ns, y);
  }

  lemma SplitLeafEntries(t: TreeState, x: nat)
    requires Splittable(t, x) && Distinct(t.chain)
    requires forall i :: 0 <= i < |t.chain| ==> t.chain[i] < |t.nodes|
    ensures Entries(SplitLeafState(t, x)) == Entries(t)
  {
    var q := IndexOf(t.chain, x);
    var ch := t.chain;
    assert ch == ch[..q] + [x] + ch[q + 1..];
    assert SplitLeafState(t, x).chain == ch[..q] + [x, |t.nodes|] + ch[q + 1..];
    SplitLeafFrame(t, x);
    SplitLeafMiddle(t, x);
    ChainEntriesReplace(t.nodes, SplitLeafState(t, x).nodes, ch[..q], [x], [x, |t.nodes|], ch[q + 1..]);
  }

  lemma SplitLeafBounds(t: TreeState, x: nat, j: nat)
    requires Valid(t) && x < |t.nodes| && FullLeaf(t, x)
    requires x != t.root ==> ChildAt(t, x, j)
    ensures Splittable(t, x)
    ensures var t' := SplitLeafState(t, x);
      var y := |t.nodes|;
      Sized(t') && x < |t'.nodes| && y < |t'.nodes|
      && (x == t.root ==> t'.meta[x].lo.None? && t'.meta[y].hi.None? && Bounded(t'))
      && (x != t.root ==> RootOpen(t') && PendingAt(t', x, y, j) && BoundedExcept(t', t.meta[x].parent, j))
  {
    FullLeafFacts(t, x);
    var t' := SplitLeafState(t, x);
    var y := |t.nodes|;
    if x == t.root {
      assert NodeShape(t, x);
      forall n | 0 <= n < |t.nodes| ensures t.nodes[n].Leaf? {
        assert NodeShape(t, n);
      }
    } else {
      var p := t.meta[x].parent;
      assert NodeShape(t, p) && ChildBounds(t, p, j);
      forall n, i | 0 <= n < |t'.nodes| && t'.nodes[n].Internal? && 0 <= i < |t'.nodes[n].children| && (n != p || i != j)
        ensures ChildBounds(t', n, i)
      {
        assert ChildShape(t, n, i) && ChildBounds(t, n, i) && NodeShape(t, n);
      }
    }
  }

  /** `LeafNode.split` of a full leaf leaves the tree pending at the new
      leaf's first key, with the same pairs as before. */
  lemma SplitLeafPending(t: TreeState, x: nat, j: nat)
    requires Valid(t) && x < |t.nodes| && FullLeaf(t, x)
    requires x != t.root ==> ChildAt(t, x, j)
    ensures Splittable(t, x)
    ensures var t' := SplitLeafState(t, x);
      var y := |t.nodes|;
      y < |t'.nodes| && t'.nodes[y].Leaf? && |t'.nodes[y].keys| > 0
      && Pending(t', x, y, t'.nodes[y].keys[0], j)
      && Entries(t') == Entries(t)
  {
    FullLeafFacts(t, x);
    var t' := SplitLeafState(t, x);
    var y := |t.nodes|;
    var ks := t.nodes[x].keys;
    var mid := (t.order - 1) / 2;
    SplitLeafShape(t, x);
    SplitLeafOrdered(t, x);
    SplitLeafChained(t, x);
    SplitLeafBounds(t, x, j);
    assert Distinct(t.chain);
    forall i | 0 <= i < |t.chain| ensures t.chain[i] < |t.nodes| { assert LinkAt(t, i); }
    SplitLeafEntries(t, x);
    assert NodeOrder(t, x, None) && NodeShape(t, x);
    assert Within(t.meta[x], ks[0]) && Within(t.meta[x], ks[mid]);
    assert t'.nodes[y].keys[0] == ks[mid];
    assert t'.meta[y].height == t'.meta[x].height;
    assert Above(t'.meta[x].lo, ks[mid]) && Below(t'.meta[y].hi, ks[mid]);
  }

  // ---------------------------------------------------------------------
  // Splitting an internal node
  // ---------------------------------------------------------------------

  /** The recorded parent of every node in `cs` becomes `y`. */
  function Reparent(ms: seq<Meta>, cs: seq<nat>, y: nat): (r: seq<Meta>)
    ensures |r| == |ms|
    ensures forall i :: 0 <= i < |ms| ==> r[i] == if i in cs then ms[i].(parent := y) else ms[i]
  {
    seq(|ms|, i requires 0 <= i < |ms| => if i in cs then ms[i].(parent := y) else ms[i])
  }

  /** What the split in `insertIntoParent` needs: an internal node with more
      keys than the position the split happens at. */
  predicate Overfull(t: TreeState, p: nat) {
    Sized(t) && p < |t.nodes| && t.nodes[p].Internal?
    && |t.nodes[p].children| == |t.nodes[p].keys| + 1 && t.order / 2 < |t.nodes[p].keys|
  }

  /** The split of `insertIntoParent`: the key at `order / 2` moves up, the
      keys after it and the children after it move to a new node. */
  function SplitInternalState(t: TreeState, p: nat): TreeState
    requires Overfull(t, p)
  {
    var ks, cs := t.nodes[p].keys, t.nodes[p].children;
    var mid := t.order / 2;
    var y := |t.nodes|;
    t.(nodes := t.nodes[p := Internal(ks[..mid], cs[..mid + 1])] + [Internal(ks[mid + 1..], cs[mid + 1..])],
       meta := Reparent(t.meta[p := t.meta[p].(hi := Some(ks[mid]))], cs[mid + 1..], y)
               + [Meta(Some(ks[mid]), t.meta[p].hi, t.meta[p].height, t.meta[p].parent)])
  }

  /** The node being split holds exactly `order` keys, its children are
      distinct existing nodes other than itself, and those it keeps are
      not among those it gives away. */
  lemma OverfullFacts(t: TreeState, p: nat)
    requires Inv(t, Some(p)) && p < |t.nodes| && t.nodes[p].Internal? && |t.nodes[p].keys| >= t.order
    ensures Overfull(t, p) && |t.nodes[p].keys| == t.order
    ensures var cs := t.nodes[p].children; var mid := t.order / 2;
      Distinct(cs) && p !in cs
      && (forall i :: 0 <= i < |cs| ==> cs[i] < |t.nodes|)
      && (forall i :: 0 <= i <= mid ==> cs[i] !in cs[mid + 1..])
  {
    assert NodeShape(t, p) && NodeOrder(t, p, Some(p));
    var cs := t.nodes[p].children;
    var mid := t.order / 2;
    forall i | 0 <= i < |cs| ensures cs[i] < |t.nodes| && cs[i] != p {
      assert ChildShape(t, p, i);
    }
    var suf := cs[mid + 1..];
    forall i | 0 <= i <= mid ensures cs[i] !in suf {
      forall k | 0 <= k < |suf| ensures suf[k] != cs[i] {
        assert suf[k] == cs[mid + 1 + k];
      }
    }
  }

  /** What the split of `p` changes on the way from `t` to `t'`: node `p`
      and the new node `y`, the upper bound of `p`, and the recorded parent
      of the children that move. */
  predicate SplitInternalShaped(t: TreeState, t': TreeState, p: nat)
    requires Overfull(t, p)
  {
    var ks, cs := t.nodes[p].keys, t.nodes[p].children;
    var mid := t.order / 2;
    var y := |t.nodes|;
    Distinct(cs) && p !in cs && (forall i :: 0 <= i < |cs| ==> cs[i] < y)
    && Sized(t') && |t'.nodes| == y + 1 && t'.root == t.root && t'.chain == t.chain && t'.order == t.order
    && t'.firstLeaf == t.firstLeaf
    && t'.nodes[p] == Internal(ks[..mid], cs[..mid + 1])
    && t'.nodes[y] == Internal(ks[mid + 1..], cs[mid + 1..])
    && t'.meta[y] == Meta(Some(ks[mid]), t.meta[p].hi, t.meta[p].height, t.meta[p].parent)
    && t'.meta[p] == t.meta[p].(hi := Some(ks[mid]))
    && (forall n :: 0 <= n < y && n != p ==> t'.nodes[n] == t.nodes[n])
    && (forall n :: 0 <= n < y ==> t'.meta[n].lo == t.meta[n].lo && t'.meta[n].height == t.meta[n].height)
    && (forall n :: 0 <= n < y && n != p ==> t'.meta[n].hi == t.meta[n].hi)
    && (forall n :: 0 <= n < y ==>
          t'.meta[n].parent == if n in cs[mid + 1..] then y else t.meta[n].parent)
    && (forall i :: 0 <= i <= mid ==> t'.meta[cs[i]] == t.meta[cs[i]])
    && (forall i :: mid < i < |cs| ==> t'.meta[cs[i]] == t.meta[cs[i]].(parent := y))
  }

  /** The part of `SplitInternalShaped` about the meta data. */
  predicate SplitInternalMetaShaped(t: TreeState, t': TreeState, p: nat)
    requires Overfull(t, p)
  {
    var ks, cs := t.nodes[p].keys, t.nodes[p].children;
    var mid := t.order / 2;
    var y := |t.nodes|;
    (forall i :: 0 <= i < |cs| ==> cs[i] < y) && |t'.meta| == y + 1
    && t'.meta[y] == Meta(Some(ks[mid]), t.meta[p].hi, t.meta[p].height, t.meta[p].parent)
    && t'.meta[p] == t.meta[p].(hi := Some(ks[mid]))
    && (forall n :: 0 <= n < y ==> t'.meta[n].lo == t.meta[n].lo && t'.meta[n].height == t.meta[n].height)
    && (forall n :: 0 <= n < y && n != p ==> t'.meta[n].hi == t.meta[n].hi)
    && (forall n :: 0 <= n < y ==>
          t'.meta[n].parent == if n in cs[mid + 1..] then y else t.meta[n].parent)
    && (forall i :: 0 <= i <= mid ==> t'.meta[cs[i]] == t.meta[cs[i]])
    && (forall i :: mid < i < |cs| ==> t'.meta[cs[i]] == t.meta[cs[i]].(parent := y))
  }

  lemma SplitInternalMeta(t: TreeState, p: nat)
    requires Inv(t, Some(p)) && p < |t.nodes| && t.nodes[p].Internal? && |t.nodes[p].keys| >= t.order
    ensures Overfull(t, p) && |t.nodes[p].keys| == t.order
    ensures SplitInternalShaped(t, SplitInternalState(t, p), p)
  {
    OverfullFacts(t, p);
    SplitInternalMetaPart(t, p);
  }

  lemma SplitInternalMetaPart(t: TreeState, p: nat)
    requires Overfull(t, p) && p !in t.nodes[p].children
    requires forall i :: 0 <= i < |t.nodes[p].children| ==> t.nodes[p].children[i] < |t.nodes|
    requires var cs := t.nodes[p].children; forall i :: 0 <= i <= t.order / 2 ==> cs[i] !in cs[t.order / 2 + 1..]
    ensures SplitInternalMetaShaped(t, SplitInternalState(t, p), p)
  {
    var ks, cs := t.nodes[p].keys, t.nodes[p].children;
    var mid := t.order / 2;
    var y := |t.nodes|;
    var suf := cs[mid + 1..];
    var ms := t.meta[p := t.meta[p].(hi := Some(ks[mid]))];
    var r := Reparent(ms, suf, y);
    var ms' := SplitInternalState(t, p).meta;
    assert ms' == r + [Meta(Some(ks[mid]), t.meta[p].hi, t.meta[p].height, t.meta[p].parent)];
    forall n | 0 <= n < y ensures ms'[n] == if n in suf then ms[n].(parent := y) else ms[n] {
      assert ms'[n] == r[n];
    }
    forall i | mid < i < |cs| ensures cs[i] in suf {
      assert suf[i - mid - 1] == cs[i];
    }
  }

  /** The preconditions of the split lemmas below. */
  predicate SplitInternalStep(t: TreeState, t': TreeState, p: nat) {
    Inv(t, Some(p)) && p < |t.nodes| && t.nodes[p].Internal? && |t.nodes[p].keys| == t.order
    && Overfull(t, p) && SplitInternalShaped(t, t', p)
  }

  lemma SplitInternalNodes(t: TreeState, t': TreeState, p: nat)
    requires SplitInternalStep(t, t', p)
    ensures Sized(t') && forall n :: 0 <= n < |t'.nodes| ==> NodeShape(t', n) && NodeOrder(t', n, None)
  {
    var ks := t.nodes[p].keys;
    var mid := t.order / 2;
    var y := |t.nodes|;
    assert NodeShape(t, p) && NodeOrder(t, p, Some(p));
    SplitKeysOrder(ks, mid, t.meta[p].lo, t.meta[p].hi);
    forall n | 0 <= n < |t'.nodes| ensures NodeShape(t', n) && NodeOrder(t', n, None) {
      if n != y && n != p {
        assert NodeShape(t, n) && NodeOrder(t, n, Some(p));
      }
    }
  }

  /** The keys an internal node keeps and those it gives away stay sorted
      and inside the intervals of the two halves. */
  lemma SplitKeysOrder(ks: seq<int>, mid: nat, lo: Option<int>, hi: Option<int>)
    requires mid < |ks| && StrictlySorted(ks)
    requires forall i :: 0 <= i < |ks| ==> Above(lo, ks[i]) && Below(hi, ks[i])
    ensures StrictlySorted(ks[..mid]) && StrictlySorted(ks[mid + 1..])
    ensures forall i :: 0 <= i < |ks[..mid]| ==> Above(lo, ks[..mid][i]) && Below(Some(ks[mid]), ks[..mid][i])
    ensures var up := ks[mid + 1..];
      forall i :: 0 <= i < |up| ==> Above(Some(ks[mid]), up[i]) && Below(hi, up[i])
  {
    var up := ks[mid + 1..];
    forall i | 0 <= i < |up| ensures Above(Some(ks[mid]), up[i]) && Below(hi, up[i]) {
      assert up[i] == ks[mid + 1 + i];
    }
  }

  lemma SplitInternalChildren(t: TreeState, t': TreeState, p: nat)
    requires SplitInternalStep(t, t', p)
    ensures Sized(t')
      && (forall n, i :: 0 <= n < |t'.nodes| && t'.nodes[n].Internal? && 0 <= i < |t'.nodes[n].children| ==>
            ChildShape(t', n, i))
      && (forall n :: 0 <= n < |t'.nodes| && t'.nodes[n].Internal? ==> |t.nodes| !in t'.nodes[n].children)
  {
    var cs := t.nodes[p].children;
    var mid := t.order / 2;
    var y := |t.nodes|;
    var suf := cs[mid + 1..];
    forall n, i | 0 <= n < |t'.nodes| && t'.nodes[n].Internal? && 0 <= i < |t'.nodes[n].children|
      ensures ChildShape(t', n, i) && t'.nodes[n].children[i] < y
    {
      if n == p {
        assert t'.nodes[p].children[i] == cs[i];
        assert ChildShape(t, p, i);
      } else if n == y {
        assert t'.nodes[y].children[i] == cs[mid + 1 + i];
        assert ChildShape(t, p, mid + 1 + i);
      } else {
        assert ChildShape(t, n, i);
        var c := t.nodes[n].children[i];
        forall k | 0 <= k < |suf| ensures suf[k] != c {
          assert ChildShape(t, p, mid + 1 + k);
        }
      }
    }
    forall n | 0 <= n < |t'.nodes| && t'.nodes[n].Internal? ensures y !in t'.nodes[n].children {
      var ch := t'.nodes[n].children;
      forall i | 0 <= i < |ch| ensures ch[i] != y {
        assert ch[i] < y;
      }
    }
  }

  lemma SplitInternalLinked(t: TreeState, t': TreeState, p: nat)
    requires SplitInternalStep(t, t', p)
    ensures Sized(t')
      && forall n :: 0 <= n < |t'.nodes| && n != t'.root && n != |t.nodes| ==>
           t'.meta[n].height < t'.meta[t'.root].height && Linked(t', n)
  {
    var cs := t.nodes[p].children;
    var mid := t.order / 2;
    var y := |t.nodes|;
    assert cs == cs[..mid + 1] + cs[mid + 1..];
    forall n | 0 <= n < |t'.nodes| && n != t'.root && n != y
      ensures t'.meta[n].height < t'.meta[t'.root].height && Linked(t', n)
    {
      assert Linked(t, n);
    }
  }

  lemma SplitInternalChained(t: TreeState, t': TreeState, p: nat)
    requires SplitInternalStep(t, t', p)
    ensures Sized(t') && Chained(t') && Entries(t') == Entries(t)
  {
    forall i | 0 <= i < |t.chain|
      ensures t.chain[i] < |t.nodes| && t.chain[i] != p && t.nodes[t.chain[i]] == t'.nodes[t.chain[i]]
    {
      assert LinkAt(t, i);
    }
    forall i | 0 <= i < |t'.chain| ensures LinkAt(t', i) {
      assert LinkAt(t, i);
    }
    forall n | 0 <= n < |t'.nodes| && t'.nodes[n].Leaf? ensures n in t'.chain {
      assert t.nodes[n].Leaf?;
    }
    forall i, k | 0 <= i < k < |t'.chain| ensures Separated(t', i, k) {
      assert Separated(t, i, k);
    }
    ChainEntriesFrame(t.nodes, t'.nodes, t.chain);
  }

  /** The children `p` keeps keep their intervals. */
  lemma SplitBoundsKept(t: TreeState, t': TreeState, p: nat, i: nat)
    requires SplitInternalStep(t, t', p)
    requires i < |t'.nodes[p].children|
    ensures ChildBounds(t', p, i)
  {
    var ks, cs := t.nodes[p].keys, t.nodes[p].children;
    var mid := t.order / 2;
    assert t'.nodes[p].children[i] == cs[i];
    assert ChildBounds(t, p, i);
    if i > 0 { assert t'.nodes[p].keys[i - 1] == ks[i - 1]; }
    if i < mid { assert t'.nodes[p].keys[i] == ks[i]; }
  }

  /** The children that move keep their intervals under the new node. */
  lemma SplitBoundsMoved(t: TreeState, t': TreeState, p: nat, i: nat)
    requires SplitInternalStep(t, t', p)
    requires i < |t'.nodes[|t.nodes|].children|
    ensures ChildBounds(t', |t.nodes|, i)
  {
    var ks, cs := t.nodes[p].keys, t.nodes[p].children;
    var mid := t.order / 2;
    var y := |t.nodes|;
    assert t'.nodes[y].children[i] == cs[mid + 1 + i];
    assert ChildBounds(t, p, mid + 1 + i);
    if i > 0 { assert t'.nodes[y].keys[i - 1] == ks[mid + i]; }
    if i < |ks| - mid - 1 { assert t'.nodes[y].keys[i] == ks[mid + 1 + i]; }
  }

  /** Elsewhere only the position of `p` itself in its parent is affected. */
  lemma SplitBoundsOther(t: TreeState, t': TreeState, p: nat, j: nat, n: nat, i: nat)
    requires SplitInternalStep(t, t', p)
    requires p != t.root ==> ChildAt(t, p, j)
    requires n < |t.nodes| && n != p && t.nodes[n].Internal? && i < |t.nodes[n].children|
    requires p == t.root || n != t.meta[p].parent || i != j
    ensures ChildBounds(t', n, i)
  {
    assert ChildBounds(t, n, i) && ChildShape(t, n, i) && NodeShape(t, n);
    assert t.nodes[n].children[i] != p;
  }

  /** Every child interval stays right, except the one at `p`'s own
      position in its parent, which `y` has yet to take its share of. */
  lemma SplitInternalBounds(t: TreeState, t': TreeState, p: nat, j: nat)
    requires SplitInternalStep(t, t', p)
    requires p != t.root ==> ChildAt(t, p, j)
    ensures var y := |t.nodes|;
      Sized(t') && y < |t'.nodes|
      && (p == t.root ==> Bounded(t'))
      && (p != t.root ==> RootOpen(t') && PendingAt(t', p, y, j) && BoundedExcept(t', t.meta[p].parent, j))
  {
    var y := |t.nodes|;
    var g := t.meta[p].parent;
    forall n, i | 0 <= n < |t'.nodes| && t'.nodes[n].Internal? && 0 <= i < |t'.nodes[n].children|
                  && (p == t.root || n != g || i != j)
      ensures ChildBounds(t', n, i)
    {
      if n == p {
        SplitBoundsKept(t, t', p, i);
      } else if n == y {
        SplitBoundsMoved(t, t', p, i);
      } else {
        SplitBoundsOther(t, t', p, j, n, i);
      }
    }
    if p != t.root {
      assert ChildShape(t, g, j) && ChildBounds(t, g, j);
    }
  }

  /** Splitting an overfull internal node leads to a pending state with the
      moved-up key as separator; the stored pairs do not change. */
  lemma SplitInternalPending(t: TreeState, p: nat, j: nat)
    requires Inv(t, Some(p)) && p < |t.nodes| && t.nodes[p].Internal? && |t.nodes[p].keys| >= t.order
    requires p != t.root ==> ChildAt(t, p, j)
    ensures Overfull(t, p)
    ensures var t' := SplitInternalState(t, p);
      Pending(t', p, |t.nodes|, t.nodes[p].keys[t.order / 2], j) && Entries(t') == Entries(t)
  {
    SplitInternalMeta(t, p);
    var t' := SplitInternalState(t, p);
    SplitInternalNodes(t, t', p);
    SplitInternalChildren(t, t', p);
    SplitInternalLinked(t, t', p);
    SplitInternalChained(t, t', p);
    SplitInternalBounds(t, t', p, j);
    assert NodeOrder(t, p, Some(p));
  }

  /** Once the node that `insertIntoParent` grew holds no more than
      `order - 1` keys, the tree is valid again. */
  lemma RelaxedValid(t: TreeState, p: nat)
    requires Inv(t, Some(p))
    requires p < |t.nodes| ==> |t.nodes[p].keys| <= t.order - 1
    ensures Valid(t)
  {
    forall n | 0 <= n < |t.nodes| ensures NodeOrder(t, n, None) {
      assert NodeOrder(t, n, Some(p));
    }
  }
}
