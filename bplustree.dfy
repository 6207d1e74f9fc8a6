/** `BPlusTree.java`: the B+ tree that maps cap ids to positions in the cap
    list. Nodes live in the sequence `nodes` and refer to one another by
    position; `root`, `firstLeaf`, a leaf's `next` and an internal node's
    `children` are such positions. The ghost fields `meta` and `chain`
    record, per node, the key interval it answers for, its height and its
    parent, and the leaves in `next` order; `Valid()` ties them together. */
module BPlusTreeIndex {
  import opened Common
  import opened BPlusTreeModel
  import opened BPlusTreeSplit
  import opened BPlusTreeParent
  import opened BPlusTreeQueries
  import opened BPlusTreeInsert

  class BPlusTree {
    const order: nat
    var root: nat
    var firstLeaf: nat
    var nodes: seq<Node>
    ghost var meta: seq<Meta>
    ghost var chain: seq<nat>

    ghost function State(): TreeState
      reads this
    {
      TreeState(order, root, firstLeaf, nodes, meta, chain)
    }

    ghost predicate Valid()
      reads this
    {
      BPlusTreeModel.Valid(State())
    }

    /** `new BPlusTree(order)` for an order of at least 3: one empty leaf,
        which is the root and the first leaf. */
    constructor(order: nat)
      requires order >= 3
      ensures State() == Empty(order) && Valid()
    {
      this.order := order;
      root := 0;
      firstLeaf := 0;
      nodes := [Leaf([], [], None)];
      meta := [Meta(None, None, 0, 0)];
      chain := [0];
    }

    /** The constructor, with its `IllegalArgumentException` for an order
        below 3. */
    static method Create(order: int) returns (r: Result<BPlusTree>)
      ensures r.Err? <==> order < 3
      ensures r.Err? ==> r.error == IllegalArgument
      ensures r.Ok? ==> fresh(r.value) && r.value.State() == Empty(order) && r.value.Valid()
    {
      if order < 3 {
        return Err(IllegalArgument);
      }
      var tree := new BPlusTree(order);
      return Ok(tree);
    }

    /** `findLeafNode`: from the root, follow the child after the last
        separator not above `key`. */
    method FindLeafNode(key: int) returns (leaf: nat)
      requires Valid()
      ensures leaf == Descend(State(), root, key)
    {
      var node: nat := root;
      while nodes[node].Internal?
        invariant node < |nodes| && Descend(State(), node, key) == Descend(State(), root, key)
        decreases meta[node].height
      {
        var ks := nodes[node].keys;
        var i := 0;
        while i < |ks| && key >= ks[i]
          invariant 0 <= i <= |ks|
          invariant forall j :: 0 <= j < i ==> ks[j] <= key
        {
          i := i + 1;
        }
        RoutePosIs(ks, key, i);
        assert NodeShape(State(), node);
        assert ChildShape(State(), node, i);
        node := nodes[node].children[i];
      }
      leaf := node;
    }

    /** `LeafNode.insert`: update the value of a key the leaf holds, else
        insert the pair in key order if the leaf has fewer than `order - 1`
        pairs, else refuse. */
    method LeafInsert(leaf: nat, key: int, value: int) returns (ok: bool)
      requires Valid() && leaf < |nodes| && nodes[leaf].Leaf? && Within(meta[leaf], key)
      modifies this
      ensures var ks := old(nodes[leaf].keys);
        ok <==> key in ks || |ks| < order - 1
      ensures ok ==> (|old(nodes[leaf].keys)| == |old(nodes[leaf].values)|
        && State() == WithLeaf(old(State()), leaf, PutKeys(old(nodes[leaf].keys), key),
                               PutValues(old(nodes[leaf].keys), old(nodes[leaf].values), key, value))
        && Valid() && Contents(State()) == old(Contents(State()))[key := value])
      ensures !ok ==> State() == old(State())
    {
      ghost var t := State();
      assert NodeOrder(t, leaf, None);
      var ks, vs := nodes[leaf].keys, nodes[leaf].values;
      var i := ScanInsertPos(ks, key);
      PutCases(ks, vs, key, value);
      if i < |ks| && ks[i] == key {
        nodes := nodes[leaf := Leaf(ks, vs[i := value], nodes[leaf].next)];
        ok := true;
      } else if |ks| < order - 1 {
        nodes := nodes[leaf := Leaf(ks[..i] + [key] + ks[i..], vs[..i] + [value] + vs[i..], nodes[leaf].next)];
        ok := true;
      } else {
        ok := false;
      }
      if ok {
        PutLeaf(t, leaf, key, value);
      }
    }

    /** The `while` loop of `LeafNode.insert`: the first position whose
        key is not below `key`. */
    static method ScanInsertPos(ks: seq<int>, key: int) returns (i: nat)
      ensures i == InsertPos(ks, key)
    {
      i := 0;
      while i < |ks| && key > ks[i]
        invariant 0 <= i <= |ks|
        invariant forall j :: 0 <= j < i ==> ks[j] < key
      {
        i := i + 1;
      }
      InsertPosIs(ks, key, i);
    }

    /** `LeafNode.split`: the pairs from `(order - 1) / 2` on move to a new
        leaf, linked in right after this one. */
    method SplitLeaf(leaf: nat) returns (newLeaf: nat)
      requires Splittable(State(), leaf)
      modifies this
      ensures newLeaf == old(|nodes|) && State() == SplitLeafState(old(State()), leaf)
    {
      var ks, vs := nodes[leaf].keys, nodes[leaf].values;
      var mid := (order - 1) / 2;
      newLeaf := |nodes|;
      ghost var q := IndexOf(chain, leaf);
      nodes := nodes[leaf := Leaf(ks[..mid], vs[..mid], Some(newLeaf))]
               + [Leaf(ks[mid..], vs[mid..], nodes[leaf].next)];
      meta := meta[leaf := meta[leaf].(hi := Some(ks[mid]))]
              + [Meta(Some(ks[mid]), meta[leaf].hi, 0, meta[leaf].parent)];
      chain := chain[..q + 1] + [newLeaf] + chain[q + 1..];
    }

    /** The new root that `insert` and `insertIntoParent` build over the two
        halves of a split root. */
    method NewRoot(x: nat, y: nat, s: int, ghost j: nat)
      requires Pending(State(), x, y, s, j) && x == root
      modifies this
      ensures State() == Grow(old(State()), x, y, s)
      ensures Valid() && Entries(State()) == old(Entries(State())) && LeavesKept(old(State()), State())
    {
      ghost var t := State();
      var r := |nodes|;
      nodes := nodes + [Internal([s], [x, y])];
      meta := meta[x := meta[x].(parent := r)][y := meta[y].(parent := r)]
              + [Meta(None, None, meta[x].height + 1, 0)];
      root := r;
      GrowValid(t, x, y, s, j);
      LeavesKeptGrow(t, x, y, s);
    }

    /** `findParent`: a depth-first search below `n` for the internal node
        that lists `child`. */
    method FindParent(n: nat, child: nat) returns (r: Option<nat>)
      requires Skeleton(State()) && n < |nodes|
      ensures r == FindParentIn(State(), n, child)
      decreases meta[n].height
    {
      if nodes[n].Leaf? || n == child {
        return None;
      }
      var cs := nodes[n].children;
      var i := 0;
      while i < |cs|
        invariant 0 <= i <= |cs|
        invariant FindParentIn(State(), n, child) == FindParentAmong(State(), n, child, i)
      {
        if cs[i] == child {
          return Some(n);
        }
        assert ChildShape(State(), n, i);
        if nodes[cs[i]].Internal? {
          var sub := FindParent(cs[i], child);
          if sub.Some? {
            return sub;
          }
        }
        i := i + 1;
      }
      return None;
    }

    /** The start of `insertIntoParent`: `key` goes into `p` at the first
        position whose key is not below it, and `child` right after the
        child on its left. */
    method AddChild(p: nat, key: int, child: nat)
      requires p < |nodes| && nodes[p].Internal? && |nodes[p].children| == |nodes[p].keys| + 1
      modifies this
      ensures State() == Splice(old(State()), p, key, child)
    {
      var ks, cs := nodes[p].keys, nodes[p].children;
      var i := 0;
      while i < |ks| && key > ks[i]
        invariant 0 <= i <= |ks|
        invariant forall k :: 0 <= k < i ==> ks[k] < key
      {
        i := i + 1;
      }
      InsertPosIs(ks, key, i);
      nodes := nodes[p := Internal(ks[..i] + [key] + ks[i..], cs[..i + 1] + [child] + cs[i + 1..])];
    }

    /** The split in `insertIntoParent` of a node that reached `order`
        keys: the key at `order / 2` goes up, the keys and children after it
        move to a new internal node. */
    method SplitInternal(p: nat) returns (newInternal: nat, upKey: int)
      requires Overfull(State(), p)
      modifies this
      ensures newInternal == old(|nodes|) && upKey == old(nodes[p].keys[order / 2])
      ensures State() == SplitInternalState(old(State()), p)
    {
      ghost var t' := SplitInternalState(State(), p);
      meta := t'.meta;
      var mid := order / 2;
      var pk, pc := nodes[p].keys, nodes[p].children;
      upKey := pk[mid];
      newInternal := |nodes|;
      nodes := nodes[p := Internal(pk[..mid], pc[..mid + 1])] + [Internal(pk[mid + 1..], pc[mid + 1..])];
      assert nodes == t'.nodes;
    }

    /** `insertIntoParent`: hang the new node `newNode`, split off `x`,
        into `x`'s parent under separator `key`; split the parent in turn
        when it reaches `order` keys, growing a new root at the top. */
    method InsertIntoParent(parent: nat, key: int, newNode: nat, ghost x: nat, ghost j: nat)
      requires Pending(State(), x, newNode, key, j) && x != root && parent == meta[x].parent
      modifies this
      ensures Valid() && Entries(State()) == old(Entries(State())) && LeavesKept(old(State()), State())
      decreases meta[root].height - meta[parent].height
    {
      ghost var t0 := State();
      SpliceStep(t0, x, newNode, key, j);
      AddChild(parent, key, newNode);
      ghost var t1 := State();
      if |nodes[parent].keys| >= order {
        SplitStep(t1, parent);
        ghost var jp := Slot(t1, parent);
        var newInternal, upKey := SplitInternal(parent);
        ghost var t2 := State();
        LeavesKeptTrans(t0, t1, t2);
        if parent == root {
          NewRoot(parent, newInternal, upKey, jp);
        } else {
          ClimbStep(t2, parent, newInternal, upKey, jp);
          var grandParent := FindParent(root, parent);
          InsertIntoParent(grandParent.value, upKey, newInternal, parent, jp);
        }
        LeavesKeptTrans(t0, t2, State());
      } else {
        RelaxedValid(t1, parent);
      }
    }

    /** `insert`: a null key is refused; otherwise the pair goes into the
        leaf `findLeafNode` reaches. When that leaf is full the leaf is
        split, but the pair itself is not inserted anywhere. */
    method Insert(key: Option<int>, value: int) returns (r: Result<()>)
      requires Valid()
      modifies this
      ensures key.None? ==> r == Err(IllegalArgument) && State() == old(State())
      ensures key.Some? ==> r == Ok(()) && Valid()
      ensures key.Some? && old(Fits(State(), key.value)) ==>
        State() == old(Put(State(), key.value, value))
        && Contents(State()) == old(Contents(State()))[key.value := value]
      ensures key.Some? && !old(Fits(State(), key.value)) ==>
        Contents(State()) == old(Contents(State())) && key.value !in Contents(State())
      ensures old(Packed(State())) ==> Packed(State())
    {
      if key.None? {
        return Err(IllegalArgument);
      }
      var k := key.value;
      ghost var t0 := State();
      var leaf := FindLeafNode(k);
      InsertOutcome(t0, k, value);
      var ok := LeafInsert(leaf, k, value);
      if !ok {
        SplitFullLeaf(leaf);
      }
      r := Ok(());
    }

    /** The rest of `insert` when the leaf is full: split it, then give the
        new leaf a parent, through a new root or `insertIntoParent`. */
    method SplitFullLeaf(leaf: nat)
      requires Valid() && leaf < |nodes| && FullLeaf(State(), leaf)
      modifies this
      ensures Valid() && Entries(State()) == old(Entries(State()))
      ensures old(Packed(State())) ==> Packed(State())
    {
      ghost var t0 := State();
      LeafSplitStep(t0, leaf);
      ghost var j := Slot(t0, leaf);
      if Packed(t0) {
        PackedSplitLeaf(t0, leaf);
      }
      var newNode := SplitLeaf(leaf);
      ghost var t1 := State();
      var newKey := nodes[newNode].keys[0];
      if leaf == root {
        NewRoot(leaf, newNode, newKey, j);
      } else {
        ClimbStep(t1, leaf, newNode, newKey, j);
        var parent := FindParent(root, leaf);
        InsertIntoParent(parent.value, newKey, newNode, leaf, j);
      }
      if Packed(t0) {
        PackedFrame(t1, State());
      }
    }

    /** `search`: a null key is refused; otherwise the value stored for the
        key, or nothing (`null`). */
    method Search(key: Option<int>) returns (r: Result<Option<int>>)
      requires Valid()
      ensures key.None? ==> r == Err(IllegalArgument)
      ensures key.Some? ==> r == Ok(if key.value in Contents(State()) then Some(Contents(State())[key.value]) else None)
    {
      if key.None? {
        return Err(IllegalArgument);
      }
      var leaf := FindLeafNode(key.value);
      var index := KeyIndex(nodes[leaf].keys, key.value);
      LeafLookup(State(), key.value);
      r := Ok(if index >= 0 then Some(nodes[leaf].values[index]) else None);
    }

    /** `delete`: a null key is refused; a key not stored gives false;
        otherwise the pair is removed from its leaf, with no merge or
        redistribution, and the result is true. */
    method Delete(key: Option<int>) returns (r: Result<bool>)
      requires Valid()
      modifies this
      ensures key.None? ==> r == Err(IllegalArgument) && State() == old(State())
      ensures key.Some? ==> (r == Ok(key.value in old(Contents(State()))) && Valid()
        && Contents(State()) == old(Contents(State())) - {key.value})
      ensures key.Some? && key.value in old(Contents(State())) ==> State() == old(Remove(State(), key.value))
      ensures key.Some? && key.value !in old(Contents(State())) ==> State() == old(State())
    {
      if key.None? {
        return Err(IllegalArgument);
      }
      var k := key.value;
      ghost var t0 := State();
      var leaf := FindLeafNode(k);
      var index := KeyIndex(nodes[leaf].keys, k);
      LeafLookup(t0, k);
      if index < 0 {
        return Ok(false);
      }
      RemoveDeletes(t0, k);
      var ks, vs := nodes[leaf].keys, nodes[leaf].values;
      nodes := nodes[leaf := Leaf(ks[..index] + ks[index + 1..], vs[..index] + vs[index + 1..], nodes[leaf].next)];
      assert State() == Remove(t0, k);
      if |nodes[leaf].keys| < (order + 1) / 2 && leaf != root {
        HandleUnderflow(leaf);
      }
      r := Ok(true);
    }

    /** `handleUnderflow`: only an empty leaf root is touched, and it is
        replaced by a fresh empty leaf that is also the first leaf. Such a
        root is the only leaf and links to nothing, so the tree is as
        before. (`delete` calls it for leaves other than the root only.) */
    method HandleUnderflow(leaf: nat)
      requires Valid() && leaf < |nodes| && nodes[leaf].Leaf?
      modifies this
      ensures State() == old(State()) && Valid()
      ensures old(leaf == root && |nodes[leaf].keys| == 0) ==>
        nodes[root] == Leaf([], [], None) && firstLeaf == root
    {
      if leaf == root && |nodes[leaf].keys| == 0 {
        RootLeafAlone(State());
        assert NodeOrder(State(), root, None);
        nodes := nodes[root := Leaf([], [], None)];
        firstLeaf := root;
      }
    }

    /** `rangeQuery`: from the leaf `findLeafNode(lo)` reaches, collect the
        pairs with `lo <= key <= hi` leaf after leaf, and stop at the first
        key above `hi`. */
    method RangeQuery(lo: int, hi: int) returns (result: seq<Entry>)
      requires Valid()
      ensures result == InRange(Entries(State()), lo, hi)
    {
      ghost var t := State();
      var leaf := FindLeafNode(lo);
      RangeStart(t, lo, hi);
      ghost var q := IndexOf(t.chain, leaf);
      var current := Some(leaf);
      result := [];
      while current.Some?
        invariant q <= |t.chain| && current == (if q < |t.chain| then Some(t.chain[q]) else None)
        invariant result == InRange(ChainEntries(t.nodes, t.chain[..q]), lo, hi)
        decreases |t.chain| - q
      {
        var x := current.value;
        RangeLeaf(t, q);
        var ks, vs := nodes[x].keys, nodes[x].values;
        var stop;
        result, stop := CollectInRange(result, ChainEntries(t.nodes, t.chain[..q]), ks, vs, lo, hi);
        RangeAfter(t, q, stop, lo, hi);
        if stop < |ks| {
          return;
        }
        current := nodes[x].next;
        q := q + 1;
      }
      assert t.chain[..q] == t.chain;
    }

    /** The `for` loop of `rangeQuery` over one leaf, given the pairs
        `pre` of the leaves before it: it adds the pairs in range and stops
        at position `stop` when that key is above `hi` (`stop == |ks|` when
        it went through). */
    static method CollectInRange(acc: seq<Entry>, ghost pre: seq<Entry>, ks: seq<int>, vs: seq<int>, lo: int, hi: int)
      returns (result: seq<Entry>, stop: nat)
      requires |ks| == |vs| && acc == InRange(pre, lo, hi)
      ensures stop <= |ks| && (stop < |ks| ==> ks[stop] > hi)
      ensures result == InRange(pre + Zip(ks, vs)[..stop], lo, hi)
    {
      ghost var z := Zip(ks, vs);
      assert pre + z[..0] == pre;
      result := acc;
      var i := 0;
      while i < |ks|
        invariant 0 <= i <= |ks|
        invariant result == InRange(pre + z[..i], lo, hi)
      {
        var k := ks[i];
        RangeStep(pre, z, i, lo, hi);
        assert z[i] == Entry(k, vs[i]);
        if lo <= k && k <= hi {
          result := result + [Entry(k, vs[i])];
        } else if k > hi {
          return result, i;
        }
        i := i + 1;
      }
      stop := |ks|;
    }

    /** `getAll`: every pair, leaf after leaf from `firstLeaf`. */
    method GetAll() returns (result: seq<Entry>)
      requires Valid()
      ensures result == Entries(State())
    {
      ghost var t := State();
      var current := Some(firstLeaf);
      ghost var q := 0;
      result := [];
      while current.Some?
        invariant q <= |t.chain| && current == (if q < |t.chain| then Some(t.chain[q]) else None)
        invariant result == ChainEntries(t.nodes, t.chain[..q])
        decreases |t.chain| - q
      {
        var x := current.value;
        ChainStep(t, q);
        var ks, vs := nodes[x].keys, nodes[x].values;
        result := AppendPairs(result, ks, vs);
        current := nodes[x].next;
        q := q + 1;
      }
      assert t.chain[..q] == t.chain;
    }

    /** The `for` loop of `getAll` over one leaf. */
    static method AppendPairs(acc: seq<Entry>, ks: seq<int>, vs: seq<int>) returns (result: seq<Entry>)
      requires |ks| == |vs|
      ensures result == acc + Zip(ks, vs)
    {
      ghost var z := Zip(ks, vs);
      result := acc;
      for i := 0 to |ks|
        invariant result == acc + z[..i]
      {
        assert z[..i + 1] == z[..i] + [Entry(ks[i], vs[i])];
        result := result + [Entry(ks[i], vs[i])];
      }
      assert z[..|ks|] == z;
    }

    /** `size`: the number of pairs over all leaves. */
    method Size() returns (count: int)
      requires Valid()
      ensures count == |Entries(State())| == |Contents(State())|
    {
      ghost var t := State();
      SizeIsCount(t);
      var current := Some(firstLeaf);
      ghost var q := 0;
      count := 0;
      while current.Some?
        invariant q <= |t.chain| && current == (if q < |t.chain| then Some(t.chain[q]) else None)
        invariant count == |ChainEntries(t.nodes, t.chain[..q])|
        decreases |t.chain| - q
      {
        var x := current.value;
        ChainStep(t, q);
        count := count + |nodes[x].keys|;
        current := nodes[x].next;
        q := q + 1;
      }
      assert t.chain[..q] == t.chain;
    }

    /** `isEmpty`: whether the first leaf holds no key. That is whether the
        tree is empty only while no leaf has been emptied by `delete`. */
    method IsEmpty() returns (b: bool)
      requires Valid()
      ensures b <==> |nodes[firstLeaf].keys| == 0
      ensures Packed(State()) ==> (b <==> Entries(State()) == [])
    {
      b := |nodes[firstLeaf].keys| == 0;
      if Packed(State()) {
        PackedIsEmpty(State());
      }
    }
  }
}
