/** What the public operations of `BPlusTree.java` mean for the stored map:
    the outcome of `insert` (including the pair it loses on a full leaf),
    `delete`, the order and extent of `getAll` and `rangeQuery`, what
    `size` counts and when `isEmpty` tells the truth. */
module BPlusTreeQueries {
  import opened Common
  import opened BPlusTreeModel
  import opened BPlusTreeSplit

  // ---------------------------------------------------------------------
  // Reading a leaf
  // ---------------------------------------------------------------------

  /** `List.indexOf`: the first position of `k` in `ks`, or -1. */
  function KeyIndex(ks: seq<int>, k: int): (r: int)
    ensures -1 <= r < |ks|
    ensures r >= 0 ==> ks[r] == k && forall i :: 0 <= i < r ==> ks[i] != k
    ensures r == -1 <==> k !in ks
  {
    if ks == [] then -1
    else if ks[0] == k then 0
    else
      var r := KeyIndex(ks[1..], k);
      if r < 0 then -1 else r + 1
  }

  // ---------------------------------------------------------------------
  // insert
  // ---------------------------------------------------------------------

  /** `LeafNode.insert` succeeds on the leaf that `insert` reaches for
      `key`: the key is there already, or the leaf has room for one more. */
  predicate Fits(t: TreeState, key: int)
    requires Valid(t)
  {
    var x := Descend(t, t.root, key);
    key in t.nodes[x].keys || |t.nodes[x].keys| < t.order - 1
  }

  /** The tree after a successful `LeafNode.insert` of `key` and `v` in the
      leaf that `insert` reaches. */
  function Put(t: TreeState, key: int, v: int): TreeState
    requires Valid(t)
  {
    var x := Descend(t, t.root, key);
    assert NodeOrder(t, x, None);
    var ks, vs := t.nodes[x].keys, t.nodes[x].values;
    WithLeaf(t, x, PutKeys(ks, key), PutValues(ks, vs, key, v))
  }

  /** A successful `LeafNode.insert` in a leaf answering for `key` keeps the
      invariant and makes the tree map `key` to `v`. */
  lemma PutLeaf(t: TreeState, x: nat, key: int, v: int)
    requires Valid(t) && x < |t.nodes| && t.nodes[x].Leaf? && Within(t.meta[x], key)
    requires key in t.nodes[x].keys || |t.nodes[x].keys| < t.order - 1
    ensures |t.nodes[x].keys| == |t.nodes[x].values|
    ensures var ks, vs := t.nodes[x].keys, t.nodes[x].values;
      var t' := WithLeaf(t, x, PutKeys(ks, key), PutValues(ks, vs, key, v));
      Valid(t') && Contents(t') == Contents(t)[key := v]
  {
    assert NodeOrder(t, x, None);
    var ks, vs := t.nodes[x].keys, t.nodes[x].values;
    LeafPut(ks, vs, key, v);
    var ks' := PutKeys(ks, key);
    PutWithin(t.meta[x], ks, key);
    WithLeafValid(t, x, ks', PutValues(ks, vs, key, v));
    PutContents(t, x, key, v);
  }

  /** Keys inside an interval stay inside it when a key inside it joins. */
  lemma PutWithin(m: Meta, ks: seq<int>, key: int)
    requires Within(m, key) && forall k :: 0 <= k < |ks| ==> Within(m, ks[k])
    ensures var ks' := PutKeys(ks, key); forall k :: 0 <= k < |ks'| ==> Within(m, ks'[k])
  {
    var ks' := PutKeys(ks, key);
    var i := InsertPos(ks, key);
    forall k | 0 <= k < |ks'| ensures Within(m, ks'[k]) {
      if ks' != ks {
        if k < i { assert ks'[k] == ks[k]; } else if k > i { assert ks'[k] == ks[k - 1]; }
      }
    }
  }

  /** When `LeafNode.insert` succeeds, `insert` stores the pair: afterwards
      `search(key)` answers `v` and every other key keeps its value. */
  lemma PutStores(t: TreeState, key: int, v: int)
    requires Valid(t) && Fits(t, key)
    ensures Valid(Put(t, key, v)) && Contents(Put(t, key, v)) == Contents(t)[key := v]
  {
    DescendWithin(t, t.root, key);
    PutLeaf(t, Descend(t, t.root, key), key, v);
  }

  /** When `LeafNode.insert` refuses, the key was not stored; since the split
      that follows keeps the stored pairs, it is not stored afterwards
      either: the pair is lost. */
  lemma LostInsert(t: TreeState, key: int)
    requires Valid(t) && !Fits(t, key)
    ensures key !in Contents(t)
    ensures FullLeaf(t, Descend(t, t.root, key))
  {
    LeafLookup(t, key);
  }

  /** What `insert` finds at the leaf `findLeafNode` reaches: the key
      belongs there, and either `LeafNode.insert` stores the pair (keeping
      the tree packed) or the leaf is full and the key is not stored. */
  lemma InsertOutcome(t: TreeState, key: int, v: int)
    requires Valid(t)
    ensures var x := Descend(t, t.root, key);
      Within(t.meta[x], key)
      && (Fits(t, key) ==> Valid(Put(t, key, v)) && Contents(Put(t, key, v)) == Contents(t)[key := v]
                           && (Packed(t) ==> Packed(Put(t, key, v))))
      && (!Fits(t, key) ==> key !in Contents(t) && FullLeaf(t, x))
  {
    var x := Descend(t, t.root, key);
    DescendWithin(t, t.root, key);
    if Fits(t, key) {
      PutStores(t, key, v);
      assert NodeOrder(t, x, None);
      LeafPut(t.nodes[x].keys, t.nodes[x].values, key, v);
      if Packed(t) {
        PackedPut(t, x, PutKeys(t.nodes[x].keys, key), PutValues(t.nodes[x].keys, t.nodes[x].values, key, v));
      }
    } else {
      LostInsert(t, key);
    }
  }

  /** While the root is a leaf, `insert` works on the root. */
  lemma PutRoot(t: TreeState, key: int, v: int)
    requires Valid(t) && t.nodes[t.root].Leaf?
    ensures Descend(t, t.root, key) == t.root
    ensures var ks, vs := t.nodes[t.root].keys, t.nodes[t.root].values;
      |ks| == |vs|
      && (Fits(t, key) <==> key in ks || |ks| < t.order - 1)
      && Put(t, key, v) == WithLeaf(t, t.root, PutKeys(ks, key), PutValues(ks, vs, key, v))
  {
    assert NodeOrder(t, t.root, None);
  }

  /** A tree that is a single leaf. */
  function OneLeaf(order: nat, ks: seq<int>, vs: seq<int>): TreeState {
    TreeState(order, 0, 0, [Leaf(ks, vs, None)], [Meta(None, None, 0, 0)], [0])
  }

  /** `insert` into a tree that is a single leaf rewrites that leaf. */
  lemma PutOneLeaf(order: nat, ks: seq<int>, vs: seq<int>, key: int, v: int, ks': seq<int>, vs': seq<int>)
    requires Valid(OneLeaf(order, ks, vs))
    requires key in ks || |ks| < order - 1
    requires |ks| == |vs| && PutKeys(ks, key) == ks' && PutValues(ks, vs, key, v) == vs'
    ensures Fits(OneLeaf(order, ks, vs), key)
    ensures Put(OneLeaf(order, ks, vs), key, v) == OneLeaf(order, ks', vs')
    ensures Valid(OneLeaf(order, ks', vs'))
    ensures Contents(OneLeaf(order, ks', vs')) == Contents(OneLeaf(order, ks, vs))[key := v]
  {
    var t := OneLeaf(order, ks, vs);
    PutRoot(t, key, v);
    PutStores(t, key, v);
  }

  /** Inserting 5, 1, 9 and then 3 into an empty tree of order 4. First 5
      goes into the empty root leaf ... */
  lemma LostInsertFirst(a: int)
    ensures Fits(Empty(4), 5) && Put(Empty(4), 5, a) == OneLeaf(4, [5], [a])
    ensures Valid(OneLeaf(4, [5], [a])) && Contents(OneLeaf(4, [5], [a])) == map[5 := a]
  {
    assert Empty(4) == OneLeaf(4, [], []);
    PutOneLeaf(4, [], [], 5, a, [5], [a]);
  }

  /** ... then 1 goes before it ... */
  lemma LostInsertSecond(a: int, b: int)
    ensures Valid(OneLeaf(4, [5], [a])) && Fits(OneLeaf(4, [5], [a]), 1)
    ensures Put(OneLeaf(4, [5], [a]), 1, b) == OneLeaf(4, [1, 5], [b, a])
    ensures Valid(OneLeaf(4, [1, 5], [b, a])) && Contents(OneLeaf(4, [1, 5], [b, a])) == map[5 := a, 1 := b]
  {
    LostInsertFirst(a);
    assert InsertPos([5], 1) == 0;
    PutOneLeaf(4, [5], [a], 1, b, [1, 5], [b, a]);
  }

  /** ... and 9 after both, which fills the leaf ... */
  lemma LostInsertThird(a: int, b: int, c: int)
    ensures Valid(OneLeaf(4, [1, 5], [b, a])) && Fits(OneLeaf(4, [1, 5], [b, a]), 9)
    ensures Put(OneLeaf(4, [1, 5], [b, a]), 9, c) == OneLeaf(4, [1, 5, 9], [b, a, c])
    ensures Valid(OneLeaf(4, [1, 5, 9], [b, a, c]))
    ensures Contents(OneLeaf(4, [1, 5, 9], [b, a, c])) == map[1 := b, 5 := a, 9 := c]
  {
    LostInsertSecond(a, b);
    assert InsertPos([1, 5], 9) == 2 by { InsertPosIs([1, 5], 9, 2); }
    PutOneLeaf(4, [1, 5], [b, a], 9, c, [1, 5, 9], [b, a, c]);
  }

  /** ... so 3 meets a full leaf and is lost: the tree keeps three pairs
      and none for 3. */
  lemma LostInsertExample(a: int, b: int, c: int)
    ensures Valid(OneLeaf(4, [1, 5, 9], [b, a, c])) && !Fits(OneLeaf(4, [1, 5, 9], [b, a, c]), 3)
    ensures 3 !in Contents(OneLeaf(4, [1, 5, 9], [b, a, c]))
  {
    LostInsertThird(a, b, c);
    PutRoot(OneLeaf(4, [1, 5, 9], [b, a, c]), 3, c);
  }

  // ---------------------------------------------------------------------
  // delete
  // ---------------------------------------------------------------------

  /** `delete`'s `keys.remove(index)` and `values.remove(index)`. */
  function RemoveAt(t: TreeState, x: nat, i: nat): TreeState
    requires x < |t.nodes| && t.nodes[x].Leaf? && i < |t.nodes[x].keys| && i < |t.nodes[x].values|
  {
    var ks, vs := t.nodes[x].keys, t.nodes[x].values;
    WithLeaf(t, x, ks[..i] + ks[i + 1..], vs[..i] + vs[i + 1..])
  }

  /** Removing a pair from a leaf, with no merge or redistribution, keeps
      the invariant and removes exactly that key from the tree. */
  lemma RemoveLeaf(t: TreeState, x: nat, i: nat)
    requires Valid(t) && x < |t.nodes| && t.nodes[x].Leaf? && i < |t.nodes[x].keys|
    ensures |t.nodes[x].keys| == |t.nodes[x].values|
    ensures Valid(RemoveAt(t, x, i)) && Contents(RemoveAt(t, x, i)) == Contents(t) - {t.nodes[x].keys[i]}
  {
    RemoveLeafValid(t, x, i);
    RemoveContents(t, x, i);
  }

  lemma RemoveLeafValid(t: TreeState, x: nat, i: nat)
    requires Valid(t) && x < |t.nodes| && t.nodes[x].Leaf? && i < |t.nodes[x].keys|
    ensures |t.nodes[x].keys| == |t.nodes[x].values| && Valid(RemoveAt(t, x, i))
  {
    assert NodeOrder(t, x, None);
    var ks, vs := t.nodes[x].keys, t.nodes[x].values;
    var ks' := ks[..i] + ks[i + 1..];
    LeafRemove(ks, vs, i);
    RemoveWithin(t.meta[x], ks, i);
    WithLeafValid(t, x, ks', vs[..i] + vs[i + 1..]);
  }

  /** Keys inside an interval stay inside it when one of them goes. */
  lemma RemoveWithin(m: Meta, ks: seq<int>, i: nat)
    requires i < |ks| && forall k :: 0 <= k < |ks| ==> Within(m, ks[k])
    ensures var ks' := ks[..i] + ks[i + 1..]; forall k :: 0 <= k < |ks'| ==> Within(m, ks'[k])
  {
    var ks' := ks[..i] + ks[i + 1..];
    forall k | 0 <= k < |ks'| ensures Within(m, ks'[k]) {
      if k < i { assert ks'[k] == ks[k]; } else { assert ks'[k] == ks[k + 1]; }
    }
  }

  /** `delete` of a stored key: the pair goes from the leaf `findLeafNode`
      reaches, at the position `indexOf` finds. */
  function Remove(t: TreeState, key: int): TreeState
    requires Valid(t) && key in Contents(t)
  {
    LeafLookup(t, key);
    var x := Descend(t, t.root, key);
    assert NodeOrder(t, x, None);
    RemoveAt(t, x, KeyIndex(t.nodes[x].keys, key))
  }

  /** `delete` removes exactly the key it was given and keeps the
      invariant. */
  lemma RemoveDeletes(t: TreeState, key: int)
    requires Valid(t) && key in Contents(t)
    ensures Valid(Remove(t, key)) && Contents(Remove(t, key)) == Contents(t) - {key}
  {
    LeafLookup(t, key);
    var x := Descend(t, t.root, key);
    RemoveLeaf(t, x, KeyIndex(t.nodes[x].keys, key));
  }

  /** A leaf root is the whole tree: it is the first and only leaf and links
      to nothing. So the reset in `handleUnderflow` rebuilds what is there. */
  lemma RootLeafAlone(t: TreeState)
    requires Valid(t) && t.nodes[t.root].Leaf?
    ensures t.chain == [t.root] && t.firstLeaf == t.root && t.nodes[t.root].next == None
  {
    assert NodeShape(t, t.root);
    forall i | 0 <= i < |t.chain| ensures t.chain[i] == t.root {
      assert t.chain[i] < |t.nodes|;
      assert t.meta[t.chain[i]].height >= t.meta[t.root].height;
    }
    var k := |t.chain| - 1;
    assert t.chain[k] == t.chain[0];
    assert k == 0;
    assert LinkAt(t, 0);
  }

  // ---------------------------------------------------------------------
  // getAll, size, rangeQuery
  // ---------------------------------------------------------------------

  /** The pairs of the first `q + 1` leaves are those of the first `q`
      leaves followed by those of leaf `q`. */
  lemma ChainPrefix(t: TreeState, q: nat)
    requires q < |t.chain|
    ensures var pre := ChainEntries(t.nodes, t.chain[..q]);
      var z := LeafEntries(t.nodes, t.chain[q]);
      ChainEntries(t.nodes, t.chain[..q + 1]) == pre + z
      && Entries(t) == pre + z + ChainEntries(t.nodes, t.chain[q + 1..])
  {
    assert t.chain[..q + 1] == t.chain[..q] + [t.chain[q]];
    ChainEntriesAppend(t.nodes, t.chain[..q], [t.chain[q]]);
    ChainEntriesOne(t.nodes, t.chain[q]);
    Decompose(t.nodes, t.chain, q);
  }

  /** One step along the chain, as `getAll`, `size` and `rangeQuery` take
      it: leaf `q` holds one value per key and links to leaf `q + 1`. */
  lemma ChainStep(t: TreeState, q: nat)
    requires Valid(t) && q < |t.chain|
    ensures var x := t.chain[q];
      x < |t.nodes| && t.nodes[x].Leaf? && |t.nodes[x].keys| == |t.nodes[x].values|
      && t.nodes[x].next == (if q + 1 < |t.chain| then Some(t.chain[q + 1]) else None)
      && ChainEntries(t.nodes, t.chain[..q + 1])
         == ChainEntries(t.nodes, t.chain[..q]) + Zip(t.nodes[x].keys, t.nodes[x].values)
  {
    assert LinkAt(t, q);
    assert NodeOrder(t, t.chain[q], None);
    ChainPrefix(t, q);
  }

  /** A key is stored exactly when some pair of the list carries it. */
  lemma {:induction false} MapOfKeys(es: seq<Entry>, k: int)
    ensures k in MapOf(es) <==> exists i :: 0 <= i < |es| && es[i].key == k
    decreases |es|
  {
    if es != [] {
      var init := es[..|es| - 1];
      MapOfKeys(init, k);
      if k in MapOf(init) {
        var i :| 0 <= i < |init| && init[i].key == k;
        assert es[i].key == k;
      }
      if exists i :: 0 <= i < |es| && es[i].key == k {
        var i :| 0 <= i < |es| && es[i].key == k;
        if i < |es| - 1 {
          assert init[i].key == k;
        }
      }
    }
  }

  /** `getAll` lists exactly the stored map: a pair is listed when the tree
      maps its key to its value. */
  lemma EntriesAreContents(t: TreeState, e: Entry)
    requires Valid(t)
    ensures e in Entries(t) <==> e.key in Contents(t) && Contents(t)[e.key] == e.value
  {
    var es := Entries(t);
    EntriesSorted(t);
    if e in es {
      var i :| 0 <= i < |es| && es[i] == e;
      MapOfAt(es, i);
    }
    if e.key in Contents(t) && Contents(t)[e.key] == e.value {
      MapOfKeys(es, e.key);
      var i :| 0 <= i < |es| && es[i].key == e.key;
      MapOfAt(es, i);
    }
  }

  /** A list of pairs with ascending keys stands for a map with as many
      keys as the list has pairs. */
  lemma {:induction false} MapOfSize(es: seq<Entry>)
    requires KeysSorted(es)
    ensures |MapOf(es)| == |es|
    decreases |es|
  {
    if es != [] {
      var init := es[..|es| - 1];
      var last := es[|es| - 1];
      MapOfSize(init);
      MapOfMissing(init, last.key);
      assert MapOf(es).Keys == MapOf(init).Keys + {last.key};
    }
  }

  /** `size()` counts the pairs of all leaves, which is the number of keys
      stored: no key is held twice. */
  lemma SizeIsCount(t: TreeState)
    requires Valid(t)
    ensures |Entries(t)| == |Contents(t)|
  {
    EntriesSorted(t);
    MapOfSize(Entries(t));
  }

  /** `rangeQuery` keeps exactly the pairs with `lo <= key <= hi`. */
  lemma {:induction false} InRangeMembers(es: seq<Entry>, lo: int, hi: int, e: Entry)
    ensures e in InRange(es, lo, hi) <==> e in es && lo <= e.key <= hi
    decreases |es|
  {
    if es != [] {
      InRangeMembers(es[1..], lo, hi, e);
      assert es == [es[0]] + es[1..];
    }
  }

  /** ... and keeps them in ascending key order. */
  lemma {:induction false} InRangeSorted(es: seq<Entry>, lo: int, hi: int)
    requires KeysSorted(es)
    ensures KeysSorted(InRange(es, lo, hi))
    decreases |es|
  {
    if es != [] {
      InRangeSorted(es[1..], lo, hi);
      var rest := InRange(es[1..], lo, hi);
      forall j | 0 <= j < |rest| ensures es[0].key < rest[j].key {
        InRangeMembers(es[1..], lo, hi, rest[j]);
        var k :| 0 <= k < |es[1..]| && es[1..][k] == rest[j];
        assert es[1 + k] == rest[j];
      }
    }
  }

  /** `rangeQuery` moves on from leaf `q` to leaf `q + 1` after going
      through all of leaf `q`. */
  lemma RangeNext(t: TreeState, q: nat, lo: int, hi: int)
    requires Valid(t) && q < |t.chain|
    ensures var x := t.chain[q];
      x < |t.nodes| && t.nodes[x].Leaf? && |t.nodes[x].keys| == |t.nodes[x].values|
      && t.nodes[x].next == (if q + 1 < |t.chain| then Some(t.chain[q + 1]) else None)
      && InRange(ChainEntries(t.nodes, t.chain[..q + 1]), lo, hi)
         == InRange(ChainEntries(t.nodes, t.chain[..q]) + Zip(t.nodes[x].keys, t.nodes[x].values)[..|t.nodes[x].keys|], lo, hi)
  {
    ChainStep(t, q);
    var x := t.chain[q];
    var z := Zip(t.nodes[x].keys, t.nodes[x].values);
    assert z[..|t.nodes[x].keys|] == z;
  }

  /** One turn of `rangeQuery`'s inner loop: the pair at position `i` is
      added when its key lies in [lo, hi]. */
  lemma RangeStep(pre: seq<Entry>, z: seq<Entry>, i: nat, lo: int, hi: int)
    requires i < |z|
    ensures lo <= z[i].key <= hi ==> InRange(pre + z[..i + 1], lo, hi) == InRange(pre + z[..i], lo, hi) + [z[i]]
    ensures !(lo <= z[i].key <= hi) ==> InRange(pre + z[..i + 1], lo, hi) == InRange(pre + z[..i], lo, hi)
  {
    assert pre + z[..i + 1] == (pre + z[..i]) + [z[i]];
    InRangeAppend(pre + z[..i], [z[i]], lo, hi);
  }

  /** `rangeQuery` starts at the leaf that `findLeafNode(lo)` reaches; the
      leaves before it hold only keys below `lo`. */
  lemma RangeStart(t: TreeState, lo: int, hi: int)
    requires Valid(t)
    ensures Descend(t, t.root, lo) in t.chain
    ensures InRange(ChainEntries(t.nodes, t.chain[..IndexOf(t.chain, Descend(t, t.root, lo))]), lo, hi) == []
  {
    var x := Descend(t, t.root, lo);
    DescendWithin(t, t.root, lo);
    assert x in t.chain;
    var q := IndexOf(t.chain, x);
    BeforeLeaf(t, q, lo);
    var pre := ChainEntries(t.nodes, t.chain[..q]);
    forall i | 0 <= i < |pre| ensures pre[i].key < lo || pre[i].key > hi {
      assert pre[i] in pre;
    }
    InRangeNone(pre, lo, hi);
  }

  /** In a list with ascending keys, nothing from the first key above `hi`
      on lies in [lo, hi]. */
  lemma RangeCut(es: seq<Entry>, p: nat, lo: int, hi: int)
    requires KeysSorted(es) && p < |es| && es[p].key > hi
    ensures InRange(es, lo, hi) == InRange(es[..p], lo, hi)
  {
    var rest := es[p..];
    assert es == es[..p] + rest;
    forall k | 0 <= k < |rest| ensures rest[k].key < lo || rest[k].key > hi {
      assert rest[k] == es[p + k];
    }
    InRangeNone(rest, lo, hi);
    InRangeAppend(es[..p], rest, lo, hi);
  }

  lemma ConcatAt(a: seq<Entry>, b: seq<Entry>, c: seq<Entry>, i: nat)
    requires i < |b|
    ensures (a + b + c)[..|a| + i] == a + b[..i] && (a + b + c)[|a| + i] == b[i]
  {
    assert (a + b + c)[..|a| + i] == a + b[..i];
  }

  /** Once `rangeQuery` meets a key above `hi` at position `i` of leaf `q`,
      no later pair is in range: it may return what it has. */
  lemma RangeStop(t: TreeState, q: nat, i: nat, lo: int, hi: int)
    requires Valid(t) && q < |t.chain|
    requires var x := t.chain[q]; x < |t.nodes| && i < |t.nodes[x].keys| && t.nodes[x].keys[i] > hi
    ensures t.nodes[t.chain[q]].Leaf?
    ensures var x := t.chain[q];
      |t.nodes[x].keys| == |t.nodes[x].values|
      && InRange(Entries(t), lo, hi)
         == InRange(ChainEntries(t.nodes, t.chain[..q]) + Zip(t.nodes[x].keys, t.nodes[x].values)[..i], lo, hi)
  {
    var x := t.chain[q];
    assert LinkAt(t, q);
    assert NodeOrder(t, x, None);
    ChainPrefix(t, q);
    EntriesSorted(t);
    CutAt(ChainEntries(t.nodes, t.chain[..q]), Zip(t.nodes[x].keys, t.nodes[x].values),
      ChainEntries(t.nodes, t.chain[q + 1..]), i, lo, hi);
  }

  /** The cut of `RangeCut` at position `i` of the middle part of a list. */
  lemma CutAt(pre: seq<Entry>, z: seq<Entry>, suf: seq<Entry>, i: nat, lo: int, hi: int)
    requires KeysSorted(pre + z + suf) && i < |z| && z[i].key > hi
    ensures InRange(pre + z + suf, lo, hi) == InRange(pre + z[..i], lo, hi)
  {
    ConcatAt(pre, z, suf, i);
    RangeCut(pre + z + suf, |pre| + i, lo, hi);
  }

  /** The leaf `rangeQuery` visits at step `q` of the chain. */
  lemma RangeLeaf(t: TreeState, q: nat)
    requires Valid(t) && q < |t.chain|
    ensures var x := t.chain[q];
      x < |t.nodes| && t.nodes[x].Leaf? && |t.nodes[x].keys| == |t.nodes[x].values|
      && t.nodes[x].next == (if q + 1 < |t.chain| then Some(t.chain[q + 1]) else None)
  {
    assert LinkAt(t, q);
    assert NodeOrder(t, t.chain[q], None);
  }

  /** After `rangeQuery`'s pass over leaf `q` stopped at position `stop`:
      if it met a key above `hi`, what it collected is the whole answer;
      otherwise it is the answer for the leaves up to and including `q`. */
  lemma RangeAfter(t: TreeState, q: nat, stop: nat, lo: int, hi: int)
    requires Valid(t) && q < |t.chain|
    requires var x := t.chain[q]; x < |t.nodes| && t.nodes[x].Leaf? && |t.nodes[x].keys| == |t.nodes[x].values|
    requires var ks := t.nodes[t.chain[q]].keys; stop <= |ks| && (stop < |ks| ==> ks[stop] > hi)
    ensures var x := t.chain[q];
      var r := InRange(ChainEntries(t.nodes, t.chain[..q]) + Zip(t.nodes[x].keys, t.nodes[x].values)[..stop], lo, hi);
      if stop < |t.nodes[x].keys| then InRange(Entries(t), lo, hi) == r
      else InRange(ChainEntries(t.nodes, t.chain[..q + 1]), lo, hi) == r
  {
    if stop < |t.nodes[t.chain[q]].keys| {
      RangeStop(t, q, stop, lo, hi);
    } else {
      RangeNext(t, q, lo, hi);
    }
  }

  // ---------------------------------------------------------------------
  // isEmpty
  // ---------------------------------------------------------------------

  /** The chain and every leaf on it are as they were: what splitting and
      growing internal nodes leaves alone. */
  predicate LeavesKept(t: TreeState, t': TreeState) {
    t'.chain == t.chain
    && forall i :: 0 <= i < |t.chain| ==>
         t.chain[i] < |t.nodes| && t.chain[i] < |t'.nodes| && t'.nodes[t.chain[i]] == t.nodes[t.chain[i]]
  }

  lemma LeavesKeptTrans(a: TreeState, b: TreeState, c: TreeState)
    requires LeavesKept(a, b) && LeavesKept(b, c)
    ensures LeavesKept(a, c)
  {
  }

  /** Rewriting one internal node and appending nodes keeps the leaves. */
  lemma LeavesKeptInternal(t: TreeState, t': TreeState, p: nat)
    requires Sized(t) && Chained(t) && p < |t.nodes| && t.nodes[p].Internal?
    requires t'.chain == t.chain && |t'.nodes| >= |t.nodes|
    requires forall n :: 0 <= n < |t.nodes| && n != p ==> t'.nodes[n] == t.nodes[n]
    ensures LeavesKept(t, t')
  {
    forall i | 0 <= i < |t.chain|
      ensures t.chain[i] < |t.nodes| && t'.nodes[t.chain[i]] == t.nodes[t.chain[i]]
    {
      assert LinkAt(t, i);
    }
  }

  lemma LeavesKeptGrow(t: TreeState, x: nat, y: nat, s: int)
    requires Sized(t) && Chained(t) && x < |t.nodes| && y < |t.nodes|
    ensures LeavesKept(t, Grow(t, x, y, s))
  {
  }

  /** No leaf is empty, unless the tree is a single leaf. Inserts keep this;
      deletes do not, as they never merge or drop a leaf. */
  predicate Packed(t: TreeState) {
    |t.chain| == 1
    || forall i :: 0 <= i < |t.chain| ==> t.chain[i] < |t.nodes| && |t.nodes[t.chain[i]].keys| > 0
  }

  /** In a packed tree `isEmpty()`, which looks at the first leaf only,
      answers whether the tree stores no pair. */
  lemma PackedIsEmpty(t: TreeState)
    requires Valid(t) && Packed(t)
    ensures |t.nodes[t.firstLeaf].keys| == 0 <==> Entries(t) == []
  {
    assert LinkAt(t, 0);
    assert NodeOrder(t, t.firstLeaf, None);
    ChainPrefix(t, 0);
    assert t.chain[..0] == [];
    assert |LeafEntries(t.nodes, t.firstLeaf)| == |t.nodes[t.firstLeaf].keys|;
    if |t.chain| == 1 {
      assert t.chain[1..] == [];
    }
  }

  lemma PackedEmpty(order: nat)
    requires order >= 3
    ensures Packed(Empty(order))
  {
  }

  /** A successful `LeafNode.insert` keeps the tree packed. */
  lemma PackedPut(t: TreeState, x: nat, ks: seq<int>, vs: seq<int>)
    requires Valid(t) && Packed(t) && x < |t.nodes| && t.nodes[x].Leaf?
    requires |ks| >= |t.nodes[x].keys| && |ks| > 0
    ensures Packed(WithLeaf(t, x, ks, vs))
  {
    var t' := WithLeaf(t, x, ks, vs);
    forall i | 0 <= i < |t'.chain| ensures t'.chain[i] < |t'.nodes| {
      assert LinkAt(t, i);
    }
  }

  /** Splitting a full leaf keeps the tree packed: both halves keep pairs. */
  lemma PackedSplitLeaf(t: TreeState, x: nat)
    requires Valid(t) && Packed(t) && x < |t.nodes| && FullLeaf(t, x)
    ensures Splittable(t, x) && Packed(SplitLeafState(t, x))
  {
    FullLeafFacts(t, x);
    var t' := SplitLeafState(t, x);
    var q := IndexOf(t.chain, x);
    var y := |t.nodes|;
    assert t'.chain == t.chain[..q + 1] + [y] + t.chain[q + 1..];
    forall i | 0 <= i < |t'.chain| ensures t'.chain[i] < |t'.nodes| && |t'.nodes[t'.chain[i]].keys| > 0 {
      if i <= q {
        assert t'.chain[i] == t.chain[i];
        assert LinkAt(t, i);
      } else if i > q + 1 {
        assert t'.chain[i] == t.chain[i - 1];
        assert LinkAt(t, i - 1);
        assert Distinct(t.chain);
      }
      if |t.chain| > 1 && t'.chain[i] != x && t'.chain[i] != y {
        assert i <= q ==> t.chain[i] == t'.chain[i];
      }
    }
  }

  /** Changes that leave the chain and its leaves alone keep the tree
      packed. */
  lemma PackedFrame(t: TreeState, t': TreeState)
    requires Packed(t) && LeavesKept(t, t')
    ensures Packed(t')
  {
  }

  /** Inserting 1 and 2 into an empty tree of order 3 fills the root leaf;
      3 then meets a full leaf, which is split. */
  lemma MisreportFill(a: int, b: int)
    ensures var t2 := Put(Put(Empty(3), 1, a), 2, b);
      Valid(t2) && t2 == OneLeaf(3, [1, 2], [a, b]) && !Fits(t2, 3)
      && FullLeaf(t2, 0)
  {
    assert Empty(3) == OneLeaf(3, [], []);
    PutOneLeaf(3, [], [], 1, a, [1], [a]);
    assert InsertPos([1], 2) == 1 by { InsertPosIs([1], 2, 1); }
    PutOneLeaf(3, [1], [a], 2, b, [1, 2], [a, b]);
    var t2 := OneLeaf(3, [1, 2], [a, b]);
    PutRoot(t2, 3, a);
    LostInsert(t2, 3);
  }

  /** ... the split leaves 1 and 2 in two leaves ... */
  lemma MisreportSplitState(a: int, b: int)
    ensures Splittable(OneLeaf(3, [1, 2], [a, b]), 0)
    ensures SplitLeafState(OneLeaf(3, [1, 2], [a, b]), 0)
      == TreeState(3, 0, 0, [Leaf([1], [a], Some(1)), Leaf([2], [b], None)],
                         [Meta(None, Some(2), 0, 0), Meta(Some(2), None, 0, 0)], [0, 1])
  {
    var t2 := OneLeaf(3, [1, 2], [a, b]);
    assert IndexOf(t2.chain, 0) == 0;
    var ks, vs := [1, 2], [a, b];
    assert ks[..1] == [1] && ks[1..] == [2] && vs[..1] == [a] && vs[1..] == [b];
    assert t2.chain[..1] + [1] + t2.chain[1..] == [0, 1];
    var t3 := SplitLeafState(t2, 0);
    assert t3.nodes == [Leaf([1], [a], Some(1)), Leaf([2], [b], None)];
    assert t3.meta == [Meta(None, Some(2), 0, 0), Meta(Some(2), None, 0, 0)];
  }

  lemma MisreportSplit(a: int, b: int)
    ensures Pending(TreeState(3, 0, 0, [Leaf([1], [a], Some(1)), Leaf([2], [b], None)],
                         [Meta(None, Some(2), 0, 0), Meta(Some(2), None, 0, 0)], [0, 1]), 0, 1, 2, 0)
  {
    MisreportFill(a, b);
    MisreportSplitState(a, b);
    SplitLeafPending(OneLeaf(3, [1, 2], [a, b]), 0, 0);
  }

  /** ... under a new root ... */
  lemma MisreportGrow(a: int, b: int)
    ensures var t3 := TreeState(3, 0, 0, [Leaf([1], [a], Some(1)), Leaf([2], [b], None)],
                                [Meta(None, Some(2), 0, 0), Meta(Some(2), None, 0, 0)], [0, 1]);
      Pending(t3, 0, 1, 2, 0)
      && var t4 := Grow(t3, 0, 1, 2);
      Valid(t4) && t4.chain == [0, 1] && t4.root == 2
      && t4.nodes == [Leaf([1], [a], Some(1)), Leaf([2], [b], None), Internal([2], [0, 1])]
  {
    MisreportSplit(a, b);
    var t3 := TreeState(3, 0, 0, [Leaf([1], [a], Some(1)), Leaf([2], [b], None)],
                        [Meta(None, Some(2), 0, 0), Meta(Some(2), None, 0, 0)], [0, 1]);
    GrowValid(t3, 0, 1, 2, 0);
  }

  /** ... and deleting 1 empties the first leaf, which stays in place. The
      result is a valid tree whose first leaf is empty while it still
      stores key 2, so there `isEmpty()` answers true and `size()` 1. */
  lemma IsEmptyMisreports(a: int, b: int)
    ensures var t3 := TreeState(3, 0, 0, [Leaf([1], [a], Some(1)), Leaf([2], [b], None)],
                                [Meta(None, Some(2), 0, 0), Meta(Some(2), None, 0, 0)], [0, 1]);
      var t4 := Grow(t3, 0, 1, 2);
      Valid(t4) && Descend(t4, t4.root, 1) == 0 && t4.nodes[0].Leaf? && t4.nodes[0].keys == [1]
      && 1 in Contents(t4) && Remove(t4, 1) == RemoveAt(t4, 0, 0)
      && var t5 := RemoveAt(t4, 0, 0);
      Valid(t5) && t5.nodes[t5.firstLeaf].keys == [] && Entries(t5) == [Entry(2, b)]
  {
    MisreportGrow(a, b);
    var t3 := TreeState(3, 0, 0, [Leaf([1], [a], Some(1)), Leaf([2], [b], None)],
                        [Meta(None, Some(2), 0, 0), Meta(Some(2), None, 0, 0)], [0, 1]);
    var t4 := Grow(t3, 0, 1, 2);
    assert RoutePos([2], 1) == 0;
    assert Descend(t4, 2, 1) == Descend(t4, 0, 1);
    LeafLookup(t4, 1);
    RemoveLeaf(t4, 0, 0);
    var t5 := RemoveAt(t4, 0, 0);
    assert t5.nodes[0] == Leaf([], [], Some(1));
    assert Entries(t5) == LeafEntries(t5.nodes, 0) + ChainEntries(t5.nodes, [1]);
    ChainEntriesOne(t5.nodes, 1);
  }
}
