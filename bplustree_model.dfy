/** The B+ tree of `BPlusTree.java` as a value: an arena of nodes addressed
    by index, where a leaf's `next` is the index of the leaf to its right.
    Beside the nodes the value carries ghost bookkeeping that the Java
    objects leave implicit: for every node the key interval it is
    responsible for, its height and its parent, and the leaves in link
    order (`chain`). `Inv` is the B+ tree invariant over all of it; the
    transition functions are the list surgery that `insert`, `split`,
    `insertIntoParent` and `delete` perform, and the lemmas show which
    transitions keep the invariant and what they do to the stored map. */
module BPlusTreeModel {
  import opened Common

  // ---------------------------------------------------------------------
  // State
  // ---------------------------------------------------------------------

  /** `LeafNode` (keys, values, next) or `InternalNode` (keys, children). */
  datatype Node =
    | Leaf(keys: seq<int>, values: seq<int>, next: Option<nat>)
    | Internal(keys: seq<int>, children: seq<nat>)

  /** One `Map.Entry<K, V>` of `getAll` and `rangeQuery`. */
  datatype Entry = Entry(key: int, value: int)

  /** Bookkeeping for one node: keys below it lie in [lo, hi) (an absent
      bound is unbounded), its height above the leaves, and its parent. */
  datatype Meta = Meta(lo: Option<int>, hi: Option<int>, height: nat, parent: nat)

  datatype TreeState = TreeState(
    order: nat,
    root: nat,
    firstLeaf: nat,
    nodes: seq<Node>,
    meta: seq<Meta>,
    chain: seq<nat>)

  // ---------------------------------------------------------------------
  // Basic vocabulary
  // ---------------------------------------------------------------------

  predicate StrictlySorted(ks: seq<int>) {
    forall i, j :: 0 <= i < j < |ks| ==> ks[i] < ks[j]
  }

  predicate Distinct(s: seq<nat>) {
    forall i, j :: 0 <= i < j < |s| ==> s[i] != s[j]
  }

  /** `k` is not below the lower bound `lo`. */
  predicate AtLeast(lo: Option<int>, k: int) {
    lo.None? || lo.value <= k
  }

  /** `k` is strictly above the lower bound `lo`. */
  predicate Above(lo: Option<int>, k: int) {
    lo.None? || lo.value < k
  }

  /** `k` is strictly below the upper bound `hi`. */
  predicate Below(hi: Option<int>, k: int) {
    hi.None? || k < hi.value
  }

  predicate Within(m: Meta, k: int) {
    AtLeast(m.lo, k) && Below(m.hi, k)
  }

  /** The lower bound of the `j`-th child of an internal node. */
  function ChildLo(n: Node, m: Meta, j: nat): Option<int>
    requires n.Internal? && j <= |n.keys|
  {
    if j == 0 then m.lo else Some(n.keys[j - 1])
  }

  /** The upper bound of the `j`-th child of an internal node. */
  function ChildHi(n: Node, m: Meta, j: nat): Option<int>
    requires n.Internal? && j <= |n.keys|
  {
    if j == |n.keys| then m.hi else Some(n.keys[j])
  }

  /** The position `findLeafNode` descends to: it advances past `ks[i]` while
      `key >= ks[i]`. */
  function RoutePos(ks: seq<int>, key: int): (i: nat)
    ensures i <= |ks|
  {
    if ks == [] || key < ks[0] then 0 else 1 + RoutePos(ks[1..], key)
  }

  /** The position `LeafNode.insert` and `insertIntoParent` insert at: they
      advance past `ks[i]` while `key > ks[i]`. */
  function InsertPos(ks: seq<int>, key: int): (i: nat)
    ensures i <= |ks|
  {
    if ks == [] || key <= ks[0] then 0 else 1 + InsertPos(ks[1..], key)
  }

  lemma {:induction false} RoutePosIs(ks: seq<int>, key: int, i: nat)
    requires i <= |ks|
    requires forall j :: 0 <= j < i ==> ks[j] <= key
    requires i < |ks| ==> key < ks[i]
    ensures RoutePos(ks, key) == i
    decreases i
  {
    if i > 0 {
      RoutePosIs(ks[1..], key, i - 1);
    }
  }

  lemma {:induction false} InsertPosIs(ks: seq<int>, key: int, i: nat)
    requires i <= |ks|
    requires forall j :: 0 <= j < i ==> ks[j] < key
    requires i < |ks| ==> key <= ks[i]
    ensures InsertPos(ks, key) == i
    decreases i
  {
    if i > 0 {
      InsertPosIs(ks[1..], key, i - 1);
    }
  }

  /** The first index of `x` in `s`. */
  function IndexOf(s: seq<nat>, x: nat): (i: nat)
    requires x in s
    ensures i < |s| && s[i] == x
    ensures forall j :: 0 <= j < i ==> s[j] != x
  {
    if s[0] == x then 0 else 1 + IndexOf(s[1..], x)
  }

  // ---------------------------------------------------------------------
  // Entries and the stored map
  // ---------------------------------------------------------------------

  /** The pairs of a leaf, `keys.get(i)` with `values.get(i)`. */
  function Zip(ks: seq<int>, vs: seq<int>): (r: seq<Entry>)
    ensures |r| == if |ks| <= |vs| then |ks| else |vs|
    ensures forall i :: 0 <= i < |r| ==> r[i] == Entry(ks[i], vs[i])
  {
    var n := if |ks| <= |vs| then |ks| else |vs|;
    seq(n, i requires 0 <= i < n => Entry(ks[i], vs[i]))
  }

  function LeafEntries(ns: seq<Node>, x: nat): seq<Entry> {
    if x < |ns| && ns[x].Leaf? then Zip(ns[x].keys, ns[x].values) else []
  }

  /** The pairs of the leaves `ch`, leaf after leaf. */
  function ChainEntries(ns: seq<Node>, ch: seq<nat>): seq<Entry>
    decreases |ch|
  {
    if ch == [] then [] else LeafEntries(ns, ch[0]) + ChainEntries(ns, ch[1..])
  }

  /** What `getAll` walks: every pair, leaf after leaf from `firstLeaf`. */
  function Entries(t: TreeState): seq<Entry> {
    ChainEntries(t.nodes, t.chain)
  }

  predicate KeysSorted(es: seq<Entry>) {
    forall i, j :: 0 <= i < j < |es| ==> es[i].key < es[j].key
  }

  /** The map that a list of pairs stands for (a later pair wins). */
  function MapOf(es: seq<Entry>): map<int, int>
    decreases |es|
  {
    if es == [] then map[] else MapOf(es[..|es| - 1])[es[|es| - 1].key := es[|es| - 1].value]
  }

  /** The abstract content of the tree: a finite map from keys to values. */
  function Contents(t: TreeState): map<int, int> {
    MapOf(Entries(t))
  }

  /** The pairs of `es` whose key lies in [lo, hi], in order. */
  function InRange(es: seq<Entry>, lo: int, hi: int): (r: seq<Entry>)
    ensures |r| <= |es|
    decreases |es|
  {
    if es == [] then []
    else (if lo <= es[0].key <= hi then [es[0]] else []) + InRange(es[1..], lo, hi)
  }

  lemma {:induction false} ChainEntriesAppend(ns: seq<Node>, a: seq<nat>, b: seq<nat>)
    ensures ChainEntries(ns, a + b) == ChainEntries(ns, a) + ChainEntries(ns, b)
    decreases |a|
  {
    if a != [] {
      assert (a + b)[1..] == a[1..] + b;
      ChainEntriesAppend(ns, a[1..], b);
    } else {
      assert a + b == b;
    }
  }

  lemma ChainEntriesThree(ns: seq<Node>, a: seq<nat>, b: seq<nat>, c: seq<nat>)
    ensures ChainEntries(ns, a + b + c) == ChainEntries(ns, a) + ChainEntries(ns, b) + ChainEntries(ns, c)
  {
    ChainEntriesAppend(ns, a + b, c);
    ChainEntriesAppend(ns, a, b);
  }

  /** Replacing the middle of a chain by leaves holding the same pairs keeps
      the pairs of the whole chain. */
  lemma ChainEntriesReplace(ns: seq<Node>, ns': seq<Node>, a: seq<nat>, b: seq<nat>, b': seq<nat>, c: seq<nat>)
    requires ChainEntries(ns, a) == ChainEntries(ns', a) && ChainEntries(ns, c) == ChainEntries(ns', c)
    requires ChainEntries(ns, b) == ChainEntries(ns', b')
    ensures ChainEntries(ns, a + b + c) == ChainEntries(ns', a + b' + c)
  {
    ChainEntriesThree(ns, a, b, c);
    ChainEntriesThree(ns', a, b', c);
  }

  lemma ChainEntriesOne(ns: seq<Node>, x: nat)
    ensures ChainEntries(ns, [x]) == LeafEntries(ns, x)
  {
    assert [x][1..] == [];
  }

  /** `ChainEntries` reads only the leaves named in the chain. */
  lemma {:induction false} ChainEntriesFrame(ns: seq<Node>, ns': seq<Node>, ch: seq<nat>)
    requires forall i :: 0 <= i < |ch| ==> ch[i] < |ns| && ch[i] < |ns'| && ns[ch[i]] == ns'[ch[i]]
    ensures ChainEntries(ns, ch) == ChainEntries(ns', ch)
    decreases |ch|
  {
    if ch != [] {
      ChainEntriesFrame(ns, ns', ch[1..]);
    }
  }

  /** Every pair of a chain comes from one of its leaves, the `p`-th. */
  lemma {:induction false} ChainEntriesFrom(ns: seq<Node>, ch: seq<nat>, k: nat) returns (p: nat)
    requires k < |ChainEntries(ns, ch)|
    ensures p < |ch| && ChainEntries(ns, ch)[k] in LeafEntries(ns, ch[p])
    decreases |ch|
  {
    var first := LeafEntries(ns, ch[0]);
    if k < |first| {
      assert ChainEntries(ns, ch)[k] == first[k];
      p := 0;
    } else {
      assert ChainEntries(ns, ch)[k] == ChainEntries(ns, ch[1..])[k - |first|];
      var r := ChainEntriesFrom(ns, ch[1..], k - |first|);
      assert ch[r + 1] == ch[1..][r];
      p := r + 1;
    }
  }

  lemma {:induction false} MapOfAppend(a: seq<Entry>, b: seq<Entry>)
    ensures MapOf(a + b) == MapOf(a) + MapOf(b)
    decreases |b|
  {
    if b == [] {
      assert a + b == a;
    } else {
      var e := b[|b| - 1];
      assert (a + b)[..|a + b| - 1] == a + b[..|b| - 1];
      MapOfAppend(a, b[..|b| - 1]);
    }
  }

  lemma {:induction false} MapOfHas(es: seq<Entry>, i: nat)
    requires i < |es|
    ensures es[i].key in MapOf(es)
    decreases |es|
  {
    if i < |es| - 1 {
      MapOfHas(es[..|es| - 1], i);
    }
  }

  lemma {:induction false} MapOfMissing(es: seq<Entry>, k: int)
    requires forall i :: 0 <= i < |es| ==> es[i].key != k
    ensures k !in MapOf(es)
    decreases |es|
  {
    if es != [] {
      MapOfMissing(es[..|es| - 1], k);
    }
  }

  /** With ascending keys, the map sends each key to its own pair's value. */
  lemma {:induction false} MapOfAt(es: seq<Entry>, i: nat)
    requires KeysSorted(es) && i < |es|
    ensures es[i].key in MapOf(es) && MapOf(es)[es[i].key] == es[i].value
    decreases |es|
  {
    if i < |es| - 1 {
      assert KeysSorted(es[..|es| - 1]);
      MapOfAt(es[..|es| - 1], i);
      assert es[..|es| - 1][i] == es[i];
    }
  }

  /** Adding a pair whose key no later pair carries updates the map. */
  lemma MapOfMiddle(a: seq<Entry>, e: Entry, b: seq<Entry>)
    requires forall i :: 0 <= i < |b| ==> b[i].key != e.key
    ensures MapOf(a + [e] + b) == MapOf(a + b)[e.key := e.value]
  {
    assert MapOf(a + [e]) == MapOf(a)[e.key := e.value] by {
      assert (a + [e])[..|a + [e]| - 1] == a;
    }
    MapOfAppend(a + [e], b);
    MapOfAppend(a, b);
    MapOfMissing(b, e.key);
    MapUpdateBefore(MapOf(a), MapOf(b), e.key, e.value);
  }

  lemma MapUpdateBefore(m: map<int, int>, n: map<int, int>, k: int, v: int)
    requires k !in n
    ensures m[k := v] + n == (m + n)[k := v]
  {
  }

  /** Dropping a pair whose key no other pair carries removes that key. */
  lemma MapOfWithout(a: seq<Entry>, e: Entry, b: seq<Entry>)
    requires forall i :: 0 <= i < |a| ==> a[i].key != e.key
    requires forall i :: 0 <= i < |b| ==> b[i].key != e.key
    ensures MapOf(a + b) == MapOf(a + [e] + b) - {e.key}
  {
    MapOfMiddle(a, e, b);
    forall i | 0 <= i < |a + b| ensures (a + b)[i].key != e.key {
      if i < |a| {
        assert (a + b)[i] == a[i];
      } else {
        assert (a + b)[i] == b[i - |a|];
      }
    }
    MapOfMissing(a + b, e.key);
    var m := MapOf(a + b);
    assert m[e.key := e.value] - {e.key} == m;
  }

  lemma {:induction false} InRangeAppend(a: seq<Entry>, b: seq<Entry>, lo: int, hi: int)
    ensures InRange(a + b, lo, hi) == InRange(a, lo, hi) + InRange(b, lo, hi)
    decreases |a|
  {
    if a == [] {
      assert a + b == b;
    } else {
      assert (a + b)[1..] == a[1..] + b;
      InRangeAppend(a[1..], b, lo, hi);
    }
  }

  /** No pair survives the range filter when all keys lie outside it. */
  lemma {:induction false} InRangeNone(es: seq<Entry>, lo: int, hi: int)
    requires forall i :: 0 <= i < |es| ==> es[i].key < lo || es[i].key > hi
    ensures InRange(es, lo, hi) == []
    decreases |es|
  {
    if es != [] {
      InRangeNone(es[1..], lo, hi);
    }
  }

  // ---------------------------------------------------------------------
  // The invariant
  // ---------------------------------------------------------------------

  predicate Sized(t: TreeState) {
    t.order >= 3 && |t.meta| == |t.nodes| && t.root < |t.nodes| && t.firstLeaf < |t.nodes|
  }

  /** Leaves sit at height 0; an internal node has one more child than keys,
      no child twice, and a positive height. */
  predicate NodeShape(t: TreeState, n: nat)
    requires Sized(t) && n < |t.nodes|
  {
    match t.nodes[n]
    case Leaf(_, _, nx) => t.meta[n].height == 0 && (nx.Some? ==> nx.value < |t.nodes|)
    case Internal(ks, cs) => |cs| == |ks| + 1 && t.meta[n].height > 0 && Distinct(cs)
  }

  /** The `j`-th child of `n` exists, is not the root, sits one level below
      `n` and records `n` as its parent. */
  predicate ChildShape(t: TreeState, n: nat, j: nat)
    requires Sized(t) && n < |t.nodes| && t.nodes[n].Internal? && j < |t.nodes[n].children|
  {
    var c := t.nodes[n].children[j];
    c < |t.nodes| && c != t.root && t.meta[c].height + 1 == t.meta[n].height && t.meta[c].parent == n
  }

  /** The recorded parent of `n` lists `n` among its children. */
  predicate Linked(t: TreeState, n: nat)
    requires Sized(t) && n < |t.nodes|
  {
    var p := t.meta[n].parent;
    p < |t.nodes| && t.nodes[p].Internal? && n in t.nodes[p].children
  }

  /** The tree's skeleton. An `orphan` is a node just split off and not yet
      hung below a parent: it is exempt from being linked and from sitting
      below the root, and no node lists it as a child yet. */
  predicate Shape(t: TreeState, orphan: Option<nat>) {
    Sized(t)
    && (forall n :: 0 <= n < |t.nodes| ==> NodeShape(t, n))
    && (forall n, j :: 0 <= n < |t.nodes| && t.nodes[n].Internal? && 0 <= j < |t.nodes[n].children| ==>
          ChildShape(t, n, j))
    && (forall n :: 0 <= n < |t.nodes| && n != t.root && orphan != Some(n) ==>
          t.meta[n].height < t.meta[t.root].height && Linked(t, n))
    && (orphan.Some? ==> forall n :: 0 <= n < |t.nodes| && t.nodes[n].Internal? ==>
          orphan.value !in t.nodes[n].children)
  }

  /** The number of keys node `n` may hold: `order - 1`, or `order` for the
      one internal node that `insertIntoParent` has just grown. */
  function Capacity(t: TreeState, n: nat, relaxed: Option<nat>): nat
    requires t.order >= 1
  {
    if relaxed == Some(n) then t.order else t.order - 1
  }

  /** Keys are ascending and inside the node's interval (strictly inside for
      separators); a leaf has one value per key and at most `order - 1`. */
  predicate NodeOrder(t: TreeState, n: nat, relaxed: Option<nat>)
    requires Sized(t) && n < |t.nodes|
  {
    match t.nodes[n]
    case Leaf(ks, vs, _) =>
      |ks| == |vs| && |ks| <= t.order - 1 && StrictlySorted(ks)
      && forall i :: 0 <= i < |ks| ==> Within(t.meta[n], ks[i])
    case Internal(ks, _) =>
      |ks| <= Capacity(t, n, relaxed) && StrictlySorted(ks)
      && forall i :: 0 <= i < |ks| ==> Above(t.meta[n].lo, ks[i]) && Below(t.meta[n].hi, ks[i])
  }

  /** The `j`-th child of `n` is responsible for the keys between the
      separators on either side of it. */
  predicate ChildBounds(t: TreeState, n: nat, j: nat) {
    Sized(t) && n < |t.nodes| && t.nodes[n].Internal?
    && j < |t.nodes[n].children| && j <= |t.nodes[n].keys| && t.nodes[n].children[j] < |t.nodes|
    && t.meta[t.nodes[n].children[j]].lo == ChildLo(t.nodes[n], t.meta[n], j)
    && t.meta[t.nodes[n].children[j]].hi == ChildHi(t.nodes[n], t.meta[n], j)
  }

  predicate Ordered(t: TreeState, relaxed: Option<nat>)
    requires Sized(t)
  {
    forall n :: 0 <= n < |t.nodes| ==> NodeOrder(t, n, relaxed)
  }

  predicate Bounded(t: TreeState) {
    forall n, j :: 0 <= n < |t.nodes| && t.nodes[n].Internal? && 0 <= j < |t.nodes[n].children| ==>
      ChildBounds(t, n, j)
  }

  /** The root answers for every key. */
  predicate RootOpen(t: TreeState)
    requires Sized(t)
  {
    t.meta[t.root].lo.None? && t.meta[t.root].hi.None?
  }

  /** The `i`-th leaf of the chain links to the `i + 1`-th (the last to null). */
  predicate LinkAt(t: TreeState, i: nat)
    requires Sized(t) && i < |t.chain|
  {
    t.chain[i] < |t.nodes| && t.nodes[t.chain[i]].Leaf?
    && t.nodes[t.chain[i]].next == (if i + 1 < |t.chain| then Some(t.chain[i + 1]) else None)
  }

  /** The interval of the `i`-th leaf ends where the `j`-th begins, or before. */
  predicate Separated(t: TreeState, i: nat, j: nat) {
    i < |t.chain| && j < |t.chain| && t.chain[i] < |t.meta| && t.chain[j] < |t.meta|
    && t.meta[t.chain[i]].hi.Some? && t.meta[t.chain[j]].lo.Some?
    && t.meta[t.chain[i]].hi.value <= t.meta[t.chain[j]].lo.value
  }

  /** The leaves, each once, linked from `firstLeaf` in ascending key order. */
  predicate Chained(t: TreeState)
    requires Sized(t)
  {
    |t.chain| >= 1 && t.chain[0] == t.firstLeaf
    && (forall i :: 0 <= i < |t.chain| ==> t.chain[i] < |t.nodes|)
    && (forall i :: 0 <= i < |t.chain| ==> LinkAt(t, i))
    && Distinct(t.chain)
    && (forall n :: 0 <= n < |t.nodes| && t.nodes[n].Leaf? ==> n in t.chain)
    && (forall i, j :: 0 <= i < j < |t.chain| ==> Separated(t, i, j))
  }

  /** The B+ tree invariant, with `relaxed` naming the one node allowed to
      hold `order` keys while `insertIntoParent` is at work. */
  predicate Inv(t: TreeState, relaxed: Option<nat>) {
    Shape(t, None) && RootOpen(t) && Ordered(t, relaxed) && Bounded(t) && Chained(t)
  }

  predicate Valid(t: TreeState) {
    Inv(t, None)
  }

  /** A tree of one empty leaf, as the constructor builds it. */
  function Empty(order: nat): (t: TreeState)
    requires order >= 3
    ensures Valid(t) && Entries(t) == []
  {
    TreeState(order, 0, 0, [Leaf([], [], None)], [Meta(None, None, 0, 0)], [0])
  }

  // ---------------------------------------------------------------------
  // Descent and lookup
  // ---------------------------------------------------------------------

  lemma RoutePosFacts(ks: seq<int>, key: int)
    ensures forall j :: 0 <= j < RoutePos(ks, key) ==> ks[j] <= key
    ensures RoutePos(ks, key) < |ks| ==> key < ks[RoutePos(ks, key)]
  {
  }

  /** The leaf `findLeafNode` reaches from `n`. */
  function Descend(t: TreeState, n: nat, key: int): (r: nat)
    requires Shape(t, None) && n < |t.nodes|
    ensures r < |t.nodes| && t.nodes[r].Leaf?
    decreases t.meta[n].height
  {
    assert NodeShape(t, n);
    match t.nodes[n]
    case Leaf(_, _, _) => n
    case Internal(ks, cs) =>
      var j := RoutePos(ks, key);
      assert ChildShape(t, n, j);
      Descend(t, cs[j], key)
  }

  /** The leaf reached for `key` is responsible for `key`. */
  lemma {:induction false} DescendWithin(t: TreeState, n: nat, key: int)
    requires Shape(t, None) && Bounded(t) && n < |t.nodes| && Within(t.meta[n], key)
    ensures Within(t.meta[Descend(t, n, key)], key)
    decreases t.meta[n].height
  {
    assert NodeShape(t, n);
    if t.nodes[n].Internal? {
      var ks, cs := t.nodes[n].keys, t.nodes[n].children;
      var j := RoutePos(ks, key);
      RoutePosFacts(ks, key);
      assert ChildShape(t, n, j) && ChildBounds(t, n, j);
      DescendWithin(t, cs[j], key);
    }
  }

  lemma LeafWithin(t: TreeState, x: nat, e: Entry)
    requires Sized(t) && Ordered(t, None) && x < |t.nodes| && e in LeafEntries(t.nodes, x)
    ensures Within(t.meta[x], e.key)
  {
    assert NodeOrder(t, x, None);
    var z := LeafEntries(t.nodes, x);
    var i :| 0 <= i < |z| && z[i] == e;
  }

  /** Every pair of the chain segment [a, b) lies inside one of its leaves,
      the `p`-th of the chain. */
  lemma SegmentWithin(t: TreeState, a: nat, b: nat, k: nat) returns (p: nat)
    requires Sized(t) && Ordered(t, None) && (forall i :: 0 <= i < |t.chain| ==> t.chain[i] < |t.nodes|)
    requires a <= b <= |t.chain|
    requires k < |ChainEntries(t.nodes, t.chain[a..b])|
    ensures a <= p < b && t.chain[p] < |t.meta|
    ensures Within(t.meta[t.chain[p]], ChainEntries(t.nodes, t.chain[a..b])[k].key)
  {
    var seg := t.chain[a..b];
    var i := ChainEntriesFrom(t.nodes, seg, k);
    assert seg[i] == t.chain[a + i];
    assert t.chain[a + i] < |t.nodes|;
    LeafWithin(t, seg[i], ChainEntries(t.nodes, seg)[k]);
    p := a + i;
  }

  /** The pairs split around the `q`-th leaf. */
  lemma Decompose(ns: seq<Node>, ch: seq<nat>, q: nat)
    requires q < |ch|
    ensures ChainEntries(ns, ch)
      == ChainEntries(ns, ch[..q]) + LeafEntries(ns, ch[q]) + ChainEntries(ns, ch[q + 1..])
  {
    assert ch == ch[..q] + ([ch[q]] + ch[q + 1..]);
    ChainEntriesAppend(ns, ch[..q], [ch[q]] + ch[q + 1..]);
    assert ([ch[q]] + ch[q + 1..])[1..] == ch[q + 1..];
  }

  /** The pair `k` of the leaves before the `q`-th has a smaller key than
      any key that leaf answers for. */
  lemma BeforeOne(t: TreeState, q: nat, key: int, k: nat)
    requires Sized(t) && Ordered(t, None) && Chained(t)
    requires q < |t.chain| && t.chain[q] < |t.meta| && Within(t.meta[t.chain[q]], key)
    requires k < |ChainEntries(t.nodes, t.chain[..q])|
    ensures ChainEntries(t.nodes, t.chain[..q])[k].key < key
  {
    assert t.chain[..q] == t.chain[0..q];
    var p := SegmentWithin(t, 0, q, k);
    assert Separated(t, p, q);
  }

  /** Pairs before the `q`-th leaf have smaller keys than any key the leaf
      answers for. */
  lemma BeforeLeaf(t: TreeState, q: nat, key: int)
    requires Sized(t) && Ordered(t, None) && Chained(t)
    requires q < |t.chain| && Within(t.meta[t.chain[q]], key)
    ensures forall e :: e in ChainEntries(t.nodes, t.chain[..q]) ==> e.key < key
  {
    var pre := ChainEntries(t.nodes, t.chain[..q]);
    forall e | e in pre ensures e.key < key {
      var k :| 0 <= k < |pre| && pre[k] == e;
      BeforeOne(t, q, key, k);
    }
  }

  /** The pair `k` of the leaves after the `q`-th has a larger key than
      any key that leaf answers for. */
  lemma AfterOne(t: TreeState, q: nat, key: int, k: nat)
    requires Sized(t) && Ordered(t, None) && Chained(t)
    requires q < |t.chain| && t.chain[q] < |t.meta| && Within(t.meta[t.chain[q]], key)
    requires k < |ChainEntries(t.nodes, t.chain[q + 1..])|
    ensures ChainEntries(t.nodes, t.chain[q + 1..])[k].key > key
  {
    assert t.chain[q + 1..] == t.chain[q + 1..|t.chain|];
    var p := SegmentWithin(t, q + 1, |t.chain|, k);
    assert Separated(t, q, p);
  }

  /** Pairs after the `q`-th leaf have larger keys than any key the leaf
      answers for. */
  lemma AfterLeaf(t: TreeState, q: nat, key: int)
    requires Sized(t) && Ordered(t, None) && Chained(t)
    requires q < |t.chain| && Within(t.meta[t.chain[q]], key)
    ensures forall e :: e in ChainEntries(t.nodes, t.chain[q + 1..]) ==> e.key > key
  {
    var suf := ChainEntries(t.nodes, t.chain[q + 1..]);
    forall e | e in suf ensures e.key > key {
      var k :| 0 <= k < |suf| && suf[k] == e;
      AfterOne(t, q, key, k);
    }
  }

  /** Around a list of pairs, pairs with smaller keys before it and larger
      ones after it do not change what the map says about `key`. */
  lemma MapOfAround(pre: seq<Entry>, z: seq<Entry>, suf: seq<Entry>, key: int)
    requires forall e :: e in pre ==> e.key < key
    requires forall e :: e in suf ==> e.key > key
    ensures (key in MapOf(pre + z + suf) <==> key in MapOf(z))
    ensures key in MapOf(z) ==> MapOf(pre + z + suf)[key] == MapOf(z)[key]
  {
    MapOfAppend(pre + z, suf);
    MapOfAppend(pre, z);
    forall i | 0 <= i < |pre| ensures pre[i].key != key {
      assert pre[i] in pre;
    }
    forall i | 0 <= i < |suf| ensures suf[i].key != key {
      assert suf[i] in suf;
    }
    MapOfMissing(pre, key);
    MapOfMissing(suf, key);
  }

  /** The map of a leaf's pairs holds exactly its keys, each with the
      value beside it. */
  lemma ZipLookup(ks: seq<int>, vs: seq<int>, key: int)
    requires StrictlySorted(ks) && |ks| == |vs|
    ensures (key in MapOf(Zip(ks, vs)) <==> key in ks)
    ensures forall i :: 0 <= i < |ks| && ks[i] == key ==> MapOf(Zip(ks, vs))[key] == vs[i]
  {
    var z := Zip(ks, vs);
    assert KeysSorted(z);
    if key in ks {
      var i :| 0 <= i < |ks| && ks[i] == key;
      MapOfHas(z, i);
    } else {
      MapOfMissing(z, key);
    }
    forall i | 0 <= i < |ks| && ks[i] == key ensures MapOf(z)[key] == vs[i] {
      MapOfAt(z, i);
    }
  }

  /** What `search` reads in the leaf is what the tree stores. */
  lemma LeafLookup(t: TreeState, key: int)
    requires Valid(t)
    ensures var x := Descend(t, t.root, key);
      (key in Contents(t) <==> key in t.nodes[x].keys)
      && forall i :: 0 <= i < |t.nodes[x].keys| && t.nodes[x].keys[i] == key ==>
           i < |t.nodes[x].values| && Contents(t)[key] == t.nodes[x].values[i]
  {
    var x := Descend(t, t.root, key);
    DescendWithin(t, t.root, key);
    var q := IndexOf(t.chain, x);
    BeforeLeaf(t, q, key);
    AfterLeaf(t, q, key);
    Decompose(t.nodes, t.chain, q);
    assert NodeOrder(t, x, None);
    var ks, vs := t.nodes[x].keys, t.nodes[x].values;
    assert LeafEntries(t.nodes, x) == Zip(ks, vs);
    MapOfAround(ChainEntries(t.nodes, t.chain[..q]), Zip(ks, vs), ChainEntries(t.nodes, t.chain[q + 1..]), key);
    ZipLookup(ks, vs, key);
  }

  lemma ConcatSorted(a: seq<Entry>, b: seq<Entry>)
    requires KeysSorted(a) && KeysSorted(b)
    requires forall i, j :: 0 <= i < |a| && 0 <= j < |b| ==> a[i].key < b[j].key
    ensures KeysSorted(a + b)
  {
  }

  lemma {:induction false} SuffixSorted(t: TreeState, a: nat)
    requires Valid(t) && a <= |t.chain|
    ensures KeysSorted(ChainEntries(t.nodes, t.chain[a..]))
    decreases |t.chain| - a
  {
    if a < |t.chain| {
      SuffixSorted(t, a + 1);
      var x := t.chain[a];
      var z := LeafEntries(t.nodes, x);
      var rest := ChainEntries(t.nodes, t.chain[a + 1..]);
      assert t.chain[a..][1..] == t.chain[a + 1..];
      assert ChainEntries(t.nodes, t.chain[a..]) == z + rest;
      assert NodeOrder(t, x, None);
      forall i, j | 0 <= i < |z| && 0 <= j < |rest| ensures z[i].key < rest[j].key {
        LeafWithin(t, x, z[i]);
        AfterLeaf(t, a, z[i].key);
        assert rest[j] in rest;
      }
      ConcatSorted(z, rest);
    }
  }

  /** `getAll` lists the pairs in strictly ascending key order. */
  lemma EntriesSorted(t: TreeState)
    requires Valid(t)
    ensures KeysSorted(Entries(t))
  {
    SuffixSorted(t, 0);
    assert t.chain[0..] == t.chain;
  }

  // ---------------------------------------------------------------------
  // Changing one leaf in place
  // ---------------------------------------------------------------------

  lemma InsertPosFacts(ks: seq<int>, key: int)
    ensures forall j :: 0 <= j < InsertPos(ks, key) ==> ks[j] < key
    ensures InsertPos(ks, key) < |ks| ==> key <= ks[InsertPos(ks, key)]
  {
  }

  /** The keys of a leaf after `LeafNode.insert` succeeds. */
  function PutKeys(ks: seq<int>, key: int): seq<int> {
    var i := InsertPos(ks, key);
    if i < |ks| && ks[i] == key then ks else ks[..i] + [key] + ks[i..]
  }

  /** The values of a leaf after `LeafNode.insert` succeeds. */
  function PutValues(ks: seq<int>, vs: seq<int>, key: int, v: int): seq<int>
    requires |ks| == |vs|
  {
    var i := InsertPos(ks, key);
    if i < |ks| && ks[i] == key then vs[i := v] else vs[..i] + [v] + vs[i..]
  }

  lemma ZipUpdate(ks: seq<int>, vs: seq<int>, i: nat, v: int)
    requires StrictlySorted(ks) && |ks| == |vs| && i < |ks|
    ensures MapOf(Zip(ks, vs[i := v])) == MapOf(Zip(ks, vs))[ks[i] := v]
  {
    var z := Zip(ks, vs);
    var e := Entry(ks[i], v);
    var a, b := z[..i], z[i + 1..];
    assert z == a + [z[i]] + b;
    assert Zip(ks, vs[i := v]) == z[i := e];
    assert z[i := e] == a + [e] + b;
    forall j | 0 <= j < |b| ensures b[j].key != ks[i] {
      assert b[j] == z[i + 1 + j];
    }
    MapOfMiddle(a, z[i], b);
    MapOfMiddle(a, e, b);
    MapUpdateTwice(MapOf(a + b), ks[i], vs[i], v);
  }

  lemma MapUpdateTwice(m: map<int, int>, k: int, u: int, v: int)
    ensures m[k := u][k := v] == m[k := v]
  {
  }

  lemma ZipInsert(ks: seq<int>, vs: seq<int>, i: nat, key: int, v: int)
    requires |ks| == |vs| && i <= |ks|
    requires forall j :: i <= j < |ks| ==> ks[j] != key
    ensures MapOf(Zip(ks[..i] + [key] + ks[i..], vs[..i] + [v] + vs[i..])) == MapOf(Zip(ks, vs))[key := v]
  {
    var z := Zip(ks, vs);
    var e := Entry(key, v);
    assert Zip(ks[..i] + [key] + ks[i..], vs[..i] + [v] + vs[i..]) == z[..i] + [e] + z[i..];
    assert z == z[..i] + z[i..];
    MapOfMiddle(z[..i], e, z[i..]);
  }

  lemma InsertSorted(ks: seq<int>, i: nat, key: int)
    requires StrictlySorted(ks) && i <= |ks|
    requires forall j :: 0 <= j < i ==> ks[j] < key
    requires i < |ks| ==> key < ks[i]
    ensures StrictlySorted(ks[..i] + [key] + ks[i..])
    ensures forall k :: k in ks[..i] + [key] + ks[i..] <==> k in ks || k == key
  {
    var ks' := ks[..i] + [key] + ks[i..];
    forall a, b | 0 <= a < b < |ks'| ensures ks'[a] < ks'[b] {
      if b < i {
      } else if a < i && b == i {
      } else if a < i {
        assert ks'[b] == ks[b - 1];
      } else if a == i {
        assert ks'[b] == ks[b - 1];
      } else {
        assert ks'[a] == ks[a - 1] && ks'[b] == ks[b - 1];
      }
    }
    assert ks == ks[..i] + ks[i..];
  }

  /** The two ways `LeafNode.insert` succeeds, at the position its loop
      stops at: overwrite the value of a stored key, or insert a new one. */
  lemma PutCases(ks: seq<int>, vs: seq<int>, key: int, v: int)
    requires StrictlySorted(ks) && |ks| == |vs|
    ensures var i := InsertPos(ks, key);
      (i < |ks| && ks[i] == key <==> key in ks)
      && (key in ks ==> PutKeys(ks, key) == ks && PutValues(ks, vs, key, v) == vs[i := v])
      && (key !in ks ==> PutKeys(ks, key) == ks[..i] + [key] + ks[i..]
                         && PutValues(ks, vs, key, v) == vs[..i] + [v] + vs[i..])
  {
    var i := InsertPos(ks, key);
    InsertPosFacts(ks, key);
    if key in ks {
      var k :| 0 <= k < |ks| && ks[k] == key;
      assert i <= k;
      assert ks[i] <= ks[k];
    }
  }

  /** `LeafNode.insert` keeps the leaf sorted, adds the key at most once, and
      makes the leaf map `key` to `v`, leaving every other key alone. */
  lemma LeafPut(ks: seq<int>, vs: seq<int>, key: int, v: int)
    requires StrictlySorted(ks) && |ks| == |vs|
    ensures var ks' := PutKeys(ks, key);
      StrictlySorted(ks') && |ks'| == |PutValues(ks, vs, key, v)|
      && (forall k :: k in ks' <==> k in ks || k == key)
      && |ks'| == (if key in ks then |ks| else |ks| + 1)
      && MapOf(Zip(ks', PutValues(ks, vs, key, v))) == MapOf(Zip(ks, vs))[key := v]
  {
    var i := InsertPos(ks, key);
    InsertPosFacts(ks, key);
    if i < |ks| && ks[i] == key {
      ZipUpdate(ks, vs, i, v);
    } else {
      InsertSorted(ks, i, key);
      ZipInsert(ks, vs, i, key, v);
      assert forall j :: 0 <= j < |ks| ==> ks[j] != key;
    }
  }

  lemma RemoveSorted(ks: seq<int>, i: nat)
    requires StrictlySorted(ks) && i < |ks|
    ensures StrictlySorted(ks[..i] + ks[i + 1..])
    ensures forall k :: k in ks[..i] + ks[i + 1..] <==> k in ks && k != ks[i]
  {
    var ks' := ks[..i] + ks[i + 1..];
    forall a, b | 0 <= a < b < |ks'| ensures ks'[a] < ks'[b] {
      if b < i {
      } else if a < i {
        assert ks'[b] == ks[b + 1];
      } else {
        assert ks'[a] == ks[a + 1] && ks'[b] == ks[b + 1];
      }
    }
    forall k ensures k in ks' <==> k in ks && k != ks[i] {
      if k in ks && k != ks[i] {
        var j :| 0 <= j < |ks| && ks[j] == k;
        if j < i { assert ks'[j] == k; } else { assert ks'[j - 1] == k; }
      }
    }
  }

  lemma ZipRemove(ks: seq<int>, vs: seq<int>, i: nat)
    requires StrictlySorted(ks) && |ks| == |vs| && i < |ks|
    ensures MapOf(Zip(ks[..i] + ks[i + 1..], vs[..i] + vs[i + 1..])) == MapOf(Zip(ks, vs)) - {ks[i]}
  {
    var z := Zip(ks, vs);
    assert Zip(ks[..i] + ks[i + 1..], vs[..i] + vs[i + 1..]) == z[..i] + z[i + 1..];
    assert z == z[..i] + [z[i]] + z[i + 1..];
    MapOfWithout(z[..i], z[i], z[i + 1..]);
  }

  /** Removing the `i`-th pair of a leaf, as `delete` does. */
  lemma LeafRemove(ks: seq<int>, vs: seq<int>, i: nat)
    requires StrictlySorted(ks) && |ks| == |vs| && i < |ks|
    ensures var ks' := ks[..i] + ks[i + 1..];
      StrictlySorted(ks') && |ks'| == |vs[..i] + vs[i + 1..]|
      && (forall k :: k in ks' <==> k in ks && k != ks[i])
      && MapOf(Zip(ks', vs[..i] + vs[i + 1..])) == MapOf(Zip(ks, vs)) - {ks[i]}
  {
    RemoveSorted(ks, i);
    ZipRemove(ks, vs, i);
  }

  /** The tree with the pairs of leaf `x` replaced. */
  function WithLeaf(t: TreeState, x: nat, ks: seq<int>, vs: seq<int>): TreeState
    requires x < |t.nodes| && t.nodes[x].Leaf?
  {
    t.(nodes := t.nodes[x := Leaf(ks, vs, t.nodes[x].next)])
  }

  /** Replacing a leaf's pairs by sorted pairs it answers for, no more than
      `order - 1` of them, keeps the invariant. */
  lemma WithLeafValid(t: TreeState, x: nat, ks: seq<int>, vs: seq<int>)
    requires Valid(t) && x < |t.nodes| && t.nodes[x].Leaf?
    requires |ks| == |vs| <= t.order - 1 && StrictlySorted(ks)
    requires forall i :: 0 <= i < |ks| ==> Within(t.meta[x], ks[i])
    ensures Valid(WithLeaf(t, x, ks, vs))
  {
    var t' := WithLeaf(t, x, ks, vs);
    forall n | 0 <= n < |t'.nodes| ensures NodeShape(t', n) && NodeOrder(t', n, None) {
      assert NodeShape(t, n) && NodeOrder(t, n, None);
    }
    forall n, j | 0 <= n < |t'.nodes| && t'.nodes[n].Internal? && 0 <= j < |t'.nodes[n].children|
      ensures ChildShape(t', n, j) && ChildBounds(t', n, j)
    {
      assert ChildShape(t, n, j) && ChildBounds(t, n, j);
    }
    forall n | 0 <= n < |t'.nodes| && n != t'.root
      ensures t'.meta[n].height < t'.meta[t'.root].height && Linked(t', n)
    {
      assert Linked(t, n);
    }
    forall i | 0 <= i < |t'.chain| ensures LinkAt(t', i) {
      assert LinkAt(t, i);
    }
    forall n | 0 <= n < |t'.nodes| && t'.nodes[n].Leaf? ensures n in t'.chain {
      assert t.nodes[n].Leaf?;
    }
    forall i, j | 0 <= i < j < |t'.chain| ensures Separated(t', i, j) {
      assert Separated(t, i, j);
    }
  }

  /** The stored map, split around the `q`-th leaf of a chain. */
  lemma SplitMap(ns: seq<Node>, ch: seq<nat>, q: nat)
    requires q < |ch|
    ensures MapOf(ChainEntries(ns, ch)) == MapOf(ChainEntries(ns, ch[..q]))
      + MapOf(LeafEntries(ns, ch[q])) + MapOf(ChainEntries(ns, ch[q + 1..]))
  {
    var pre := ChainEntries(ns, ch[..q]);
    var z := LeafEntries(ns, ch[q]);
    var suf := ChainEntries(ns, ch[q + 1..]);
    Decompose(ns, ch, q);
    MapOfAppend(pre + z, suf);
    MapOfAppend(pre, z);
  }

  /** The leaves before and after `x` in the chain are untouched by
      `WithLeaf`. */
  lemma WithLeafFrame(t: TreeState, x: nat, ks: seq<int>, vs: seq<int>, q: nat)
    requires Sized(t) && Chained(t) && q < |t.chain| && t.chain[q] == x && t.nodes[x].Leaf?
    ensures ChainEntries(t.nodes, t.chain[..q]) == ChainEntries(WithLeaf(t, x, ks, vs).nodes, t.chain[..q])
    ensures ChainEntries(t.nodes, t.chain[q + 1..]) == ChainEntries(WithLeaf(t, x, ks, vs).nodes, t.chain[q + 1..])
  {
    var ns' := WithLeaf(t, x, ks, vs).nodes;
    assert Distinct(t.chain);
    ChainEntriesFrame(t.nodes, ns', t.chain[..q]);
    ChainEntriesFrame(t.nodes, ns', t.chain[q + 1..]);
  }

  /** Replacing the pairs of the leaf answering for `key` changes the stored
      map only through that leaf's own map. */
  lemma WithLeafContents(t: TreeState, x: nat, ks: seq<int>, vs: seq<int>, key: int)
    requires Valid(t) && x < |t.nodes| && t.nodes[x].Leaf? && Within(t.meta[x], key)
    ensures var q := IndexOf(t.chain, x);
      var pre := MapOf(ChainEntries(t.nodes, t.chain[..q]));
      var suf := MapOf(ChainEntries(t.nodes, t.chain[q + 1..]));
      key !in pre && key !in suf
      && Contents(t) == pre + MapOf(Zip(t.nodes[x].keys, t.nodes[x].values)) + suf
      && Contents(WithLeaf(t, x, ks, vs)) == pre + MapOf(Zip(ks, vs)) + suf
  {
    assert x in t.chain by { assert Chained(t); }
    var q := IndexOf(t.chain, x);
    var t' := WithLeaf(t, x, ks, vs);
    var pre := ChainEntries(t.nodes, t.chain[..q]);
    var suf := ChainEntries(t.nodes, t.chain[q + 1..]);
    BeforeLeaf(t, q, key);
    AfterLeaf(t, q, key);
    MapOfMissing(pre, key);
    MapOfMissing(suf, key);
    WithLeafFrame(t, x, ks, vs, q);
    SplitMap(t.nodes, t.chain, q);
    SplitMap(t'.nodes, t.chain, q);
    assert LeafEntries(t.nodes, x) == Zip(t.nodes[x].keys, t.nodes[x].values);
    assert LeafEntries(t'.nodes, x) == Zip(ks, vs);
    assert Contents(t') == MapOf(ChainEntries(t'.nodes, t.chain));
  }

  lemma MapUpdateMiddle(a: map<int, int>, b: map<int, int>, c: map<int, int>, k: int, v: int)
    requires k !in c
    ensures a + b[k := v] + c == (a + b + c)[k := v]
  {
  }

  lemma MapRemoveMiddle(a: map<int, int>, b: map<int, int>, c: map<int, int>, k: int)
    requires k !in a && k !in c
    ensures a + (b - {k}) + c == (a + b + c) - {k}
  {
  }

  /** A successful `LeafNode.insert` in the leaf answering for `key` makes
      the tree map `key` to `v`. */
  lemma PutContents(t: TreeState, x: nat, key: int, v: int)
    requires Valid(t) && x < |t.nodes| && t.nodes[x].Leaf? && Within(t.meta[x], key)
    ensures |t.nodes[x].keys| == |t.nodes[x].values|
    ensures Contents(WithLeaf(t, x, PutKeys(t.nodes[x].keys, key),
              PutValues(t.nodes[x].keys, t.nodes[x].values, key, v))) == Contents(t)[key := v]
  {
    assert NodeOrder(t, x, None);
    var ks, vs := t.nodes[x].keys, t.nodes[x].values;
    LeafPut(ks, vs, key, v);
    WithLeafContents(t, x, PutKeys(ks, key), PutValues(ks, vs, key, v), key);
    var q := IndexOf(t.chain, x);
    MapUpdateMiddle(MapOf(ChainEntries(t.nodes, t.chain[..q])), MapOf(Zip(ks, vs)),
      MapOf(ChainEntries(t.nodes, t.chain[q + 1..])), key, v);
  }

  /** Removing the `i`-th pair of the leaf answering for its key removes that
      key from the tree. */
  lemma RemoveContents(t: TreeState, x: nat, i: nat)
    requires Valid(t) && x < |t.nodes| && t.nodes[x].Leaf? && i < |t.nodes[x].keys|
    ensures |t.nodes[x].keys| == |t.nodes[x].values|
    ensures var ks, vs := t.nodes[x].keys, t.nodes[x].values;
      Contents(WithLeaf(t, x, ks[..i] + ks[i + 1..], vs[..i] + vs[i + 1..])) == Contents(t) - {ks[i]}
  {
    assert NodeOrder(t, x, None);
    var ks, vs := t.nodes[x].keys, t.nodes[x].values;
    LeafRemove(ks, vs, i);
    WithLeafContents(t, x, ks[..i] + ks[i + 1..], vs[..i] + vs[i + 1..], ks[i]);
    var q := IndexOf(t.chain, x);
    MapRemoveMiddle(MapOf(ChainEntries(t.nodes, t.chain[..q])), MapOf(Zip(ks, vs)),
      MapOf(ChainEntries(t.nodes, t.chain[q + 1..])), ks[i]);
  }
}
