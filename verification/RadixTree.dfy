/**
  The radix tree of tree/radix-tree/radix-tree.c: a trie over the digits of an unsigned index
  that grows in height, for any digit width and any greatest height.

  A node is known by its level and by the digits above it: level 0 are the items themselves.
 */
module RadixTree {
  import opened Common

  const INDEX_BITS := 32
  const ALL_ONES := 0xFFFF_FFFF

  type Index = i: nat | i <= ALL_ONES

  // ---------- Digits ----------

  // x >> n
  function Shr(x: nat, n: nat): nat { if n == 0 then x else Shr(x / 2, n - 1) }

  // x & ((1 << n) - 1)
  function Low(x: nat, n: nat): (r: nat)
    ensures r < Pow2(n)
  {
    if n == 0 then 0 else x % 2 + 2 * Low(x / 2, n - 1)
  }

  lemma {:induction false} ShrAdd(x: nat, a: nat, b: nat)
    ensures Shr(x, a + b) == Shr(Shr(x, a), b)
    decreases a
  {
    if a > 0 {
      ShrAdd(x / 2, a - 1, b);
    }
  }

  lemma {:induction false} ShrZero(x: nat, n: nat)
    ensures Shr(x, n) == 0 <==> x < Pow2(n)
  {
    if n > 0 {
      ShrZero(x / 2, n - 1);
    }
  }

  // A number is determined by its last digit and the ones above it
  lemma {:induction false} Digits(x: nat, y: nat, n: nat)
    requires Shr(x, n) == Shr(y, n) && Low(x, n) == Low(y, n)
    ensures x == y
  {
    if n > 0 {
      assert x % 2 == y % 2;
      Digits(x / 2, y / 2, n - 1);
    }
  }

  lemma {:induction false} ZeroDigits(n: nat)
    ensures Shr(0, n) == 0 && Low(0, n) == 0
  {
    if n > 0 {
      ZeroDigits(n - 1);
    }
  }

  lemma {:induction false} ShrOnes(m: nat, n: nat)
    requires n <= m
    ensures Shr(Pow2(m) - 1, n) == Pow2(m - n) - 1
  {
    if n > 0 {
      assert (Pow2(m) - 1) / 2 == Pow2(m - 1) - 1;
      ShrOnes(m - 1, n - 1);
    }
  }

  // __maxindex
  function MaxIndex(height: nat, shift: nat): nat {
    var tmp := height * shift;
    if tmp >= INDEX_BITS then ALL_ONES else Shr(Shr(ALL_ONES, INDEX_BITS - tmp - 1), 1)
  }

  lemma WordIsPow2()
    ensures Pow2(INDEX_BITS) == ALL_ONES + 1
  {
    assert Pow2(8) == 256;
    assert Pow2(16) == 256 * Pow2(8);
    assert Pow2(24) == 256 * Pow2(16);
    assert Pow2(32) == 256 * Pow2(24);
  }

  // The indices of a tree of that height are those without a digit above it
  lemma MaxIndexFits(index: Index, height: nat, shift: nat)
    ensures index <= MaxIndex(height, shift) <==> Shr(index, height * shift) == 0
  {
    var tmp := height * shift;
    ShrZero(index, tmp);
    WordIsPow2();
    if tmp >= INDEX_BITS {
      Pow2Grows(INDEX_BITS, tmp);
    } else {
      ShrAdd(ALL_ONES, INDEX_BITS - tmp - 1, 1);
      ShrOnes(INDEX_BITS, INDEX_BITS - tmp);
    }
  }

  // ---------- Places ----------

  datatype Key = Key(level: nat, prefix: nat)

  function Up(k: Key, shift: nat): Key { Key(k.level + 1, Shr(k.prefix, shift)) }

  // Where the path to an index passes a level
  function On(index: nat, level: nat, shift: nat): Key { Key(level, Shr(index, level * shift)) }

  lemma OnUp(index: nat, level: nat, shift: nat)
    ensures Up(On(index, level, shift), shift) == On(index, level + 1, shift)
    ensures On(index, 0, shift) == Key(0, index)
  {
    ShrAdd(index, level * shift, shift);
    assert (level + 1) * shift == level * shift + shift;
  }

  // ---------- Nodes ----------

  class RNode {
    var count: nat
    var slots: seq<object?>

    constructor (size: nat)
      ensures count == 0 && |slots| == size && forall i :: 0 <= i < size ==> slots[i] == null
    {
      count := 0;
      slots := seq(size, _ => null);
    }
  }

  function NonNull(s: seq<object?>): nat {
    if s == [] then 0 else NonNull(s[..|s| - 1]) + if s[|s| - 1] == null then 0 else 1
  }

  lemma {:induction false} NonNullNone(s: seq<object?>)
    requires forall i :: 0 <= i < |s| ==> s[i] == null
    ensures NonNull(s) == 0
  {
    if s != [] {
      NonNullNone(s[..|s| - 1]);
    }
  }

  lemma {:induction false} NonNullPut(s: seq<object?>, i: nat, v: object)
    requires i < |s| && s[i] == null
    ensures NonNull(s[i := v]) == NonNull(s) + 1
  {
    var u := s[i := v];
    if i == |s| - 1 {
      assert u[..|s| - 1] == s[..|s| - 1];
    } else {
      NonNullPut(s[..|s| - 1], i, v);
      assert u[..|s| - 1] == s[..|s| - 1][i := v];
    }
  }

  // ---------- Tables: which nodes and items there are ----------

  type Nodes = map<Key, RNode>
  type Items = map<nat, object>

  ghost function Get(nodes: Nodes, items: Items, k: Key): object? {
    if k.level == 0 then if k.prefix in items then items[k.prefix] else null
    else if k in nodes then nodes[k] else null
  }

  ghost predicate Present(nodes: Nodes, items: Items, k: Key) { Get(nodes, items, k) != null }

  // Whatever there is has a place above it, up to the root
  ghost predicate Rooted(nodes: Nodes, items: Items, height: nat, shift: nat) {
    && (forall k {:trigger Present(nodes, items, k)} :: Present(nodes, items, k) && k.level != height ==>
      k.level < height && Up(k, shift) in nodes)
    && (forall k :: k in nodes ==> 1 <= k.level)
    && (forall k :: Present(nodes, items, k) && k.level == height ==> k.prefix == 0 && height >= 1)
  }

  ghost predicate Distinct(nodes: Nodes) {
    forall j, k :: j in nodes && k in nodes && j != k ==> nodes[j] != nodes[k]
  }

  // Above an item or a node on the path to an index all nodes of the path are there
  lemma {:induction false} PathPresent(nodes: Nodes, items: Items, height: nat, shift: nat, index: nat, level: nat,
    top: nat)
    requires Rooted(nodes, items, height, shift) && level <= top <= height &&
      Present(nodes, items, On(index, level, shift))
    ensures Present(nodes, items, On(index, top, shift)) && (top == height ==> Shr(index, height * shift) == 0)
    decreases top - level
  {
    if level < top {
      OnUp(index, level, shift);
      assert Up(On(index, level, shift), shift) in nodes;
      PathPresent(nodes, items, height, shift, index, level + 1, top);
    }
  }

  ghost function NodeSet(nodes: Nodes): set<RNode> { set k | k in nodes :: nodes[k] }

  // The slots of the node at place `at` are what the tables say, and `count` counts those in use
  ghost predicate Filled(n: RNode, at: Key, nodes: Nodes, items: Items, shift: nat)
    reads n
  {
    && |n.slots| == Pow2(shift) && n.count == NonNull(n.slots)
    && forall k {:trigger Up(k, shift)} :: Up(k, shift) == at ==> n.slots[Low(k.prefix, shift)] == Get(nodes, items, k)
  }

  ghost predicate AllFilled(nodes: Nodes, items: Items, shift: nat)
    reads NodeSet(nodes)
  {
    forall at :: at in nodes ==> Filled(nodes[at], at, nodes, items, shift)
  }

  // ---------- Changing the tables ----------

  ghost function WithNode(nodes: Nodes, k: Key, v: object): Nodes {
    if k.level > 0 && v is RNode then nodes[k := v as RNode] else nodes
  }
  ghost function WithItem(items: Items, k: Key, v: object): Items {
    if k.level == 0 then items[k.prefix := v] else items
  }

  // `v` is put at a free place `k`: an item, or a node that is not there yet
  ghost predicate CanPut(nodes: Nodes, items: Items, k: Key, v: object) {
    && !Present(nodes, items, k)
    && (k.level > 0 ==> v is RNode && forall j :: j in nodes ==> nodes[j] != v)
  }

  lemma GetPut(nodes: Nodes, items: Items, k: Key, v: object, j: Key)
    requires CanPut(nodes, items, k, v)
    ensures Get(WithNode(nodes, k, v), WithItem(items, k, v), j) == if j == k then v else Get(nodes, items, j)
  {
  }

  lemma RootedPut(nodes: Nodes, items: Items, height: nat, shift: nat, k: Key, v: object)
    requires Rooted(nodes, items, height, shift) && CanPut(nodes, items, k, v) && height >= 1
    requires if k.level == height then k.prefix == 0 else k.level < height && Up(k, shift) in nodes
    ensures Rooted(WithNode(nodes, k, v), WithItem(items, k, v), height, shift)
  {
    var nodes', items' := WithNode(nodes, k, v), WithItem(items, k, v);
    forall j {:trigger Present(nodes', items', j)} | Present(nodes', items', j) && j.level != height
      ensures j.level < height && Up(j, shift) in nodes' {
      GetPut(nodes, items, k, v, j);
      assert j == k || Present(nodes, items, j);
    }
    forall j | Present(nodes', items', j) && j.level == height ensures j.prefix == 0 {
      GetPut(nodes, items, k, v, j);
    }
  }

  lemma DistinctPut(nodes: Nodes, items: Items, k: Key, v: object)
    requires Distinct(nodes) && CanPut(nodes, items, k, v)
    ensures Distinct(WithNode(nodes, k, v))
  {
  }

  // A node elsewhere does not see the change
  lemma FilledElsewhere(n: RNode, at: Key, nodes: Nodes, items: Items, shift: nat, k: Key, v: object)
    requires Filled(n, at, nodes, items, shift) && CanPut(nodes, items, k, v) && at != Up(k, shift)
    ensures Filled(n, at, WithNode(nodes, k, v), WithItem(items, k, v), shift)
  {
    forall j {:trigger Up(j, shift)} | Up(j, shift) == at
      ensures n.slots[Low(j.prefix, shift)] == Get(WithNode(nodes, k, v), WithItem(items, k, v), j) {
      GetPut(nodes, items, k, v, j);
    }
  }

  // The slots of the node above it, before and after
  lemma SlotsPut(s: seq<object?>, nodes: Nodes, items: Items, shift: nat, k: Key, v: object)
    requires |s| == Pow2(shift) && CanPut(nodes, items, k, v)
    requires forall j {:trigger Up(j, shift)} :: Up(j, shift) == Up(k, shift) ==>
      s[Low(j.prefix, shift)] == Get(nodes, items, j)
    ensures var i := Low(k.prefix, shift); s[i] == null && NonNull(s[i := v]) == NonNull(s) + 1
    ensures forall j {:trigger Up(j, shift)} :: Up(j, shift) == Up(k, shift) ==>
      s[Low(k.prefix, shift) := v][Low(j.prefix, shift)] == Get(WithNode(nodes, k, v), WithItem(items, k, v), j)
  {
    var i := Low(k.prefix, shift);
    assert s[i] == Get(nodes, items, k) by { assert Up(k, shift) == Up(k, shift); }
    NonNullPut(s, i, v);
    forall j {:trigger Up(j, shift)} | Up(j, shift) == Up(k, shift)
      ensures s[i := v][Low(j.prefix, shift)] == Get(WithNode(nodes, k, v), WithItem(items, k, v), j)
    {
      GetPut(nodes, items, k, v, j);
      if Low(j.prefix, shift) == i {
        Digits(j.prefix, k.prefix, shift);
      }
    }
  }

  // A new node is empty, and nothing is below it yet
  lemma FilledNew(n: RNode, nodes: Nodes, items: Items, height: nat, shift: nat, k: Key)
    requires Rooted(nodes, items, height, shift) && CanPut(nodes, items, k, n) && 1 <= k.level <= height
    requires |n.slots| == Pow2(shift) && n.count == 0 && forall i :: 0 <= i < |n.slots| ==> n.slots[i] == null
    ensures Filled(n, k, WithNode(nodes, k, n), WithItem(items, k, n), shift)
  {
    NonNullNone(n.slots);
    forall j {:trigger Up(j, shift)} | Up(j, shift) == k
      ensures Get(WithNode(nodes, k, n), WithItem(items, k, n), j) == null {
      GetPut(nodes, items, k, n, j);
      assert !Present(nodes, items, j);
    }
  }

  // ---------- struct radix_tree_head ----------

  class Head {
    const shift: nat          // RADIX_TREE_MAP_SHIFT
    const maxPath: nat        // RADIX_TREE_MAX_PATH
    var height: nat
    var rnode: RNode?
    var heightToMaxIndex: seq<nat>
    ghost var nodes: Nodes
    ghost var items: Items    // what the tree maps indices to

    ghost predicate Shape()
      reads this
    {
      && shift >= 1 && height < maxPath == |heightToMaxIndex|
      && (forall h :: 0 <= h < maxPath ==> heightToMaxIndex[h] == MaxIndex(h, shift))
      && Rooted(nodes, items, height, shift) && Distinct(nodes)
      && rnode == if Key(height, 0) in nodes then nodes[Key(height, 0)] else null
    }

    /** Every slot holds what the tables say, and every count is the number of slots in use. */
    ghost predicate Valid()
      reads this, NodeSet(nodes)
    {
      Shape() && AllFilled(nodes, items, shift)
    }

    // radix_tree_head_new and radix_tree_initial
    constructor (shift: nat, maxPath: nat)
      requires shift >= 1 && maxPath >= 1
      ensures Valid() && items == map[] && this.shift == shift && this.maxPath == maxPath
    {
      this.shift, this.maxPath := shift, maxPath;
      height, rnode := 0, null;
      heightToMaxIndex := seq(maxPath, h requires 0 <= h < maxPath => MaxIndex(h, shift));
      nodes, items := map[], map[];
    }

    // ---------- Lookup ----------

    lemma NotBelow(index: nat, level: nat)
      requires Shape() && level <= height && !Present(nodes, items, On(index, level, shift))
      ensures index !in items
    {
      if index in items {
        OnUp(index, 0, shift);
        PathPresent(nodes, items, height, shift, index, 0, level);
      }
    }

    lemma AboveRange(index: Index)
      requires Shape()
      ensures index in items ==> index <= heightToMaxIndex[height] && height >= 1
      ensures index <= heightToMaxIndex[height] ==> On(index, height, shift) == Key(height, 0)
    {
      MaxIndexFits(index, height, shift);
      if index in items {
        OnUp(index, 0, shift);
        PathPresent(nodes, items, height, shift, index, 0, height);
      }
    }

    lemma SlotOn(index: nat, level: nat)
      requires Valid() && level + 1 <= height && On(index, level + 1, shift) in nodes
      ensures var n := nodes[On(index, level + 1, shift)];
        |n.slots| == Pow2(shift) && n.slots[Low(Shr(index, level * shift), shift)]
          == Get(nodes, items, On(index, level, shift))
    {
      OnUp(index, level, shift);
      assert Filled(nodes[On(index, level + 1, shift)], On(index, level + 1, shift), nodes, items, shift);
    }

    /** radix_tree_lookup */
    method Lookup(index: Index) returns (r: object?)
      requires Valid()
      ensures r == if index in items then items[index] else null
    {
      hide Rooted, Distinct, MaxIndex, Shr;
      AboveRange(index);
      if index > heightToMaxIndex[height] {
        return null;
      }
      var h := height;
      var slot: object? := rnode;
      RootSlot();
      while h > 0
        invariant 0 <= h <= height && slot == Get(nodes, items, On(index, h, shift))
      {
        if slot == null {
          NotBelow(index, h);
          return null;
        }
        SlotOn(index, h - 1);
        var node := slot as RNode;
        slot := node.slots[Low(Shr(index, (h - 1) * shift), shift)];
        h := h - 1;
      }
      OnUp(index, 0, shift);
      r := slot;
    }

    lemma RootSlot()
      requires Shape()
      ensures rnode == Get(nodes, items, Key(height, 0))
    {
      if height == 0 && 0 in items {
        assert Present(nodes, items, Key(0, 0));
      }
    }

    // ---------- Growing ----------

    // One more level on top
    method Grow()
      requires Valid() && rnode != null && height + 1 < maxPath
      modifies this`rnode, this`height, this`nodes
      ensures Valid() && height == old(height) + 1 && rnode != null && items == old(items)
      ensures fresh(NodeSet(nodes) - old(NodeSet(nodes)))
    {
      hide Filled, MaxIndex, Shr, Low, Rooted, Distinct;
      var node := new RNode(Pow2(shift));
      node.slots := node.slots[0 := rnode];
      node.count := 1;
      ghost var top := Key(height + 1, 0);
      GrownRooted(node);
      GrownFilled(node);
      rnode := node;
      height := height + 1;
      nodes := nodes[top := node];
    }

    lemma GrownRooted(node: RNode)
      requires Shape() && rnode != null && node !in NodeSet(nodes)
      ensures Rooted(nodes[Key(height + 1, 0) := node], items, height + 1, shift) &&
        Distinct(nodes[Key(height + 1, 0) := node])
    {
      var nodes' := nodes[Key(height + 1, 0) := node];
      forall k {:trigger Present(nodes', items, k)} | Present(nodes', items, k) && k.level != height + 1
        ensures k.level < height + 1 && Up(k, shift) in nodes' {
        assert Present(nodes, items, k);
        if k.level == height {
          ZeroDigits(shift);
          assert Up(k, shift) == Key(height + 1, 0);
        }
      }
      forall k | Present(nodes', items, k) && k.level == height + 1 ensures k.prefix == 0 {
        assert !Present(nodes, items, k);
      }
      forall j, k | j in nodes' && k in nodes' && j != k ensures nodes'[j] != nodes'[k] {
        assert j in nodes ==> nodes[j] in NodeSet(nodes);
        assert k in nodes ==> nodes[k] in NodeSet(nodes);
      }
    }

    lemma GrownFilled(node: RNode)
      requires Valid() && rnode != null && node !in NodeSet(nodes)
      requires |node.slots| == Pow2(shift) && node.count == 1 && forall i :: 0 <= i < |node.slots| ==>
        node.slots[i] == if i == 0 then rnode else null
      ensures AllFilled(nodes[Key(height + 1, 0) := node], items, shift)
    {
      var top := Key(height + 1, 0);
      var nodes' := nodes[top := node];
      assert !Present(nodes, items, top);
      assert CanPut(nodes, items, top, node) by {
        assert forall j :: j in nodes ==> nodes[j] in NodeSet(nodes);
      }
      forall at | at in nodes' ensures Filled(nodes'[at], at, nodes', items, shift) {
        if at == top {
          GrownTop(node);
        } else {
          assert Present(nodes, items, at);
          FilledElsewhere(nodes[at], at, nodes, items, shift, top, node);
        }
      }
    }

    lemma GrownTop(node: RNode)
      requires Shape() && rnode != null && CanPut(nodes, items, Key(height + 1, 0), node)
      requires |node.slots| == Pow2(shift) && node.count == 1 && forall i :: 0 <= i < |node.slots| ==>
        node.slots[i] == if i == 0 then rnode else null
      ensures Filled(node, Key(height + 1, 0), nodes[Key(height + 1, 0) := node], items, shift)
    {
      var top := Key(height + 1, 0);
      var none: seq<object?> := node.slots[0 := null];
      NonNullNone(none);
      NonNullPut(none, 0, rnode);
      assert none[0 := rnode] == node.slots;
      RootSlot();
      forall j {:trigger Up(j, shift)} | Up(j, shift) == top
        ensures node.slots[Low(j.prefix, shift)] == Get(nodes[top := node], items, j)
      {
        GetPut(nodes, items, top, node, j);
        ZeroDigits(shift);
        if j.prefix != 0 {
          assert !Present(nodes, items, j);
          if Low(j.prefix, shift) == 0 {
            Digits(j.prefix, 0, shift);
          }
        }
      }
    }

    /** radix_tree_extend: the height grows to the least that has room for the index, and nothing is lost */
    method Extend(index: Index)
      requires Valid() && index <= MaxIndex(maxPath - 1, shift) && height + 1 < maxPath
      modifies this`rnode, this`height, this`nodes
      ensures Valid() && height > old(height) && index <= heightToMaxIndex[height] && items == old(items)
      ensures fresh(NodeSet(nodes) - old(NodeSet(nodes)))
    {
      hide MaxIndex, Shr, Low, Rooted, Distinct, AllFilled;
      var h := height + 1;
      while index > heightToMaxIndex[h]
        invariant height < h < maxPath
        decreases maxPath - h
      {
        h := h + 1;
      }
      if rnode != null {
        GrowTo(h);
      } else {
        NothingThere();
        height := h;
        StillNothing();
      }
    }

    // One level more on top, until there are enough
    method GrowTo(h: nat)
      requires Valid() && rnode != null && height < h < maxPath
      modifies this`rnode, this`height, this`nodes
      ensures Valid() && height == h && items == old(items)
      ensures fresh(NodeSet(nodes) - old(NodeSet(nodes)))
    {
      hide Shape, AllFilled;
      while height < h
        invariant Valid() && rnode != null && height <= h && items == old(items)
        invariant fresh(NodeSet(nodes) - old(NodeSet(nodes)))
      {
        Grow();
      }
    }

    // Without a root there is nothing
    lemma NothingThere()
      requires Shape() && rnode == null
      ensures nodes == map[] && items == map[]
    {
      forall k | k in nodes ensures false {
        var top := TopOf(k, height - k.level);
      }
      forall i | i in items ensures false {
        OnUp(i, 0, shift);
        assert Present(nodes, items, Key(0, i));
        var top := TopOf(Key(0, i), height);
      }
    }

    lemma TopOf(k: Key, steps: int) returns (top: Key)
      requires Shape() && Present(nodes, items, k) && steps == height - k.level
      ensures Present(nodes, items, top) && top == Key(height, 0) && rnode != null
      decreases steps
    {
      if k.level == height {
        top := k;
      } else {
        assert Up(k, shift) in nodes;
        top := TopOf(Up(k, shift), steps - 1);
      }
    }

    lemma StillNothing()
      requires nodes == map[] && items == map[]
      ensures Rooted(nodes, items, height, shift) && Distinct(nodes) && AllFilled(nodes, items, shift)
    {
    }

    // ---------- Insertion ----------

    // The slot on the path to the index at a level: the root pointer, or a slot of `node`
    ghost predicate AtSlot(node: RNode?, index: Index, level: nat)
      reads this
    {
      && level <= height < |heightToMaxIndex| && index <= heightToMaxIndex[height]
      && if level == height then node == null
        else On(index, level + 1, shift) in nodes && nodes[On(index, level + 1, shift)] == node
    }

    method ReadSlot(node: RNode?, i: nat, index: Index, ghost level: nat) returns (v: object?)
      requires Valid() && height >= 1 && AtSlot(node, index, level) &&
        (level < height ==> i == Low(Shr(index, level * shift), shift))
      ensures v == Get(nodes, items, On(index, level, shift))
    {
      AboveRange(index);
      RootSlot();
      if node == null {
        v := rnode;
      } else {
        SlotOn(index, level);
        v := node.slots[i];
      }
    }

    ghost predicate FreshNode(v: object)
      reads v
    {
      v is RNode && var n := v as RNode; |n.slots| == Pow2(shift) && n.count == 0 && forall i :: 0 <= i < |n.slots| ==>
        n.slots[i] == null
    }

    // A store to a slot, and the count of the node it belongs to
    method WriteSlot(node: RNode?, i: nat, v: object, index: Index, ghost level: nat)
      requires Valid() && height >= 1 && AtSlot(node, index, level) &&
        (level < height ==> i == Low(Shr(index, level * shift), shift))
      requires CanPut(nodes, items, On(index, level, shift), v) && (level > 0 ==> FreshNode(v))
      modifies this`rnode, this`nodes, this`items, NodeSet(nodes)
      ensures Valid()
      ensures nodes == WithNode(old(nodes), On(index, level, shift), v) &&
        items == WithItem(old(items), On(index, level, shift), v)
    {
      hide Shr, Low, MaxIndex, Rooted, Distinct, AllFilled;
      AboveRange(index);
      if node == null {
        WriteRoot(v);
      } else {
        OnUp(index, level, shift);
        WriteBelow(node, i, v, On(index, level, shift));
      }
    }

    method WriteRoot(v: object)
      requires Valid() && height >= 1 && CanPut(nodes, items, Key(height, 0), v) && FreshNode(v)
      modifies this`rnode, this`nodes
      ensures Valid() && nodes == WithNode(old(nodes), Key(height, 0), v)
    {
      hide Shr, Low, MaxIndex, Rooted, Distinct, Filled;
      ghost var k := Key(height, 0);
      RootedPut(nodes, items, height, shift, k, v);
      DistinctPut(nodes, items, k, v);
      PutFilled(k, v);
      NoneAbove(k);
      rnode := v as RNode;
      nodes := WithNode(nodes, k, v);
    }

    lemma NoneAbove(k: Key)
      requires Shape() && k.level == height
      ensures Up(k, shift) !in nodes
    {
      assert !Present(nodes, items, Up(k, shift));
    }

    // After the store every node but the one above it is as the tables say
    lemma PutFilled(k: Key, v: object)
      requires Valid() && height >= 1 && k.level <= height && CanPut(nodes, items, k, v) &&
        (k.level > 0 ==> FreshNode(v))
      ensures forall at :: at in WithNode(nodes, k, v) && at != Up(k, shift) ==>
        Filled(WithNode(nodes, k, v)[at], at, WithNode(nodes, k, v), WithItem(items, k, v), shift)
    {
      forall at | at in WithNode(nodes, k, v) && at != Up(k, shift)
        ensures Filled(WithNode(nodes, k, v)[at], at, WithNode(nodes, k, v), WithItem(items, k, v), shift)
      {
        if at == k && k !in nodes {
          FilledNew(v as RNode, nodes, items, height, shift, k);
        } else {
          FilledElsewhere(nodes[at], at, nodes, items, shift, k, v);
        }
      }
    }

    method WriteBelow(node: RNode, i: nat, v: object, ghost k: Key)
      requires Valid() && height >= 1 && k.level < height && Up(k, shift) in nodes && nodes[Up(k, shift)] == node
      requires i == Low(k.prefix, shift) && CanPut(nodes, items, k, v) && (k.level > 0 ==> FreshNode(v))
      modifies this`nodes, this`items, node
      ensures Valid() && nodes == WithNode(old(nodes), k, v) && items == WithItem(old(items), k, v)
    {
      hide Shr, Low, MaxIndex, Rooted, Distinct, NonNull;
      RootedPut(nodes, items, height, shift, k, v);
      DistinctPut(nodes, items, k, v);
      PutFilled(k, v);
      assert Filled(node, Up(k, shift), nodes, items, shift);
      SlotsPut(node.slots, nodes, items, shift, k, v);
      ghost var nodes', items' := WithNode(nodes, k, v), WithItem(items, k, v);
      node.slots := node.slots[i := v];
      node.count := node.count + 1;
      forall at | at in nodes' ensures Filled(nodes'[at], at, nodes', items', shift) {
        if at != Up(k, shift) {
          Others(at, Up(k, shift), nodes');
          assert old(Filled(nodes'[at], at, nodes', items', shift));
        }
      }
      nodes, items := nodes', items';
    }

    // The place an index ends at has an item exactly when the tree maps the index
    lemma AtItem(index: Index)
      ensures Get(nodes, items, On(index, 0, shift)) == if index in items then items[index] else null
    {
      OnUp(index, 0, shift);
    }

    ghost predicate PathOk(node: RNode?, i: nat, index: Index, level: nat)
      reads this
    {
      AtSlot(node, index, level) && (level < height ==> i == Low(Shr(index, level * shift), shift))
    }

    // The child at a slot of the path, made if it is not there
    method Descend(node: RNode?, i: nat, index: Index, level: nat) returns (child: RNode)
      requires Valid() && height >= 1 && level >= 1 && PathOk(node, i, index, level)
      modifies this`rnode, this`nodes, this`items, NodeSet(nodes)
      ensures Valid() && items == old(items) && AtSlot(child, index, level - 1)
      ensures fresh(NodeSet(nodes) - old(NodeSet(nodes)))
      ensures index in items ==>
        nodes == old(nodes) && rnode == old(rnode) && forall n :: n in NodeSet(nodes) ==>
          n.slots == old(n.slots) && n.count == old(n.count)
    {
      hide Shape, AllFilled, Shr, Low, MaxIndex;
      var v := ReadSlot(node, i, index, level);
      if v == null {
        InShape();
        NotBelow(index, level);
        var tmp := new RNode(Pow2(shift));
        WriteSlot(node, i, tmp, index, level);
        return tmp;
      }
      var found: object := v;
      child := found as RNode;
    }

    lemma InShape()
      requires Valid()
      ensures Shape()
    {
    }

    /** The descent of radix_tree_insert */
    method Place(index: Index, item: object) returns (r: nat)
      requires Valid() && height >= 1 && AtSlot(null, index, height)
      modifies this`rnode, this`nodes, this`items, NodeSet(nodes)
      ensures Valid() && (r == 0 || r == 1) && (r == 0 <==> index !in old(items))
      ensures r == 0 ==> items == old(items)[index := item]
      ensures r == 1 ==> items == old(items) && nodes == old(nodes) && rnode == old(rnode)
      ensures r == 1 ==> forall n :: n in old(NodeSet(nodes)) ==> n.slots == old(n.slots) && n.count == old(n.count)
    {
      hide Shape, AllFilled, Shr, Low, MaxIndex;
      var node: RNode?, i: nat, h := null, 0, height;
      while h > 0
        invariant Valid() && 0 <= h <= height && PathOk(node, i, index, h) && items == old(items)
        invariant fresh(NodeSet(nodes) - old(NodeSet(nodes)))
        invariant index in items ==> nodes == old(nodes) && rnode == old(rnode)
        invariant index in items ==>
          forall n :: n in old(NodeSet(nodes)) ==> n.slots == old(n.slots) && n.count == old(n.count)
      {
        node := Descend(node, i, index, h);
        h := h - 1;
        i := Low(Shr(index, h * shift), shift);
      }
      var v := ReadSlot(node, i, index, 0);
      AtItem(index);
      if v != null {
        return 1;
      }
      OnUp(index, 0, shift);
      WriteSlot(node, i, item, index, 0);
      r := 0;
    }

    // A table entry is zero only for height 0
    lemma MaxIndexZero()
      requires Shape()
      ensures height < |heightToMaxIndex| && (heightToMaxIndex[height] == 0 <==> height == 0) &&
        (height == 0 ==> rnode == null)
    {
      MaxIndexFits(1, height, shift);
      if height == 0 {
        RootSlot();
        assert !Present(nodes, items, Key(0, 0));
      } else {
        assert height * shift >= 1;
        assert Shr(1, height * shift) == Shr(0, height * shift - 1);
        ZeroDigits(height * shift - 1);
      }
    }

    lemma Others(at: Key, up: Key, nodes': Nodes)
      requires Distinct(nodes') && at in nodes' && up in nodes' && at != up
      ensures nodes'[at] != nodes'[up]
    {
    }

    /** radix_tree_insert of an item that is not null */
    method Insert(index: Index, item: object) returns (r: nat)
      requires Valid() && maxPath >= 2 && index <= MaxIndex(maxPath - 1, shift)
      modifies this, NodeSet(nodes)
      ensures Valid() && (r == 0 || r == 1) && (r == 0 <==> index !in old(items))
      ensures r == 0 ==> items == old(items)[index := item]
      ensures r == 1 ==> items == old(items) && nodes == old(nodes) && height == old(height) && rnode == old(rnode)
      ensures r == 1 ==> forall n :: n in old(NodeSet(nodes)) ==> n.slots == old(n.slots) && n.count == old(n.count)
    {
      hide AllFilled, Shr, Low, MaxIndex, Rooted, Distinct;
      AboveRange(index);
      MaxIndexZero();
      if index > heightToMaxIndex[height] || heightToMaxIndex[height] == 0 {
        RoomAbove(index);
        Extend(index);
      }
      r := Place(index, item);
    }

    lemma RoomAbove(index: Index)
      requires Shape() && maxPath >= 2 && index <= MaxIndex(maxPath - 1, shift)
      requires index > heightToMaxIndex[height] || height == 0
      ensures height + 1 < maxPath
    {
      assert heightToMaxIndex[maxPath - 1] == MaxIndex(maxPath - 1, shift);
    }
  }
}
