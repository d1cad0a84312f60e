/**
  The red-black tree of libconhash/util_rbtree.c: a sentinel node stands for every missing
  child, and nothing keeps the parent link of the root up to date.

  In the record `m` of the nodes' fields a pointer to the sentinel is null, and so is the
  root's parent link, which may lead anywhere outside the tree.
 */
module UtilRbtree {
  import opened Common
  import opened RbShape
  import opened RbMemory
  import opened RbBalance
  import opened RbUnlink
  import opened RbOrder
  import opened UtilRbtreeOrder

  class Rbtree {
    const sentinel: Node   // rbtree->null
    var root: Node
    var size: nat
    ghost var mem: Memory
    ghost var shape: Tree

    // A child link as the record has it, and as the node has it
    ghost function Abs(p: Node): Node? { if p == sentinel then null else p }
    ghost function Real(p: Node?): Node { if p == null then sentinel else p }
    ghost function AbsParent(m: Memory, p: Node?): Node? { if p != null && p in m then p else null }

    ghost predicate Read(m: Memory, n: Node, c: Cell)
      reads n
    {
      n.color == c.color && n.left == Real(c.left) && n.right == Real(c.right) && c.parent == AbsParent(m, n.parent)
    }

    ghost predicate Synced(m: Memory)
      reads m.Keys
    {
      sentinel !in m && forall n {:trigger m[n]} :: n in m ==> Read(m, n, m[n])
    }

    lemma ReadNode(m: Memory, n: Node)
      requires Synced(m) && n in m
      ensures Read(m, n, m[n]) && n != sentinel
    {
    }

    lemma SentinelOutside(m: Memory)
      requires Synced(m)
      ensures sentinel !in m
    {
    }

    ghost predicate At(m: Memory, ctx: Ctx, t: Tree)
      reads this`root, m.Keys, sentinel
    {
      Synced(m) && sentinel.color == Black && (root == sentinel || root in m) && State(m, Abs(root), ctx, t)
    }

    /** Black root, no red-red edge, equal black heights, links and parent links right, keys ascending. */
    ghost predicate Valid()
      reads this, mem.Keys, sentinel
    {
      At(mem, Top, shape) && RedBlack(shape) && mem.Keys == Nodes(shape) && Ascending(Order(shape)) &&
        size == |Order(shape)|
    }

    lemma Known()
      requires Valid()
      ensures size == |Order(shape)| && mem.Keys == Nodes(shape) && Uniq(shape) && sentinel !in mem
    {
    }

    // What the insertion reads above the root is a black node
    ghost predicate RootParentBlack()
      reads this`root, root, if root.parent == null then {} else {root.parent}
    {
      root != sentinel ==> root.parent != null && root.parent.color == Black
    }

    /** util_rbtree_init */
    constructor ()
      ensures Valid() && shape == Nil && mem == map[] && fresh(sentinel)
    {
      var node := new Node(0, null);
      node.color := Black;
      sentinel, root, size, mem, shape := node, node, 0, map[], Nil;
    }

    // ---------- Field stores ----------

    method PutParent(x: Node, v: Node?, ghost m: Memory) returns (ghost m': Memory)
      requires Synced(m) && (x in m || x == sentinel)
      modifies x`parent
      ensures m' == SetParent(m, Abs(x), AbsParent(m, v)) && m'.Keys == m.Keys && Synced(m')
      ensures x.parent == v
    {
      x.parent := v;
      m' := SetParent(m, Abs(x), AbsParent(m, v));
    }

    method PutLeft(x: Node, v: Node, ghost m: Memory) returns (ghost m': Memory)
      requires Synced(m) && x in m
      modifies x`left
      ensures m' == SetLeft(m, x, Abs(v)) && m'.Keys == m.Keys && Synced(m')
      ensures x.left == v
    {
      x.left := v;
      m' := SetLeft(m, x, Abs(v));
    }

    method PutRight(x: Node, v: Node, ghost m: Memory) returns (ghost m': Memory)
      requires Synced(m) && x in m
      modifies x`right
      ensures m' == SetRight(m, x, Abs(v)) && m'.Keys == m.Keys && Synced(m')
      ensures x.right == v
    {
      x.right := v;
      m' := SetRight(m, x, Abs(v));
    }

    method PutColor(x: Node, c: Color, ghost m: Memory) returns (ghost m': Memory)
      requires Synced(m) && x in m
      modifies x`color
      ensures m' == SetColor(m, x, c) && m'.Keys == m.Keys && Synced(m')
    {
      x.color := c;
      m' := SetColor(m, x, c);
    }

    // ---------- Rotations ----------

    // `repl` gets to be what led to `node`: the root, or a child of the parent of `node`
    method Relink(node: Node, parent: Node?, repl: Node, ghost m: Memory) returns (ghost m': Memory)
      requires Synced(m) && node in m && AbsParent(m, parent) == if node == root then null else parent
      requires node != root ==> parent != null
      modifies this`root, (if node == root || parent == null then {} else {parent})`left
      modifies (if node == root || parent == null then {} else {parent})`right
      ensures root == if node == old(root) then repl else old(root)
      ensures m' == RelinkLeftFirst(m, AbsParent(m, parent), node, Abs(repl)) && m'.Keys == m.Keys && Synced(m')
    {
      m' := m;
      if node == root {
        root := repl;
      } else {
        if parent.left == node {
          m' := PutLeft(parent, repl, m);
        } else {
          m' := PutRight(parent, repl, m);
        }
      }
    }

    ghost predicate RootKnown(m: Memory, node: Node)
      reads this`root, root
    {
      root in m && m[root].parent == null && node in m && (node == root <==> m[node].parent == null)
    }

    method RotateLeft(node: Node, ghost m0: Memory) returns (ghost m: Memory)
      requires Synced(m0) && CanTurnLeft(m0, node) && RootKnown(m0, node)
      requires root != m0[node].right && root != m0[m0[node].right].left
      modifies this`root, m0.Keys
      ensures m == LeftTurned(m0, node) && m.Keys == m0.Keys && Synced(m)
      ensures root in m && root == NewTop(old(root), m0[node].parent, m0[node].right)
      ensures root.parent == old(root.parent)
    {
      hide Synced;
      ReadNode(m0, node);
      ReadNode(m0, m0[node].right);
      var rc := node.right;
      var rclc := rc.left;
      m := PutParent(rc, node.parent, m0);
      m := Relink(node, node.parent, rc, m);
      m := HangLeft(node, rc, rclc, m);
    }

    // The node becomes the left child of `rc`, whose left child it takes over on its right
    method HangLeft(node: Node, rc: Node, rclc: Node, ghost m0: Memory) returns (ghost m: Memory)
      requires Synced(m0) && {node, rc} <= m0.Keys && (rclc == sentinel || rclc in m0)
      modifies m0.Keys
      ensures m == SetParent(SetRight(SetLeft(SetParent(m0, node, rc), rc, node), node, Abs(rclc)), Abs(rclc), node)
      ensures m.Keys == m0.Keys && Synced(m)
      ensures forall n :: n in m0 && n != node && n != rclc ==> n.parent == old(n.parent)
    {
      hide Synced;
      m := PutParent(node, rc, m0);
      m := PutLeft(rc, node, m);
      m := PutRight(node, rclc, m);
      if rclc != sentinel {
        m := PutParent(rclc, node, m);
      }
    }

    method RotateRight(node: Node, ghost m0: Memory) returns (ghost m: Memory)
      requires Synced(m0) && CanTurnRight(m0, node) && RootKnown(m0, node)
      requires root != m0[node].left && root != m0[m0[node].left].right
      modifies this`root, m0.Keys
      ensures m == RightTurned(m0, node) && m.Keys == m0.Keys && Synced(m)
      ensures root in m && root == NewTop(old(root), m0[node].parent, m0[node].left)
      ensures root.parent == old(root.parent)
    {
      hide Synced;
      ReadNode(m0, node);
      ReadNode(m0, m0[node].left);
      var lc := node.left;
      var lcrc := lc.right;
      m := PutParent(lc, node.parent, m0);
      m := Relink(node, node.parent, lc, m);
      m := HangRight(node, lc, lcrc, m);
    }

    method HangRight(node: Node, lc: Node, lcrc: Node, ghost m0: Memory) returns (ghost m: Memory)
      requires Synced(m0) && {node, lc} <= m0.Keys && (lcrc == sentinel || lcrc in m0)
      modifies m0.Keys
      ensures m == SetParent(SetLeft(SetParent(SetRight(m0, lc, node), node, lc), node, Abs(lcrc)), Abs(lcrc), node)
      ensures m.Keys == m0.Keys && Synced(m)
      ensures forall n :: n in m0 && n != node && n != lcrc ==> n.parent == old(n.parent)
    {
      hide Synced;
      m := PutRight(lc, node, m0);
      m := PutParent(node, lc, m);
      m := PutLeft(node, lcrc, m);
      if lcrc != sentinel {
        m := PutParent(lcrc, node, m);
      }
    }

    // The rotations and a colour change, with their effect on the shape

    method TurnLeftAt(node: Node, ghost ctx: Ctx, ghost t: Tree, ghost m0: Memory) returns (ghost m: Memory)
      requires At(m0, ctx, t) && LeansRight(t) && t.n == node
      modifies this`root, m0.Keys
      ensures At(m, ctx, TurnLeft(t)) && m.Keys == m0.Keys && root.parent == old(root.parent) && root != sentinel
    {
      LeanCells(m0, Abs(root), ctx, t);
      RootIn(m0, ctx, t);
      LeftTurnedCells(m0, node);
      m := RotateLeft(node, m0);
      TurnLeftState(m0, m, Abs(old(root)), ctx, t.l, t.n, t.c, t.r.l, t.r.n, t.r.c, t.r.r);
    }

    method TurnRightAt(node: Node, ghost ctx: Ctx, ghost t: Tree, ghost m0: Memory) returns (ghost m: Memory)
      requires At(m0, ctx, t) && LeansLeft(t) && t.n == node
      modifies this`root, m0.Keys
      ensures At(m, ctx, TurnRight(t)) && m.Keys == m0.Keys && root.parent == old(root.parent) && root != sentinel
    {
      LeanCells(m0, Abs(root), ctx, t);
      RootIn(m0, ctx, t);
      RightTurnedCells(m0, node);
      m := RotateRight(node, m0);
      TurnRightState(m0, m, Abs(old(root)), ctx, t.l.l, t.l.n, t.l.c, t.l.r, t.n, t.c, t.r);
    }

    // A node of the tree, and the root, in the record and in memory
    lemma RootIn(m: Memory, ctx: Ctx, t: Tree)
      requires At(m, ctx, t) && t.Bin?
      ensures root != sentinel && RootKnown(m, t.n) && (t.n == root <==> ctx.Top?)
      ensures !ctx.Top? ==> t.n.parent == ctx.n && ctx.n in m
      ensures t.l.Bin? ==> root != t.l.n && root != Ptr(t.l.r)
      ensures t.r.Bin? ==> root != t.r.n && root != Ptr(t.r.l)
    {
      ZipUp(m, Abs(root), ctx, t);
      NodesPlug(ctx, t);
      TopCell(m, Abs(root), ctx, t);
      assert Rep(m, t.l, t.n) && Rep(m, t.r, t.n);
      assert t.l.Bin? ==> Rep(m, t.l.r, t.l.n);
      assert t.r.Bin? ==> Rep(m, t.r.l, t.r.n);
    }

    // ---------- Insertion ----------

    // One round of rbtree_insert_fixup: the violation ends or moves two levels up
    method InsertStep(n: Node, ghost ctx0: Ctx, ghost t0: Tree, ghost m0: Memory)
      returns (ghost m: Memory, node: Node, ghost ctx: Ctx, ghost t: Tree)
      requires At(m0, ctx0, t0) && RedRed(ctx0, t0) && t0.n == n
      modifies this`root, m0.Keys
      ensures At(m, ctx, t) && m.Keys == m0.Keys && RedAt(ctx, t) && t.n == node && root.parent == old(root.parent) &&
        root != sentinel
      ensures Around(ctx, t) == Around(ctx0, t0) && Depth(ctx) < Depth(ctx0)
    {
      RedRedCells(m0, Abs(root), ctx0, t0);
      RootIn(m0, ctx0, t0);
      var p := n.parent;
      if p == p.parent.left {
        m, node, ctx, t := InsertStepLeft(n, p, p.parent, ctx0, t0, m0);
      } else {
        m, node, ctx, t := InsertStepRight(n, p, p.parent, ctx0, t0, m0);
      }
    }

    method InsertStepLeft(n: Node, parent: Node, gp: Node, ghost ctx0: Ctx, ghost t0: Tree, ghost m0: Memory)
      returns (ghost m: Memory, node: Node, ghost ctx: Ctx, ghost t: Tree)
      requires At(m0, ctx0, t0) && RedRed(ctx0, t0) && t0.n == n && ctx0.n == parent && ctx0.up.InLeft? &&
        ctx0.up.n == gp
      modifies this`root, m0.Keys
      ensures At(m, ctx, t) && m.Keys == m0.Keys && RedAt(ctx, t) && t.n == node && root.parent == old(root.parent) &&
        root != sentinel
      ensures Around(ctx, t) == Around(ctx0, t0) && Depth(ctx) < Depth(ctx0)
    {
      var p := parent;
      node, m, ctx, t := n, m0, ctx0, t0;
      RedRedCells(m, Abs(root), ctx, t);
      RootIn(m, ctx, t);
      var u := gp.right;
      if u.color == Red {
        m, ctx, t := RecolorUp(u, p, gp, ctx, t, m);
        node := gp;
        return;
      }
      if node == p.right {
        LineUpLeft(ctx.up, p, ctx.l, t);
        StepUp(m, Abs(root), ctx, t);
        node := p;
        m := TurnLeftAt(node, ctx.up, Up(ctx, t), m);
        p := n;
        ctx, t := InLeft(ctx.up, p, Red, t.r), Bin(ctx.l, node, Red, t.l);
        StepUp(m, Abs(root), ctx, t);
      }
      m, ctx := RaiseRight(p, gp, ctx, t, m);
    }

    method InsertStepRight(n: Node, parent: Node, gp: Node, ghost ctx0: Ctx, ghost t0: Tree, ghost m0: Memory)
      returns (ghost m: Memory, node: Node, ghost ctx: Ctx, ghost t: Tree)
      requires At(m0, ctx0, t0) && RedRed(ctx0, t0) && t0.n == n && ctx0.n == parent && ctx0.up.InRight? &&
        ctx0.up.n == gp
      modifies this`root, m0.Keys
      ensures At(m, ctx, t) && m.Keys == m0.Keys && RedAt(ctx, t) && t.n == node && root.parent == old(root.parent) &&
        root != sentinel
      ensures Around(ctx, t) == Around(ctx0, t0) && Depth(ctx) < Depth(ctx0)
    {
      var p := parent;
      node, m, ctx, t := n, m0, ctx0, t0;
      RedRedCells(m, Abs(root), ctx, t);
      RootIn(m, ctx, t);
      var u := gp.left;
      if u.color == Red {
        m, ctx, t := RecolorUp(u, p, gp, ctx, t, m);
        node := gp;
        return;
      }
      if p.left == node {
        LineUpRight(ctx.up, p, ctx.r, t);
        StepUp(m, Abs(root), ctx, t);
        node := p;
        m := TurnRightAt(node, ctx.up, Up(ctx, t), m);
        p := n;
        ctx, t := InRight(ctx.up, p, Red, t.l), Bin(t.r, node, Red, ctx.r);
        StepUp(m, Abs(root), ctx, t);
      }
      m, ctx := RaiseLeft(p, gp, ctx, t, m);
    }

    // Case 1: parent and uncle are red
    method RecolorUp(u: Node, p: Node, gp: Node, ghost ctx0: Ctx, ghost t0: Tree, ghost m0: Memory)
      returns (ghost m: Memory, ghost ctx: Ctx, ghost t: Tree)
      requires At(m0, ctx0, t0) && RedRed(ctx0, t0) && ctx0.n == p && !ctx0.up.Top? && ctx0.up.n == gp
      requires IsRed(Beside(ctx0.up)) && Beside(ctx0.up).n == u && {u, p, gp} <= m0.Keys
      modifies m0.Keys
      ensures At(m, ctx, t) && m.Keys == m0.Keys && RedAt(ctx, t) && t.n == gp && root.parent == old(root.parent)
      ensures Around(ctx, t) == Around(ctx0, t0) && Depth(ctx) < Depth(ctx0)
    {
      hide Synced, State;
      t := Recolor(ctx0, t0);
      ctx := ctx0.up.up;
      RecolorState(m0, Abs(root), ctx0, t0);
      RecolorStep(ctx0, t0);
      m := PutColor(u, Black, m0);
      m := PutColor(p, Black, m);
      m := PutColor(gp, Red, m);
    }

    // Case 3: the parent takes the grandparent's place
    method RaiseRight(p: Node, gp: Node, ghost ctx0: Ctx, ghost t: Tree, ghost m0: Memory)
      returns (ghost m: Memory, ghost ctx: Ctx)
      requires At(m0, ctx0, t) && RedRed(ctx0, t) && ctx0.InLeft? && ctx0.n == p
      requires ctx0.up.InLeft? && ctx0.up.n == gp && !IsRed(ctx0.up.r)
      modifies this`root, m0.Keys
      ensures At(m, ctx, t) && m.Keys == m0.Keys && RedAt(ctx, t) && root.parent == old(root.parent) && root != sentinel
      ensures Around(ctx, t) == Around(ctx0, t) && Depth(ctx) < Depth(ctx0)
    {
      hide Synced, State, Good, BlackHeight, GoodCtx;
      ghost var up, u, r := ctx0.up.up, ctx0.up.r, ctx0.r;
      RedRedCells(m0, Abs(root), ctx0, t);
      RaiseParentRight(up, gp, u, p, r, t);
      PairPainted(m0, Abs(root), ctx0, t);
      m := PutColor(p, Black, m0);
      m := PutColor(gp, Red, m);
      m := TurnRightAt(gp, up, Bin(Bin(t, p, Black, r), gp, Red, u), m);
      ctx := InLeft(up, p, Black, Bin(r, gp, Red, u));
      StepUp(m, Abs(root), ctx, t);
    }

    method RaiseLeft(p: Node, gp: Node, ghost ctx0: Ctx, ghost t: Tree, ghost m0: Memory)
      returns (ghost m: Memory, ghost ctx: Ctx)
      requires At(m0, ctx0, t) && RedRed(ctx0, t) && ctx0.InRight? && ctx0.n == p
      requires ctx0.up.InRight? && ctx0.up.n == gp && !IsRed(ctx0.up.l)
      modifies this`root, m0.Keys
      ensures At(m, ctx, t) && m.Keys == m0.Keys && RedAt(ctx, t) && root.parent == old(root.parent) && root != sentinel
      ensures Around(ctx, t) == Around(ctx0, t) && Depth(ctx) < Depth(ctx0)
    {
      hide Synced, State, Good, BlackHeight, GoodCtx;
      ghost var up, u, l := ctx0.up.up, ctx0.up.l, ctx0.l;
      RedRedCells(m0, Abs(root), ctx0, t);
      RaiseParentLeft(up, gp, u, p, l, t);
      PairPainted(m0, Abs(root), ctx0, t);
      m := PutColor(p, Black, m0);
      m := PutColor(gp, Red, m);
      m := TurnLeftAt(gp, up, Bin(u, gp, Red, Bin(l, p, Black, t)), m);
      ctx := InRight(up, p, Black, Bin(u, gp, Red, l));
      StepUp(m, Abs(root), ctx, t);
    }

    lemma RedLeaf(ctx: Ctx, x: Node)
      requires GoodCtx(ctx, 0)
      ensures RedAt(ctx, Bin(Nil, x, Red, Nil))
    {
    }

    /** rbtree_insert_fixup.  The loop looks above the root too, and must find a black node there. */
    method InsertFixup(inserted: Node, ghost ctx0: Ctx, ghost m0: Memory) returns (ghost m: Memory)
      requires At(m0, ctx0, Bin(Nil, inserted, Red, Nil)) && GoodCtx(ctx0, 0)
      requires root.parent != null && root.parent !in m0 && root.parent.color == Black
      modifies this`root, this`shape, m0.Keys
      ensures m.Keys == m0.Keys && At(m, Top, shape) && RedBlack(shape) && root != sentinel &&
        root.parent == old(root.parent)
      ensures Order(shape) == Before(ctx0) + [inserted] + After(ctx0)
    {
      hide Synced, State, GoodCtx;
      m := m0;
      var node := inserted;
      ghost var ctx, t := ctx0, Bin(Nil, inserted, Red, Nil);
      RedLeaf(ctx, node);
      RootIn(m, ctx, t);
      while node.parent.color == Red
        invariant At(m, ctx, t) && m.Keys == m0.Keys && t.Bin? && t.n == node && RedAt(ctx, t)
        invariant root != sentinel && root.parent == old(root.parent) && root.parent.color == Black
        invariant node.parent != null && (ctx.Top? ==> node == root) &&
          (!ctx.Top? ==> node.parent == ctx.n && ctx.n in m)
        invariant Around(ctx, t) == Around(ctx0, Bin(Nil, inserted, Red, Nil))
        decreases Depth(ctx)
      {
        ParentColor(m, ctx, t);
        m, node, ctx, t := InsertStep(node, ctx, t, m);
        RootIn(m, ctx, t);
      }
      ParentColor(m, ctx, t);
      assert Order(Bin(Nil, inserted, Red, Nil)) == [inserted];
      InsertDone(ctx, t);
      RootedState(m, Abs(root), ctx, t, BlackHeight(t));
      m := PutColor(root, Black, m);
      shape := Rooted(ctx, t);
    }

    lemma ParentColor(m: Memory, ctx: Ctx, t: Tree)
      requires At(m, ctx, t)
      ensures !ctx.Top? ==> ctx.n in m && ctx.n.color == ctx.c
    {
      if !ctx.Top? {
        StepUp(m, Abs(root), ctx, t);
      }
    }

    /** util_rbtree_insert; a node must not come back while the parent link of the root still leads to it. */
    method Insert(node: Node)
      requires Valid() && node !in Nodes(shape)
      requires RootParentBlack() && (root != sentinel ==> root.parent != node)
      modifies this, mem.Keys, node
      ensures Valid() && RootParentBlack()
      ensures node == sentinel ==> shape == old(shape) && mem == old(mem)
      ensures node != sentinel ==> Order(shape) == Placed(old(Order(shape)), node) && mem.Keys == old(mem.Keys) + {node}
    {
      if node == sentinel {
        return;
      }
      InsertNode(node);
    }

    method InsertNode(node: Node)
      requires Valid() && node !in Nodes(shape) && node != sentinel
      requires RootParentBlack() && (root != sentinel ==> root.parent != node)
      modifies this, mem.Keys, node
      ensures Valid() && RootParentBlack()
      ensures Order(shape) == Placed(old(Order(shape)), node) && mem.Keys == old(mem.Keys) + {node}
    {
      hide At, RedBlack, Nodes, Placed, RbShape.Order, Ascending;
      ghost var m := PlaceAndFix(node);
      mem := m;
      size := size + 1;
    }

    method PlaceAndFix(node: Node) returns (ghost m: Memory)
      requires Valid() && node !in Nodes(shape) && node != sentinel
      requires RootParentBlack() && (root != sentinel ==> root.parent != node)
      modifies this`root, this`shape, mem.Keys, node
      ensures At(m, Top, shape) && RedBlack(shape) && Nodes(shape) == m.Keys == mem.Keys + {node}
      ensures Order(shape) == Placed(old(Order(shape)), node) && Ascending(Order(shape)) && |Order(shape)| == size + 1
      ensures root != sentinel && root.parent != null && root.parent.color == Black
    {
      hide State, Synced, Good, BlackHeight, Placed, RbShape.Order, Ascending, Plug, Before, After;
      ghost var ctx;
      m, ctx := LinkLeaf(node);
      GoodHole(ctx);
      PlaceEnd(ctx, node);
      m := InsertFixup(node, ctx, m);
      LinkedOrder(ctx, node, shape, old(shape));
    }

    lemma GoodHole(ctx: Ctx)
      requires RedBlack(Plug(ctx, Nil))
      ensures GoodCtx(ctx, 0)
    {
      PlugRedBlack(ctx, Nil);
    }

    // Down to the place of the key, where the node becomes a red leaf
    method LinkLeaf(node: Node) returns (ghost m: Memory, ghost ctx: Ctx)
      requires Valid() && node !in Nodes(shape) && node != sentinel
      requires RootParentBlack() && (root != sentinel ==> root.parent != node)
      modifies this`root, mem.Keys, node
      ensures At(m, ctx, Bin(Nil, node, Red, Nil)) && m.Keys == mem.Keys + {node}
      ensures Plug(ctx, Nil) == shape && Placing(ctx, node.id)
      ensures root.parent != null && root.parent !in m && root.parent.color == Black
    {
      if root == sentinel {
        ctx := Top;
        m := LinkRoot(node);
      } else {
        var y;
        y, ctx := FindParent(node.id);
        RootParentOutside();
        m := LinkBelow(node, y, ctx);
      }
    }

    lemma RootParentOutside()
      requires Valid() && root != sentinel
      ensures root in mem && root.parent !in mem
    {
      TopCell(mem, Abs(root), Top, shape);
      ReadNode(mem, root);
    }

    method LinkRoot(node: Node) returns (ghost m: Memory)
      requires Valid() && node != sentinel && root == sentinel
      modifies this`root, node
      ensures At(m, Top, Bin(Nil, node, Red, Nil)) && m.Keys == mem.Keys + {node} && shape == Nil
      ensures root == node && root.parent == sentinel
    {
      LinkedState(mem, Abs(root), Top, node);
      root := node;
      node.parent := sentinel;
      node.left := sentinel;
      node.right := sentinel;
      node.color := Red;
      m := Linked(mem, Top, node);
    }

    method FindParent(key: int) returns (y: Node, ghost ctx: Ctx)
      requires Valid() && root != sentinel
      ensures !ctx.Top? && ctx.n == y && Plug(ctx, Nil) == shape && Placing(ctx, key) && y in mem
      ensures State(mem, Abs(root), ctx, Nil) && (key < y.id <==> ctx.InLeft?)
    {
      var x := root;
      y := x;
      ghost var t := shape;
      ctx := Top;
      while x != sentinel
        invariant At(mem, ctx, t) && x == Real(Ptr(t)) && Plug(ctx, t) == shape && Placing(ctx, key)
        invariant t.Nil? ==> !ctx.Top? && ctx.n == y && y in mem && (key < y.id <==> ctx.InLeft?)
        decreases t
      {
        PlaceDown(ctx, t, key);
        ReadNode(mem, t.n);
        y := x;
        if key < x.id {
          StepUp(mem, Abs(root), InLeft(ctx, t.n, t.c, t.r), t.l);
          x := x.left;
          ctx, t := InLeft(ctx, t.n, t.c, t.r), t.l;
        } else {
          StepUp(mem, Abs(root), InRight(ctx, t.n, t.c, t.l), t.r);
          x := x.right;
          ctx, t := InRight(ctx, t.n, t.c, t.l), t.r;
        }
      }
    }

    method LinkBelow(node: Node, y: Node, ghost ctx: Ctx) returns (ghost m: Memory)
      requires Valid() && node !in Nodes(shape) && node != sentinel && root != sentinel && root in mem && y in mem
      requires root.parent != null && root.parent !in mem && root.parent.color == Black && root.parent != node
      requires State(mem, Abs(root), ctx, Nil) && !ctx.Top? && ctx.n == y && (node.id < y.id <==> ctx.InLeft?)
      requires Plug(ctx, Nil) == shape
      modifies mem.Keys, node
      ensures At(m, ctx, Bin(Nil, node, Red, Nil)) && m.Keys == mem.Keys + {node}
      ensures root.parent == old(root.parent) && root.parent !in m && root.parent.color == Black
    {
      hide State, Synced, RedBlack;
      NodesPlug(ctx, Nil);
      LinkedState(mem, Abs(root), ctx, node);
      NobodysParent(node);
      m := Attach(node, y, ctx, mem);
    }

    method Attach(node: Node, y: Node, ghost ctx: Ctx, ghost m0: Memory) returns (ghost m: Memory)
      requires Synced(m0) && node !in m0 && node != sentinel && y in m0 && forall n :: n in m0 ==> n.parent != node
      requires !ctx.Top? && ctx.n == y && (node.id < y.id <==> ctx.InLeft?)
      modifies m0.Keys`left, m0.Keys`right, node
      ensures Synced(m) && m == Linked(m0, ctx, node) && m.Keys == m0.Keys + {node}
    {
      hide Synced;
      node.parent := y;
      if node.id < y.id {
        m := PutLeft(y, node, m0);
      } else {
        m := PutRight(y, node, m0);
      }
      m := BecomeLeaf(node, m);
    }

    // No parent link in the tree leads to a node outside it, save that of the root
    lemma NobodysParent(node: Node)
      requires Valid() && node !in mem && (root != sentinel ==> root.parent != node)
      ensures forall n :: n in mem ==> n.parent != node
    {
      forall n | n in mem ensures n.parent != node {
        var ctx, t := Focus(mem, Abs(root), shape, n);
        RootIn(mem, ctx, t);
      }
    }

    // A red leaf: both child links lead to the sentinel
    method BecomeLeaf(node: Node, ghost m0: Memory) returns (ghost m: Memory)
      requires Synced(m0) && node !in m0 && node != sentinel && forall n :: n in m0 ==> n.parent != node
      requires node.parent != null && node.parent in m0
      modifies node`left, node`right, node`color
      ensures m == m0[node := Cell(node.parent, Red, null, null)] && m.Keys == m0.Keys + {node} && Synced(m)
    {
      node.left := sentinel;
      node.right := sentinel;
      node.color := Red;
      m := m0[node := Cell(node.parent, Red, null, null)];
    }

    // ---------- Deletion: the fix-up ----------

    // The node at the focus, and its parent link, which the sentinel has too
    ghost predicate Focused(node: Node, ctx: Ctx, t: Tree)
      reads node
    {
      node == Real(Ptr(t)) && (!ctx.Top? ==> node.parent == ctx.n)
    }

    // Red sibling; afterwards the sibling is black
    method UncoverRight(p: Node, w: Node, ghost ctx0: Ctx, ghost t: Tree, ghost m0: Memory)
      returns (ghost m: Memory, ghost ctx: Ctx)
      requires At(m0, ctx0, t) && BlackDeficit(ctx0, t) && ctx0.InLeft? && ctx0.n == p && IsRed(ctx0.r) && ctx0.r.n == w
      modifies this`root, m0.Keys
      ensures At(m, ctx, t) && m.Keys == m0.Keys && BlackDeficit(ctx, t) && Around(ctx, t) == Around(ctx0, t)
      ensures ctx.InLeft? && ctx.n == p && ctx.c == Red && ctx.r.Bin? && ctx.r.c == Black
      ensures root != sentinel && root.parent == old(root.parent)
    {
      hide Synced, State, Good, GoodCtx;
      ghost var s := ctx0.r.(c := Black);
      RedSiblingLeft(ctx0.up, p, ctx0.c, ctx0.r, t);
      DeficitCells(m0, Abs(root), ctx0, t);
      UncoverPaint(m0, Abs(root), ctx0, t);
      m := PutColor(w, Black, m0);
      m := PutColor(p, Red, m);
      m := TurnLeftAt(p, ctx0.up, Bin(t, p, Red, s), m);
      ctx := InLeft(InLeft(ctx0.up, w, Black, s.r), p, Red, s.l);
      StepUp(m, Abs(root), ctx.up, Up(ctx, t));
      StepUp(m, Abs(root), ctx, t);
    }

    method UncoverLeft(p: Node, w: Node, ghost ctx0: Ctx, ghost t: Tree, ghost m0: Memory)
      returns (ghost m: Memory, ghost ctx: Ctx)
      requires At(m0, ctx0, t) && BlackDeficit(ctx0, t) && ctx0.InRight? && ctx0.n == p && IsRed(ctx0.l) &&
        ctx0.l.n == w
      modifies this`root, m0.Keys
      ensures At(m, ctx, t) && m.Keys == m0.Keys && BlackDeficit(ctx, t) && Around(ctx, t) == Around(ctx0, t)
      ensures ctx.InRight? && ctx.n == p && ctx.c == Red && ctx.l.Bin? && ctx.l.c == Black
      ensures root != sentinel && root.parent == old(root.parent)
    {
      hide Synced, State, Good, GoodCtx;
      ghost var s := ctx0.l.(c := Black);
      RedSiblingRight(ctx0.up, p, ctx0.c, ctx0.l, t);
      DeficitCells(m0, Abs(root), ctx0, t);
      UncoverPaint(m0, Abs(root), ctx0, t);
      m := PutColor(w, Black, m0);
      m := PutColor(p, Red, m);
      m := TurnRightAt(p, ctx0.up, Bin(s, p, Red, t), m);
      ctx := InRight(InRight(ctx0.up, w, Black, s.l), p, Red, s.r);
      StepUp(m, Abs(root), ctx.up, Up(ctx, t));
      StepUp(m, Abs(root), ctx, t);
    }

    // Only the near nephew is red; afterwards the far one is
    method ReddenFarRight(w: Node, ghost ctx0: Ctx, ghost t: Tree, ghost m0: Memory)
      returns (ghost m: Memory, ghost ctx: Ctx)
      requires At(m0, ctx0, t) && BlackDeficit(ctx0, t) && ctx0.InLeft?
      requires ctx0.r.Bin? && ctx0.r.c == Black && ctx0.r.n == w && IsRed(ctx0.r.l) && !IsRed(ctx0.r.r)
      modifies this`root, m0.Keys
      ensures At(m, ctx, t) && m.Keys == m0.Keys && BlackDeficit(ctx, t) && Around(ctx, t) == Around(ctx0, t)
      ensures ctx.InLeft? && ctx.n == ctx0.n && ctx.r.Bin? && ctx.r.c == Black && IsRed(ctx.r.r)
      ensures root != sentinel && root.parent == old(root.parent)
    {
      hide State, Synced, Good, GoodCtx, BlackHeight, Around;
      ghost var s, over := ctx0.r, Across(ctx0, t);
      FarRedLeft(ctx0.up, ctx0.n, ctx0.c, s, t);
      DeficitCells(m0, Abs(root), ctx0, t);
      StepAcross(m0, Abs(root), ctx0, t);
      FarRedPaint(m0, Abs(root), over, s);
      ReadNode(m0, w);
      m := PutColor(w.left, Black, m0);
      m := PutColor(w, Red, m);
      s := Bin(s.l.(c := Black), w, Red, s.r);
      m := TurnRightAt(w, over, s, m);
      ctx := InLeft(ctx0.up, ctx0.n, ctx0.c, TurnRight(s));
      StepAcross(m, Abs(root), ctx, t);
    }

    method ReddenFarLeft(w: Node, ghost ctx0: Ctx, ghost t: Tree, ghost m0: Memory)
      returns (ghost m: Memory, ghost ctx: Ctx)
      requires At(m0, ctx0, t) && BlackDeficit(ctx0, t) && ctx0.InRight?
      requires ctx0.l.Bin? && ctx0.l.c == Black && ctx0.l.n == w && IsRed(ctx0.l.r) && !IsRed(ctx0.l.l)
      modifies this`root, m0.Keys
      ensures At(m, ctx, t) && m.Keys == m0.Keys && BlackDeficit(ctx, t) && Around(ctx, t) == Around(ctx0, t)
      ensures ctx.InRight? && ctx.n == ctx0.n && ctx.l.Bin? && ctx.l.c == Black && IsRed(ctx.l.l)
      ensures root != sentinel && root.parent == old(root.parent)
    {
      hide State, Synced, Good, GoodCtx, BlackHeight, Around;
      ghost var s, over := ctx0.l, Across(ctx0, t);
      FarRedRight(ctx0.up, ctx0.n, ctx0.c, s, t);
      DeficitCells(m0, Abs(root), ctx0, t);
      StepAcross(m0, Abs(root), ctx0, t);
      FarRedPaint(m0, Abs(root), over, s);
      ReadNode(m0, w);
      m := PutColor(w.right, Black, m0);
      m := PutColor(w, Red, m);
      s := Bin(s.l, w, Red, s.r.(c := Black));
      m := TurnLeftAt(w, over, s, m);
      ctx := InRight(ctx0.up, ctx0.n, ctx0.c, TurnLeft(s));
      StepAcross(m, Abs(root), ctx, t);
    }

    // The far nephew is red
    method SettleRightSide(p: Node, w: Node, ghost ctx: Ctx, ghost t: Tree, ghost m0: Memory)
      returns (ghost m: Memory, ghost u: Tree)
      requires At(m0, ctx, t) && BlackDeficit(ctx, t) && ctx.InLeft? && ctx.n == p
      requires ctx.r.Bin? && ctx.r.c == Black && ctx.r.n == w && IsRed(ctx.r.r)
      modifies this`root, m0.Keys
      ensures At(m, Top, u) && m.Keys == m0.Keys && RedBlack(u) && Order(u) == Around(ctx, t)
      ensures root != sentinel && root.parent == old(root.parent)
    {
      hide State, Synced, Good, GoodCtx, BlackHeight, Around;
      SettleLeft(ctx.up, p, ctx.c, ctx.r, t);
      SettleCells(m0, Abs(root), ctx, t);
      SettlePaint(m0, Abs(root), ctx, t);
      ReadNode(m0, w);
      ReadNode(m0, p);
      m := PutColor(w, p.color, m0);
      m := PutColor(p, Black, m);
      m := PutColor(w.right, Black, m);
      u := Bin(t, p, Black, Settled(ctx));
      m := TurnLeftAt(p, ctx.up, u, m);
      ZipUp(m, Abs(root), ctx.up, TurnLeft(u));
      u := Plug(ctx.up, TurnLeft(u));
    }

    method SettleLeftSide(p: Node, w: Node, ghost ctx: Ctx, ghost t: Tree, ghost m0: Memory)
      returns (ghost m: Memory, ghost u: Tree)
      requires At(m0, ctx, t) && BlackDeficit(ctx, t) && ctx.InRight? && ctx.n == p
      requires ctx.l.Bin? && ctx.l.c == Black && ctx.l.n == w && IsRed(ctx.l.l)
      modifies this`root, m0.Keys
      ensures At(m, Top, u) && m.Keys == m0.Keys && RedBlack(u) && Order(u) == Around(ctx, t)
      ensures root != sentinel && root.parent == old(root.parent)
    {
      hide State, Synced, Good, GoodCtx, BlackHeight, Around;
      SettleRight(ctx.up, p, ctx.c, ctx.l, t);
      SettleCells(m0, Abs(root), ctx, t);
      SettlePaint(m0, Abs(root), ctx, t);
      ReadNode(m0, w);
      ReadNode(m0, p);
      m := PutColor(w, p.color, m0);
      m := PutColor(p, Black, m);
      m := PutColor(w.left, Black, m);
      u := Bin(Settled(ctx), p, Black, t);
      m := TurnRightAt(p, ctx.up, u, m);
      ZipUp(m, Abs(root), ctx.up, TurnRight(u));
      u := Plug(ctx.up, TurnRight(u));
    }

    // Black sibling with two black children: it turns red, and the deficit is the parent's
    method PassUpAt(w: Node, p: Node, ghost ctx0: Ctx, ghost t0: Tree, ghost m0: Memory)
      returns (ghost m: Memory, ghost ctx: Ctx, ghost t: Tree)
      requires At(m0, ctx0, t0) && BlackDeficit(ctx0, t0) && ctx0.n == p && Beside(ctx0).Bin? && Beside(ctx0).n == w
      requires Beside(ctx0).c == Black && !IsRed(Beside(ctx0).l) && !IsRed(Beside(ctx0).r)
      modifies m0.Keys
      ensures At(m, ctx, t) && m.Keys == m0.Keys && ctx == ctx0.up && t.Bin? && t.n == p && t.c == ctx0.c
      ensures Deficit(ctx, t) && Around(ctx, t) == Around(ctx0, t0) && root.parent == old(root.parent)
    {
      hide State, Synced, Good, GoodCtx;
      DeficitCells(m0, Abs(root), ctx0, t0);
      PassUp(ctx0, t0);
      SiblingPainted(m0, Abs(root), ctx0, t0, Red);
      m := PutColor(w, Red, m0);
      ctx := WithBeside(ctx0, Beside(ctx0).(c := Red));
      StepUp(m, Abs(root), ctx, t0);
      ctx, t := ctx0.up, Up(ctx, t0);
    }

    // The colours the code asks for
    lemma NephewColors(m: Memory, s: Tree)
      requires Synced(m) && SiblingCells(m, s) && sentinel.color == Black
      ensures s.n.left.color == Red <==> IsRed(s.l)
      ensures s.n.right.color == Red <==> IsRed(s.r)
      ensures s.n.color == s.c && s.n.left == Real(Ptr(s.l)) && s.n.right == Real(Ptr(s.r))
    {
    }

    // The round of the loop for a left child
    method DeleteStepLeft(p: Node, ghost ctx0: Ctx, ghost t0: Tree, ghost m0: Memory)
      returns (ghost m: Memory, node: Node, ghost ctx: Ctx, ghost t: Tree)
      requires At(m0, ctx0, t0) && BlackDeficit(ctx0, t0) && ctx0.InLeft? && ctx0.n == p
      modifies this`root, m0.Keys
      ensures At(m, ctx, t) && m.Keys == m0.Keys && node == Real(Ptr(t)) && t.Bin?
      ensures Deficit(ctx, t) && Around(ctx, t) == Around(ctx0, t0) && Effort(ctx, t) < Effort(ctx0, t0)
      ensures root != sentinel && root.parent == old(root.parent)
    {
      hide State, Good, GoodCtx, Around, BlackHeight;
      m, ctx, t := m0, ctx0, t0;
      SideCells(m, ctx, t);
      var w := p.right;
      if w.color == Red {
        m, ctx := UncoverRight(p, w, ctx, t, m);
        SideCells(m, ctx, t);
        w := p.right;
      }
      m, node, ctx, t := WithRightBlack(w, p, ctx, t, m);
    }

    lemma SideCells(m: Memory, ctx: Ctx, t: Tree)
      requires At(m, ctx, t) && BlackDeficit(ctx, t)
      ensures ctx.n in m && root != sentinel && Beside(ctx).Bin? && Beside(ctx).n in m &&
        Beside(ctx).n.color == Beside(ctx).c
      ensures ctx.n.left == Real(if ctx.InLeft? then Ptr(t) else Beside(ctx).n)
      ensures ctx.n.right == Real(if ctx.InLeft? then Beside(ctx).n else Ptr(t))
      ensures ctx.n.left != ctx.n.right
      ensures SiblingCells(m, Beside(ctx))
    {
      DeficitCells(m, Abs(root), ctx, t);
      ReadNode(m, ctx.n);
      ReadNode(m, Beside(ctx).n);
      BesideApart(m, ctx, t);
    }

    lemma BesideApart(m: Memory, ctx: Ctx, t: Tree)
      requires At(m, ctx, t) && !ctx.Top?
      ensures root != sentinel && (Beside(ctx).Bin? ==> Ptr(t) != Beside(ctx).n)
    {
      ZipUp(m, Abs(root), ctx, t);
      TopIsAbove(m, Abs(root), ctx, t);
      assert t.Bin? ==> t.n in Nodes(t);
      assert Beside(ctx).Bin? ==> Beside(ctx).n in Nodes(Beside(ctx));
      TopInCtx(m, ctx, Ptr(t), Abs(root));
    }

    // The sibling, on the right, is black
    method WithRightBlack(w: Node, p: Node, ghost ctx0: Ctx, ghost t0: Tree, ghost m0: Memory)
      returns (ghost m: Memory, node: Node, ghost ctx: Ctx, ghost t: Tree)
      requires At(m0, ctx0, t0) && BlackDeficit(ctx0, t0) && ctx0.InLeft? && ctx0.n == p
      requires ctx0.r.Bin? && ctx0.r.n == w && ctx0.r.c == Black
      modifies this`root, m0.Keys
      ensures At(m, ctx, t) && m.Keys == m0.Keys && node == Real(Ptr(t)) && t.Bin?
      ensures Deficit(ctx, t) && Around(ctx, t) == Around(ctx0, t0)
      ensures ctx.Top? || (ctx == ctx0.up && (IsRed(t) <==> ctx0.c == Red))
      ensures root != sentinel && root.parent == old(root.parent)
    {
      hide State, Good, GoodCtx, Around, BlackHeight;
      m, ctx, t := m0, ctx0, t0;
      SideCells(m, ctx, t);
      NephewColors(m, ctx.r);
      if w.left.color == Black && w.right.color == Black {
        m, ctx, t := PassUpAt(w, p, ctx, t, m);
        node := p;
      } else {
        m, t := RotateOutRight(w, p, ctx, t, m);
        ctx := Top;
        node := root;
        RootOfShape(m, t);
      }
    }

    lemma RootOfShape(m: Memory, t: Tree)
      requires At(m, Top, t)
      ensures root == Real(Ptr(t)) && (root != sentinel ==> t.Bin?)
    {
    }

    // ... and one of its children is red
    method RotateOutRight(sibling: Node, p: Node, ghost ctx0: Ctx, ghost t: Tree, ghost m0: Memory)
      returns (ghost m: Memory, ghost u: Tree)
      requires At(m0, ctx0, t) && BlackDeficit(ctx0, t) && ctx0.InLeft? && ctx0.n == p
      requires ctx0.r.Bin? && ctx0.r.n == sibling && ctx0.r.c == Black && (IsRed(ctx0.r.l) || IsRed(ctx0.r.r))
      modifies this`root, m0.Keys
      ensures At(m, Top, u) && m.Keys == m0.Keys && Deficit(Top, u) && Around(Top, u) == Around(ctx0, t)
      ensures root != sentinel && root.parent == old(root.parent)
    {
      hide State, Good, GoodCtx, Around, BlackHeight;
      var w := sibling;
      ghost var ctx := ctx0;
      m := m0;
      SideCells(m, ctx, t);
      NephewColors(m, ctx.r);
      if w.right.color == Black {
        m, ctx := ReddenFarRight(w, ctx, t, m);
        SideCells(m, ctx, t);
        w := p.right;
      }
      m, u := SettleRightSide(p, w, ctx, t, m);
      TopDone(u);
    }

    // The mirror images, for a right child
    method DeleteStepRight(p: Node, ghost ctx0: Ctx, ghost t0: Tree, ghost m0: Memory)
      returns (ghost m: Memory, node: Node, ghost ctx: Ctx, ghost t: Tree)
      requires At(m0, ctx0, t0) && BlackDeficit(ctx0, t0) && ctx0.InRight? && ctx0.n == p
      modifies this`root, m0.Keys
      ensures At(m, ctx, t) && m.Keys == m0.Keys && node == Real(Ptr(t)) && t.Bin?
      ensures Deficit(ctx, t) && Around(ctx, t) == Around(ctx0, t0) && Effort(ctx, t) < Effort(ctx0, t0)
      ensures root != sentinel && root.parent == old(root.parent)
    {
      hide State, Good, GoodCtx, Around, BlackHeight;
      m, ctx, t := m0, ctx0, t0;
      SideCells(m, ctx, t);
      var w := p.left;
      if w.color == Red {
        m, ctx := UncoverLeft(p, w, ctx, t, m);
        SideCells(m, ctx, t);
        w := p.left;
      }
      m, node, ctx, t := WithLeftBlack(w, p, ctx, t, m);
    }

    method WithLeftBlack(w: Node, p: Node, ghost ctx0: Ctx, ghost t0: Tree, ghost m0: Memory)
      returns (ghost m: Memory, node: Node, ghost ctx: Ctx, ghost t: Tree)
      requires At(m0, ctx0, t0) && BlackDeficit(ctx0, t0) && ctx0.InRight? && ctx0.n == p
      requires ctx0.l.Bin? && ctx0.l.n == w && ctx0.l.c == Black
      modifies this`root, m0.Keys
      ensures At(m, ctx, t) && m.Keys == m0.Keys && node == Real(Ptr(t)) && t.Bin?
      ensures Deficit(ctx, t) && Around(ctx, t) == Around(ctx0, t0)
      ensures ctx.Top? || (ctx == ctx0.up && (IsRed(t) <==> ctx0.c == Red))
      ensures root != sentinel && root.parent == old(root.parent)
    {
      hide State, Good, GoodCtx, Around, BlackHeight;
      m, ctx, t := m0, ctx0, t0;
      SideCells(m, ctx, t);
      NephewColors(m, ctx.l);
      if w.left.color == Black && w.right.color == Black {
        m, ctx, t := PassUpAt(w, p, ctx, t, m);
        node := p;
      } else {
        m, t := RotateOutLeft(w, p, ctx, t, m);
        ctx := Top;
        node := root;
        RootOfShape(m, t);
      }
    }

    method RotateOutLeft(sibling: Node, p: Node, ghost ctx0: Ctx, ghost t: Tree, ghost m0: Memory)
      returns (ghost m: Memory, ghost u: Tree)
      requires At(m0, ctx0, t) && BlackDeficit(ctx0, t) && ctx0.InRight? && ctx0.n == p
      requires ctx0.l.Bin? && ctx0.l.n == sibling && ctx0.l.c == Black && (IsRed(ctx0.l.l) || IsRed(ctx0.l.r))
      modifies this`root, m0.Keys
      ensures At(m, Top, u) && m.Keys == m0.Keys && Deficit(Top, u) && Around(Top, u) == Around(ctx0, t)
      ensures root != sentinel && root.parent == old(root.parent)
    {
      hide State, Good, GoodCtx, Around, BlackHeight;
      var w := sibling;
      ghost var ctx := ctx0;
      m := m0;
      SideCells(m, ctx, t);
      NephewColors(m, ctx.l);
      if w.left.color == Black {
        m, ctx := ReddenFarLeft(w, ctx, t, m);
        SideCells(m, ctx, t);
        w := p.left;
      }
      m, u := SettleLeftSide(p, w, ctx, t, m);
      TopDone(u);
    }

    method DeleteStep(n: Node, ghost ctx0: Ctx, ghost t0: Tree, ghost m0: Memory)
      returns (ghost m: Memory, node: Node, ghost ctx: Ctx, ghost t: Tree)
      requires At(m0, ctx0, t0) && BlackDeficit(ctx0, t0) && Focused(n, ctx0, t0)
      modifies this`root, m0.Keys
      ensures At(m, ctx, t) && m.Keys == m0.Keys && node == Real(Ptr(t)) && t.Bin?
      ensures Deficit(ctx, t) && Around(ctx, t) == Around(ctx0, t0) && Effort(ctx, t) < Effort(ctx0, t0)
      ensures root != sentinel && root.parent == old(root.parent)
    {
      hide State, Good, GoodCtx, Around, BlackHeight;
      SideCells(m0, ctx0, t0);
      var p := n.parent;
      if n == p.left {
        m, node, ctx, t := DeleteStepLeft(p, ctx0, t0, m0);
      } else {
        m, node, ctx, t := DeleteStepRight(p, ctx0, t0, m0);
      }
    }

    /** rbtree_delete_fixup */
    method DeleteFixup(n: Node, ghost ctx0: Ctx, ghost t0: Tree, ghost m0: Memory) returns (ghost m: Memory)
      requires At(m0, ctx0, t0) && Focused(n, ctx0, t0) && Deficit(ctx0, t0) && root != sentinel
      modifies this`root, this`shape, m0.Keys
      ensures m.Keys == m0.Keys && At(m, Top, shape) && RedBlack(shape) && Order(shape) == Around(ctx0, t0)
      ensures root != sentinel && root.parent == old(root.parent)
    {
      hide State, Good, GoodCtx, Around, BlackHeight;
      m := m0;
      var node := n;
      ghost var ctx, t := ctx0, t0;
      FocusColor(m, ctx, t);
      while node != root && node.color == Black
        invariant At(m, ctx, t) && m.Keys == m0.Keys && Focused(node, ctx, t) && root != sentinel
        invariant node.color == (if IsRed(t) then Red else Black) && (node == root <==> ctx.Top?)
        invariant Deficit(ctx, t) && Around(ctx, t) == Around(ctx0, t0) && root.parent == old(root.parent)
        decreases Effort(ctx, t)
      {
        m, node, ctx, t := DeleteStep(node, ctx, t, m);
        FocusColor(m, ctx, t);
      }
      m := Blacken(node, ctx, t, m);
    }

    lemma FocusColor(m: Memory, ctx: Ctx, t: Tree)
      requires At(m, ctx, t) && root != sentinel
      ensures Real(Ptr(t)).color == (if IsRed(t) then Red else Black) && (Real(Ptr(t)) == root <==> ctx.Top?)
      ensures t.Bin? && !ctx.Top? ==> t.n.parent == ctx.n
    {
      TopIsAbove(m, Abs(root), ctx, t);
      if t.Bin? {
        RootIn(m, ctx, t);
        ReadNode(m, t.n);
      }
    }

    method Blacken(node: Node, ghost ctx: Ctx, ghost t: Tree, ghost m0: Memory) returns (ghost m: Memory)
      requires At(m0, ctx, t) && node == Real(Ptr(t)) && Deficit(ctx, t) && (IsRed(t) || ctx.Top?) && root != sentinel
      modifies this`shape, m0.Keys
      ensures m.Keys == m0.Keys && At(m, Top, shape) && RedBlack(shape) && Order(shape) == Around(ctx, t)
      ensures root.parent == old(root.parent)
    {
      hide Synced, Good, GoodCtx, Around, BlackHeight;
      EraseDone(ctx, t);
      TopIsAbove(m0, Abs(root), ctx, t);
      Painted(m0, Abs(root), ctx, t, Black);
      m := PutColor(node, Black, m0);
      ZipUp(m, Abs(root), ctx, Blackened(t));
      shape := Plug(ctx, Blackened(t));
    }

    // ---------- Deletion ----------

    /** util_rbtree_delete */
    method Delete(node: Node)
      requires Valid() && (node == sentinel || node in Nodes(shape))
      modifies this, mem.Keys, sentinel
      ensures Valid() && (old(RootParentBlack()) ==> RootParentBlack())
      ensures node == sentinel ==> shape == old(shape) && mem == old(mem)
      ensures node != sentinel ==>
        Order(shape) == Without(old(Order(shape)), node) && mem.Keys == old(mem.Keys) - {node}
    {
      if node == sentinel {
        return;
      }
      DeleteNode(node);
    }

    method DeleteNode(node: Node)
      requires Valid() && node in Nodes(shape)
      modifies this, mem.Keys, sentinel
      ensures Valid() && (old(RootParentBlack()) ==> RootParentBlack())
      ensures Order(shape) == Without(old(Order(shape)), node) && mem.Keys == old(mem.Keys) - {node}
    {
      hide At, RedBlack, RbShape.Order, Without, Ascending;
      AscendingWithout(Order(shape), node);
      OneLess(node);
      ghost var m := TakeOut(node);
      NodesWithout(old(shape), shape, node);
      mem := m;
      size := size - 1;
    }

    lemma OneLess(x: Node)
      requires Valid() && x in Nodes(shape)
      ensures |Without(Order(shape), x)| == |Order(shape)| - 1
    {
      var ctx, u := Locate(Top, shape, x);
      OrderFocus(ctx, u);
      OrderNoDup(shape);
      WithoutOne(Before(ctx) + Order(u.l), x, Order(u.r) + After(ctx));
    }

    method TakeOut(node: Node) returns (ghost m: Memory)
      requires Valid() && node in Nodes(shape)
      modifies this`root, this`shape, mem.Keys, sentinel
      ensures At(m, Top, shape) && RedBlack(shape) && m.Keys == mem.Keys - {node}
      ensures Order(shape) == Without(old(Order(shape)), node)
      ensures old(RootParentBlack()) ==> RootParentBlack()
    {
      hide State, Synced, Good, RbShape.Order, Without, Ascending;
      ghost var ctx, t := Focus(mem, Abs(root), shape, node);
      NodeCells(mem, ctx, t);
      RootParentOutside();
      ValidUniq();
      var subst;
      if node.left == sentinel || node.right == sentinel {
        subst := if node.left == sentinel then node.right else node.left;
        if node == root {
          m := TakeOutRoot(node, subst, t);
        } else {
          m := TakeOutLink(node, subst, ctx, t);
        }
      } else {
        m := TakeOutBySuccessor(node, ctx, t);
      }
    }

    lemma ValidUniq()
      requires Valid()
      ensures Uniq(shape)
    {
    }

    lemma NodeCells(m: Memory, ctx: Ctx, t: Tree)
      requires At(m, ctx, t) && t.Bin?
      ensures t.n in m && root != sentinel && (t.n == root <==> ctx.Top?)
      ensures t.n.left == Real(Ptr(t.l)) && t.n.right == Real(Ptr(t.r)) && t.n.color == t.c
      ensures (t.n.left == sentinel <==> t.l.Nil?) && (t.n.right == sentinel <==> t.r.Nil?)
    {
      RootIn(m, ctx, t);
      ReadNode(m, t.n);
      assert Rep(m, t.l, t.n) && Rep(m, t.r, t.n);
      if t.l.Bin? {
        ReadNode(m, t.l.n);
      }
      if t.r.Bin? {
        ReadNode(m, t.r.n);
      }
    }

    // The early return: the parent link of the new root keeps leading to the old one
    method TakeOutRoot(node: Node, subst: Node, ghost t: Tree) returns (ghost m: Memory)
      requires Valid() && t == shape && t.Bin? && t.n == node && node == root
      requires (t.l.Nil? || t.r.Nil?) && subst == Real(Ptr(OnlyChild(t)))
      modifies this`root, this`shape, mem.Keys, sentinel`color
      ensures At(m, Top, shape) && RedBlack(shape) && m.Keys == mem.Keys - {node}
      ensures Order(shape) == Without(old(Order(shape)), node) && RootParentBlack()
    {
      ghost var u := OnlyChild(t);
      RootOut(mem, node, t);
      SmallRoot(t);
      NodeCells(mem, Top, t);
      m := SetColor(SetParent(mem, Ptr(u), null), Ptr(u), Black);
      FrameState(m, m - {node}, Abs(subst), Top, Blackened(u));
      m := m - {node};
      shape := Blackened(u);
      if u.Bin? {
        assert Rep(mem, u, node);
        ReadNode(mem, u.n);
      }
      root := subst;
      subst.color := Black;
      ClearLinks(node);
    }

    // rbt_clear_node
    method ClearLinks(node: Node)
      modifies node`left, node`right, node`parent
    {
      node.left, node.right, node.parent := null, null, null;
    }

    // The substitute's parent gets to be that of the successor, or the successor itself below the node to be deleted;
    // then the link to it
    method CutTemp(node: Node, temp: Node, subst: Node, ghost m0: Memory) returns (ghost m: Memory)
      requires Synced(m0) && {node, temp} <= m0.Keys && (subst in m0 || subst == sentinel)
      requires temp != root && m0[temp].parent != null && m0[temp].parent in m0 && subst != temp
      requires temp != node || m0[temp].parent != node
      modifies m0.Keys, sentinel`parent
      ensures Synced(m) && m.Keys == m0.Keys
      ensures m == RelinkLeftFirst(SetParent(m0, Abs(subst), if m0[temp].parent == node then temp
        else m0[temp].parent), m0[temp].parent, temp, Abs(subst))
      ensures subst.parent == (if m0[temp].parent == node then temp else m0[temp].parent)
      ensures root != subst ==> root.parent == old(root.parent)
    {
      hide Synced;
      ReadNode(m0, temp);
      ReadNode(m0, m0[temp].parent);
      if temp.parent == node {
        m := PutParent(subst, temp, m0);
      } else {
        m := PutParent(subst, temp.parent, m0);
      }
      ReadNode(m, m0[temp].parent);
      if temp == temp.parent.left {
        m := PutLeft(temp.parent, subst, m);
      } else {
        m := PutRight(temp.parent, subst, m);
      }
    }

    // A node other than the root, with at most one child
    method TakeOutLink(node: Node, subst: Node, ghost ctx: Ctx, ghost t: Tree) returns (ghost m: Memory)
      requires Valid() && Uniq(shape) && Plug(ctx, t) == shape && At(mem, ctx, t) && t.Bin? && t.n == node &&
        Balanced(ctx, t) && node != root
      requires (t.l.Nil? || t.r.Nil?) && subst == Real(Ptr(OnlyChild(t)))
      modifies this`root, this`shape, mem.Keys, sentinel
      ensures At(m, Top, shape) && RedBlack(shape) && m.Keys == mem.Keys - {node}
      ensures Order(shape) == Without(old(Order(shape)), node) && root != sentinel && root.parent == old(root.parent)
    {
      hide State, Synced, Good, RbShape.Order, Without, Ascending;
      NodeCells(mem, ctx, t);
      var isBlack := node.color == Black;
      m := CutOnly(node, subst, ctx, t);
      OutBalance(ctx, t);
      OrderOut(ctx, t);
      m := Finish(node, subst, isBlack, ctx, OnlyChild(t), m);
    }

    method CutOnly(node: Node, subst: Node, ghost ctx: Ctx, ghost t: Tree) returns (ghost m: Memory)
      requires Valid() && At(mem, ctx, t) && t.Bin? && t.n == node && node != root
      requires (t.l.Nil? || t.r.Nil?) && subst == Real(Ptr(OnlyChild(t)))
      modifies mem.Keys, sentinel`parent
      ensures At(m, ctx, OnlyChild(t)) && m.Keys == mem.Keys && Focused(subst, ctx, OnlyChild(t))
      ensures root != sentinel && root.parent == old(root.parent)
    {
      hide State, Synced;
      NodeCells(mem, ctx, t);
      RootIn(mem, ctx, t);
      SplicedState(mem, Abs(root), ctx, t);
      NotItsParent(mem, ctx, t);
      SentinelOutside(mem);
      ReadNode(mem, node);
      if OnlyChild(t).Bin? {
        ReadNode(mem, OnlyChild(t).n);
      }
      m := CutTemp(node, node, subst, mem);
    }

    lemma NotItsParent(m: Memory, ctx: Ctx, t: Tree)
      requires At(m, ctx, t) && t.Bin? && !ctx.Top?
      ensures t.n in m && m[t.n].parent == ctx.n && ctx.n in m && ctx.n != t.n
      ensures t.l.Bin? ==> t.l.n in m && t.l.n != t.n && t.l.n != root
      ensures t.r.Bin? ==> t.r.n in m && t.r.n != t.n && t.r.n != root
    {
      RootIn(m, ctx, t);
      TopCell(m, Abs(root), ctx, t);
      assert Rep(m, t.l, t.n) && Rep(m, t.r, t.n);
      assert t.l.Bin? ==> t.l.n in Nodes(t.l);
      assert t.r.Bin? ==> t.r.n in Nodes(t.r);
    }

    // rbt_clear_node, then the fix-up if the node cut out was black
    method Finish(node: Node, subst: Node, isBlack: bool, ghost ctx: Ctx, ghost u: Tree, ghost m0: Memory)
      returns (ghost m: Memory)
      requires At(m0, ctx, u) && Focused(subst, ctx, u) && root != sentinel && node in m0
      requires m0.Keys == Nodes(shape) && Uniq(shape) && node in Nodes(shape) &&
        Around(ctx, u) == Without(Order(shape), node)
      requires if isBlack then Deficit(ctx, u) else Balanced(ctx, u)
      modifies this`root, this`shape, m0.Keys
      ensures At(m, Top, shape) && RedBlack(shape) && m.Keys == m0.Keys - {node}
      ensures Order(shape) == Without(old(Order(shape)), node) && root != sentinel && root.parent == old(root.parent)
    {
      hide State, Synced, Good, RbShape.Order, Without, Around;
      m := Clear(node, subst, ctx, u, m0);
      if isBlack {
        m := DeleteFixup(subst, ctx, u, m);
      } else {
        ZipUp(m, Abs(root), ctx, u);
        PlugRedBlack(ctx, u);
        AroundIsOrder(ctx, u);
        shape := Plug(ctx, u);
      }
    }

    lemma AroundIsOrder(ctx: Ctx, u: Tree)
      ensures Order(Plug(ctx, u)) == Around(ctx, u)
    {
      OrderPlug(ctx, u);
    }

    method Clear(node: Node, subst: Node, ghost ctx: Ctx, ghost u: Tree, ghost m0: Memory) returns (ghost m: Memory)
      requires At(m0, ctx, u) && Focused(subst, ctx, u) && root != sentinel && node in m0
      requires m0.Keys == Nodes(shape) && node in Nodes(shape) && Around(ctx, u) == Without(Order(shape), node)
      modifies m0.Keys
      ensures At(m, ctx, u) && Focused(subst, ctx, u) && m.Keys == m0.Keys - {node}
      ensures root.parent == old(root.parent)
    {
      hide State, RbShape.Order, Without, Around;
      AroundIsOrder(ctx, u);
      NodesWithout(shape, Plug(ctx, u), node);
      NobodysParentIn(m0, Abs(root), ctx, u, node);
      RootStays(m0, ctx, u);
      m := m0 - {node};
      ClearLinks(node);
    }

    lemma RootStays(m: Memory, ctx: Ctx, u: Tree)
      requires At(m, ctx, u) && root != sentinel
      ensures root in Nodes(Plug(ctx, u)) && (u.Bin? ==> u.n in Nodes(Plug(ctx, u)))
    {
      ZipUp(m, Abs(root), ctx, u);
      NodesPlug(ctx, u);
    }

    /** util_rbsubtree_min below a node with a right child */
    method FindSuccessor(node: Node, ghost ctx: Ctx, ghost t: Tree)
      returns (temp: Node, ghost inner: Ctx, ghost s: Tree)
      requires At(mem, ctx, t) && t.Bin? && t.n == node && t.l.Bin? && t.r.Bin?
      ensures HasSuccessor(t, inner, s) && s.n == temp
    {
      NodeCells(mem, ctx, t);
      temp := node.right;
      inner, s := Top, t.r;
      ghost var q := node;
      while temp.left != sentinel
        invariant s.Bin? && s.n == temp && Rep(mem, s, q) && Leftmost(inner) && t.r == Plug(inner, s) &&
          temp.left == Real(Ptr(s.l))
        decreases s
      {
        q := temp;
        temp := temp.left;
        inner, s := InLeft(inner, s.n, s.c, s.r), s.l;
        ReadNode(mem, temp);
      }
      LeftmostEnd(s, q);
    }

    lemma LeftmostEnd(s: Tree, q: Node?)
      requires Synced(mem) && Rep(mem, s, q) && s.Bin? && s.n.left == sentinel
      ensures s.l.Nil?
    {
      ReadNode(mem, s.n);
      if s.l.Bin? {
        ReadNode(mem, s.l.n);
      }
    }

    method TakeOutBySuccessor(node: Node, ghost ctx: Ctx, ghost t: Tree) returns (ghost m: Memory)
      requires Valid() && Uniq(shape) && Plug(ctx, t) == shape && At(mem, ctx, t) && t.Bin? && t.n == node &&
        Balanced(ctx, t)
      requires t.l.Bin? && t.r.Bin?
      modifies this`root, this`shape, mem.Keys, sentinel
      ensures At(m, Top, shape) && RedBlack(shape) && m.Keys == mem.Keys - {node}
      ensures Order(shape) == Without(old(Order(shape)), node) && root != sentinel && root.parent == old(root.parent)
    {
      hide State, Synced, Good, RbShape.Order, Without, Ascending;
      var temp;
      ghost var inner, s;
      NodeCells(mem, ctx, t);
      temp, inner, s := FindSuccessor(node, ctx, t);
      SuccessorIn(ctx, t, inner, s);
      var subst := ChildOf(temp);
      SuccessorColor(ctx, t, inner, s);
      var isBlack := temp.color == Black;
      m := Replace(node, temp, subst, ctx, t, inner, s);
      SuccessorBalance(ctx, t, inner, s);
      OrderSuccessorOut(ctx, t, inner, s);
      m := Finish(node, subst, isBlack, SuccessorCtx(ctx, t, temp, inner), s.r, m);
    }

    lemma SuccessorIn(ctx: Ctx, t: Tree, inner: Ctx, s: Tree)
      requires At(mem, ctx, t) && HasSuccessor(t, inner, s)
      ensures s.n in mem
    {
      SuccessorFocus(mem, Abs(root), ctx, t, inner, s);
    }

    method ChildOf(temp: Node) returns (subst: Node)
      requires Synced(mem) && temp in mem
      ensures subst == if temp.left != sentinel then temp.left else temp.right
    {
      ReadNode(mem, temp);
      if temp.left != sentinel {
        subst := temp.left;
      } else {
        subst := temp.right;
      }
    }

    lemma SuccessorColor(ctx: Ctx, t: Tree, inner: Ctx, s: Tree)
      requires At(mem, ctx, t) && HasSuccessor(t, inner, s)
      ensures s.n in mem && s.n.color == s.c && s.n.left == sentinel && s.n.right == Real(Ptr(s.r)) && s.n != root
      ensures s.r.Bin? ==> s.r.n in mem
    {
      SuccessorFocus(mem, Abs(root), ctx, t, inner, s);
      NodeCells(mem, SuccessorCtx(ctx, t, t.n, inner), s);
      UnderParent(inner, InRight(ctx, t.n, t.c, t.l));
      assert Rep(mem, s.r, s.n);
    }

    // `temp`, cut out of the right subtree, takes the place of `node`
    method Replace(node: Node, temp: Node, subst: Node, ghost ctx: Ctx, ghost t: Tree, ghost inner: Ctx, ghost s: Tree)
      returns (ghost m: Memory)
      requires Valid() && At(mem, ctx, t) && t.Bin? && t.n == node && HasSuccessor(t, inner, s) && s.n == temp &&
        subst == Real(Ptr(s.r))
      modifies this`root, mem.Keys, sentinel`parent
      ensures At(m, SuccessorCtx(ctx, t, temp, inner), s.r) && m.Keys == mem.Keys &&
        Focused(subst, SuccessorCtx(ctx, t, temp, inner), s.r)
      ensures root != sentinel && root.parent == old(root.parent)
    {
      hide State, Synced;
      TakenOverState(mem, Abs(root), ctx, t, inner, s);
      SuccessorCells(mem, Abs(root), ctx, t, inner, s);
      SuccessorColor(ctx, t, inner, s);
      RootIn(mem, ctx, t);
      RootNoChild(ctx, t, inner, s);
      UnderParent(inner, InRight(ctx, t.n, t.c, t.l));
      ghost var q: Node := Par(SuccessorCtx(ctx, t, node, inner));
      CutOutReady(mem, node, temp, q, Ptr(s.r));
      SentinelOutside(mem);
      ReadNode(mem, temp);
      if s.r.Bin? {
        ReadNode(mem, s.r.n);
      }
      m := CutTemp(node, temp, subst, mem);
      assert m == CutOut(mem, node, temp, q, Ptr(s.r));
      m := TakeOver(node, temp, m);
      ReplacedFocus(m, subst, SuccessorCtx(ctx, t, temp, inner), s.r);
    }

    lemma ReplacedFocus(m: Memory, subst: Node, ctx: Ctx, u: Tree)
      requires At(m, ctx, u) && subst == Real(Ptr(u)) && !ctx.Top? && root != sentinel
      requires u.Nil? ==> subst.parent == ctx.n
      ensures Focused(subst, ctx, u)
    {
      if u.Bin? {
        RootIn(m, ctx, u);
      }
    }

    // The root is not below the node to be deleted
    lemma RootNoChild(ctx: Ctx, t: Tree, inner: Ctx, s: Tree)
      requires At(mem, ctx, t) && HasSuccessor(t, inner, s)
      ensures root in mem && mem[root].parent == null && root !in {s.n, t.l.n, t.r.n} && root != Ptr(s.r)
    {
      RootIn(mem, ctx, t);
      SuccessorFocus(mem, Abs(root), ctx, t, inner, s);
      RootIn(mem, SuccessorCtx(ctx, t, t.n, inner), s);
      UnderParent(inner, InRight(ctx, t.n, t.c, t.l));
    }

    method TakeOver(node: Node, temp: Node, ghost m0: Memory) returns (ghost m: Memory)
      requires Synced(m0) && {node, temp} <= m0.Keys && node != temp && RootKnown(m0, node)
      requires m0[node].parent != null ==> m0[node].parent in m0 && m0[node].parent !in {node, temp}
      requires m0[node].left != null ==> m0[node].left in m0 && m0[node].left != node && m0[node].left != root
      requires m0[node].right != null ==> m0[node].right in m0 && m0[node].right != node && m0[node].right != root
      requires temp != root && m0[node].left != temp && m0[node].right != temp
      modifies this`root, m0.Keys
      ensures Synced(m) && m.Keys == m0.Keys && m == TakenOver(m0, node, temp, m0[node].parent)
      ensures root == (if node == old(root) then temp else old(root)) && root in m && root.parent == old(root.parent)
    {
      hide Synced;
      ReadNode(m0, node);
      m := PutParent(temp, node.parent, m0);
      m := Relink(node, node.parent, temp, m);
      assert m[node] == m0[node];
      m := CopyLinks(node, temp, m);
    }

    method CopyLinks(node: Node, temp: Node, ghost m0: Memory) returns (ghost m: Memory)
      requires Synced(m0) && {node, temp} <= m0.Keys && node != temp && root in m0
      requires m0[node].left != null ==> m0[node].left in m0 && m0[node].left !in {node, temp, root}
      requires m0[node].right != null ==> m0[node].right in m0 && m0[node].right !in {node, temp, root}
      modifies m0.Keys
      ensures Synced(m) && m.Keys == m0.Keys && root.parent == old(root.parent)
      ensures var l, r := m0[node].left, m0[node].right;
        m == SetColor(SetParent(SetParent(SetLeft(SetRight(m0, temp, r), temp, l), l, temp), r, temp), temp,
          m0[node].color)
    {
      hide Synced;
      ReadNode(m0, node);
      m := PutRight(temp, node.right, m0);
      m := PutLeft(temp, node.left, m);
      if temp.left != sentinel {
        m := PutParent(temp.left, temp, m);
      }
      if temp.right != sentinel {
        m := PutParent(temp.right, temp, m);
      }
      m := PutColor(temp, node.color, m);
    }

    // ---------- Searching ----------

    /** util_rbtree_search */
    method Search(key: int) returns (r: Node?)
      requires Valid()
      ensures r != null ==> r in Nodes(shape) && r.id == key
      ensures r == null ==> forall n :: n in Nodes(shape) ==> n.id != key
    {
      hide Synced, State, Good, RbShape.Order, Ascending, Seeking;
      var node := root;
      ghost var ctx, t := Top, shape;
      RootOfShape(mem, shape);
      SeekStart(key);
      while node != sentinel
        invariant At(mem, ctx, t) && node == Real(Ptr(t)) && Plug(ctx, t) == shape && Seeking(ctx, key)
        decreases t
      {
        FindDown(ctx, t, key);
        Below(ctx, t);
        if key < node.id {
          node := node.left;
          ctx, t := InLeft(ctx, t.n, t.c, t.r), t.l;
        } else if key > node.id {
          node := node.right;
          ctx, t := InRight(ctx, t.n, t.c, t.l), t.r;
        } else {
          NodesPlug(ctx, t);
          return node;
        }
      }
      NilAtEnd(ctx, t);
      SeekFailed(ctx, key);
      r := null;
    }

    lemma SeekStart(key: int)
      ensures Seeking(Top, key) && Ceiled(Top, key)
    {
    }

    // One step down
    lemma Below(ctx: Ctx, t: Tree)
      requires At(mem, ctx, t) && t.Bin?
      ensures At(mem, InLeft(ctx, t.n, t.c, t.r), t.l) && At(mem, InRight(ctx, t.n, t.c, t.l), t.r)
      ensures t.n in mem && t.n.left == Real(Ptr(t.l)) && t.n.right == Real(Ptr(t.r))
    {
      NodeCells(mem, ctx, t);
      StepUp(mem, Abs(root), InLeft(ctx, t.n, t.c, t.r), t.l);
      StepUp(mem, Abs(root), InRight(ctx, t.n, t.c, t.l), t.r);
    }

    lemma NilAtEnd(ctx: Ctx, t: Tree)
      requires At(mem, ctx, t) && Real(Ptr(t)) == sentinel
      ensures t == Nil
    {
      if t.Bin? {
        NodeCells(mem, ctx, t);
        ReadNode(mem, t.n);
      }
    }

    /** util_rbtree_lookup: the first node whose key is not below `key`, or else the first of all */
    method Lookup(key: int) returns (r: Node?)
      requires Valid()
      ensures r == FirstFrom(Order(shape), key)
    {
      hide Synced, State, Good, RbShape.Order, Ascending, FirstFrom, Ceiled, After;
      if root == sentinel {
        RootOfShape(mem, shape);
        NilAtEnd(Top, shape);
        NothingFrom(key);
        return null;
      }
      var temp := root;
      r := null;
      ghost var ctx, t := Top, shape;
      RootOfShape(mem, shape);
      SeekStart(key);
      NothingAfter();
      while temp != sentinel
        invariant At(mem, ctx, t) && temp == Real(Ptr(t)) && Plug(ctx, t) == shape && Ceiled(ctx, key)
        invariant r == FirstOf(After(ctx))
        decreases t
      {
        CeilingDown(ctx, t, key);
        Below(ctx, t);
        if key <= temp.id {
          r := temp;
          temp := temp.left;
          ctx, t := InLeft(ctx, t.n, t.c, t.r), t.l;
        } else {
          AfterRight(ctx, t);
          temp := temp.right;
          ctx, t := InRight(ctx, t.n, t.c, t.l), t.r;
        }
      }
      NilAtEnd(ctx, t);
      CeilingEnd(ctx, key);
      if r == null {
        r := Min();
      }
    }

    lemma NothingFrom(key: int)
      requires shape == Nil
      ensures FirstFrom(Order(shape), key) == null
    {
    }

    lemma NothingAfter()
      ensures FirstOf(After(Top)) == null
    {
    }

    lemma AfterRight(ctx: Ctx, t: Tree)
      requires t.Bin?
      ensures After(InRight(ctx, t.n, t.c, t.l)) == After(ctx)
    {
    }

    /** util_rbtree_min */
    method Min() returns (r: Node?)
      requires Valid()
      ensures r == FirstOf(Order(shape))
    {
      hide Synced, Good, Ascending;
      if root == sentinel {
        NilAtEnd(Top, shape);
        return null;
      }
      var node := root;
      ghost var ctx, t := Top, shape;
      BinAtStart();
      while node.left != sentinel
        invariant At(mem, ctx, t) && t.Bin? && node == t.n && Plug(ctx, t) == shape && Before(ctx) == []
        decreases t
      {
        Below(ctx, t);
        node := node.left;
        ctx, t := InLeft(ctx, t.n, t.c, t.r), t.l;
      }
      NodeCells(mem, ctx, t);
      OrderFocus(ctx, t);
      r := node;
    }

    lemma BinAtStart()
      requires Valid() && root != sentinel
      ensures shape.Bin? && shape.n == root
    {
    }

    /** util_rbtree_mid_travel: the nodes in the order in which they are handed to the callback */
    method MidTravel() returns (visited: seq<Node>)
      requires Valid()
      ensures visited == Order(shape)
    {
      visited := [];
      if root != sentinel {
        BinAtStart();
        visited := Travel(root, Top, shape);
      }
    }

    method Travel(node: Node, ghost ctx: Ctx, ghost t: Tree) returns (visited: seq<Node>)
      requires At(mem, ctx, t) && t.Bin? && t.n == node
      ensures visited == Order(t)
      decreases t
    {
      hide Synced, State;
      NodeCells(mem, ctx, t);
      Below(ctx, t);
      visited := [];
      if node.left != sentinel {
        visited := Travel(node.left, InLeft(ctx, t.n, t.c, t.r), t.l);
      }
      visited := visited + [node];
      if node.right != sentinel {
        var rest := Travel(node.right, InRight(ctx, t.n, t.c, t.l), t.r);
        visited := visited + rest;
      }
    }
  }
}
