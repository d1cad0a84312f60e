/**
  The red-black tree of tree/rbtree/rbtree.c: nodes linked by parent, left and right pointers.

  Every pointer store goes through one of the `Put` methods, which also carries the change
  over to `m`, the record of the nodes' fields that the proofs speak of.
 */
module RbTree {
  import opened Common
  import opened RbShape
  import opened RbMemory
  import opened RbBalance
  import opened RbUnlink
  import opened RbOrder

  ghost predicate Synced(m: Memory)
    reads m.Keys
  {
    forall n :: n in m ==> m[n] == Cell(n.parent, n.color, n.left, n.right)
  }

  // Which link `rb_link` of rb_link_node points at: the root pointer, or a child link of the parent
  datatype Slot = AtRoot | AtLeft | AtRight

  ghost function SlotOf(ctx: Ctx): Slot {
    if ctx.Top? then AtRoot else if ctx.InLeft? then AtLeft else AtRight
  }

  // rb_set_parent
  method PutParent(x: Node, v: Node?, ghost m: Memory) returns (ghost m': Memory)
    requires Synced(m) && x in m
    modifies x`parent
    ensures m' == SetParent(m, x, v) && m'.Keys == m.Keys && Synced(m')
  {
    x.parent := v;
    m' := SetParent(m, x, v);
  }

  method PutLeft(x: Node, v: Node?, ghost m: Memory) returns (ghost m': Memory)
    requires Synced(m) && x in m
    modifies x`left
    ensures m' == SetLeft(m, x, v) && m'.Keys == m.Keys && Synced(m')
  {
    x.left := v;
    m' := SetLeft(m, x, v);
  }

  method PutRight(x: Node, v: Node?, ghost m: Memory) returns (ghost m': Memory)
    requires Synced(m) && x in m
    modifies x`right
    ensures m' == SetRight(m, x, v) && m'.Keys == m.Keys && Synced(m')
  {
    x.right := v;
    m' := SetRight(m, x, v);
  }

  // rb_set_color, rb_set_red and rb_set_black
  method PutColor(x: Node, c: Color, ghost m: Memory) returns (ghost m': Memory)
    requires Synced(m) && x in m
    modifies x`color
    ensures m' == SetColor(m, x, c) && m'.Keys == m.Keys && Synced(m')
  {
    x.color := c;
    m' := SetColor(m, x, c);
  }

  class Root {
    var rbNode: Node?
    ghost var mem: Memory  // the fields of the tree's nodes
    ghost var shape: Tree  // what the links from rbNode spell out

    // The links, read through `m`, spell out context `ctx` around subtree `t`
    ghost predicate At(m: Memory, ctx: Ctx, t: Tree)
      reads this, m.Keys
    {
      Synced(m) && State(m, rbNode, ctx, t)
    }

    /** A red-black tree: black root, no red-red edge, equal black heights, every link and parent link right. */
    ghost predicate Valid()
      reads this, mem.Keys
    {
      At(mem, Top, shape) && RedBlack(shape) && mem.Keys == Nodes(shape)
    }

    constructor ()
      ensures Valid() && shape == Nil
    {
      rbNode, mem, shape := null, map[], Nil;
    }

    // ---------- Rotations ----------

    // The link that leads to `node` gets to lead to `repl`: a child link of `parent`, or the root pointer
    method RelinkTestingLeft(parent: Node?, node: Node, repl: Node?, ghost m: Memory) returns (ghost m': Memory)
      requires Synced(m) && (parent != null ==> parent in m)
      modifies this`rbNode, if parent == null then {} else {parent}
      ensures rbNode == NewTop(old(rbNode), parent, repl)
      ensures m' == RelinkLeftFirst(m, parent, node, repl) && Synced(m')
    {
      m' := m;
      if parent != null {
        if node == parent.left {
          m' := PutLeft(parent, repl, m);
        } else {
          m' := PutRight(parent, repl, m);
        }
      } else {
        rbNode := repl;
      }
    }

    method RelinkTestingRight(parent: Node?, node: Node, repl: Node?, ghost m: Memory) returns (ghost m': Memory)
      requires Synced(m) && (parent != null ==> parent in m)
      modifies this`rbNode, if parent == null then {} else {parent}
      ensures rbNode == NewTop(old(rbNode), parent, repl)
      ensures m' == RelinkRightFirst(m, parent, node, repl) && Synced(m')
    {
      m' := m;
      if parent != null {
        if node == parent.right {
          m' := PutRight(parent, repl, m);
        } else {
          m' := PutLeft(parent, repl, m);
        }
      } else {
        rbNode := repl;
      }
    }

    method RotateLeft(node: Node, ghost m0: Memory) returns (ghost m: Memory)
      requires Synced(m0) && CanTurnLeft(m0, node)
      modifies this`rbNode, m0.Keys
      ensures rbNode == NewTop(old(rbNode), old(node.parent), old(node.right))
      ensures m == LeftRotated(m0, node) && Synced(m)
    {
      var right := node.right;
      var parent := node.parent;
      m := PutRight(node, right.left, m0);
      if node.right != null {
        m := PutParent(right.left, node, m);
      }
      m := RaiseRightChild(node, right, parent, m);
    }

    // The right child goes above the node, in its place below the parent
    method RaiseRightChild(node: Node, right: Node, parent: Node?, ghost m0: Memory) returns (ghost m: Memory)
      requires Synced(m0) && {node, right} <= m0.Keys && (parent != null ==> parent in m0)
      modifies this`rbNode, m0.Keys
      ensures m == SetParent(RelinkLeftFirst(SetParent(SetLeft(m0, right, node), right, parent), parent, node, right),
        node, right)
      ensures rbNode == NewTop(old(rbNode), parent, right) && Synced(m)
    {
      m := PutLeft(right, node, m0);
      m := PutParent(right, parent, m);
      m := RelinkTestingLeft(parent, node, right, m);
      m := PutParent(node, right, m);
    }

    method RotateRight(node: Node, ghost m0: Memory) returns (ghost m: Memory)
      requires Synced(m0) && CanTurnRight(m0, node)
      modifies this`rbNode, m0.Keys
      ensures rbNode == NewTop(old(rbNode), old(node.parent), old(node.left))
      ensures m == RightRotated(m0, node) && Synced(m)
    {
      var left := node.left;
      var parent := node.parent;
      m := PutLeft(node, left.right, m0);
      if node.left != null {
        m := PutParent(left.right, node, m);
      }
      m := RaiseLeftChild(node, left, parent, m);
    }

    method RaiseLeftChild(node: Node, left: Node, parent: Node?, ghost m0: Memory) returns (ghost m: Memory)
      requires Synced(m0) && {node, left} <= m0.Keys && (parent != null ==> parent in m0)
      modifies this`rbNode, m0.Keys
      ensures m == SetParent(RelinkRightFirst(SetParent(SetRight(m0, left, node), left, parent), parent, node, left),
        node, left)
      ensures rbNode == NewTop(old(rbNode), parent, left) && Synced(m)
    {
      m := PutRight(left, node, m0);
      m := PutParent(left, parent, m);
      m := RelinkTestingRight(parent, node, left, m);
      m := PutParent(node, left, m);
    }

    // The two rotations and a colour change, with their effect on the shape

    method TurnLeftAt(node: Node, ghost ctx: Ctx, ghost t: Tree, ghost m0: Memory) returns (ghost m: Memory)
      requires At(m0, ctx, t) && LeansRight(t) && t.n == node
      modifies this`rbNode, m0.Keys
      ensures At(m, ctx, TurnLeft(t)) && m.Keys == m0.Keys
    {
      LeanCells(m0, rbNode, ctx, t);
      LeftRotatedCells(m0, node);
      m := RotateLeft(node, m0);
      TurnLeftState(m0, m, old(rbNode), ctx, t.l, t.n, t.c, t.r.l, t.r.n, t.r.c, t.r.r);
    }

    method TurnRightAt(node: Node, ghost ctx: Ctx, ghost t: Tree, ghost m0: Memory) returns (ghost m: Memory)
      requires At(m0, ctx, t) && LeansLeft(t) && t.n == node
      modifies this`rbNode, m0.Keys
      ensures At(m, ctx, TurnRight(t)) && m.Keys == m0.Keys
    {
      LeanCells(m0, rbNode, ctx, t);
      RightRotatedCells(m0, node);
      m := RotateRight(node, m0);
      TurnRightState(m0, m, old(rbNode), ctx, t.l.l, t.l.n, t.l.c, t.l.r, t.n, t.c, t.r);
    }

    // ---------- Insertion ----------

    /** Linking a red leaf can only have put a red node below a red parent; this repairs it. */
    method InsertColor(inserted: Node, ghost ctx0: Ctx, ghost m0: Memory) returns (ghost m: Memory)
      requires At(m0, ctx0, Bin(Nil, inserted, Red, Nil)) && GoodCtx(ctx0, 0)
      modifies this`rbNode, this`shape, m0.Keys
      ensures m.Keys == m0.Keys && At(m, Top, shape) && RedBlack(shape)
      ensures Order(shape) == Before(ctx0) + [inserted] + After(ctx0)
    {
      m := m0;
      var node := inserted;
      ghost var ctx, t := ctx0, Bin(Nil, inserted, Red, Nil);
      var parent := node.parent;
      while parent != null && parent.color == Red
        invariant At(m, ctx, t) && m.Keys == m0.Keys
        invariant t.Bin? && t.n == node && parent == Par(ctx) && RedAt(ctx, t)
        invariant Around(ctx, t) == Around(ctx0, Bin(Nil, inserted, Red, Nil))
        decreases Depth(ctx)
      {
        m, node, ctx, t := InsertStep(node, parent, ctx, t, m);
        parent := node.parent;
      }
      assert Order(Bin(Nil, inserted, Red, Nil)) == [inserted];
      InsertDone(ctx, t);
      m := BlackenRoot(ctx, t, BlackHeight(t), m);
    }

    // rb_set_black(root->rb_node)
    method BlackenRoot(ghost ctx: Ctx, ghost t: Tree, ghost h: nat, ghost m0: Memory) returns (ghost m: Memory)
      requires At(m0, ctx, t) && t.Bin? && GoodCtx(ctx, h)
      modifies this`shape, m0.Keys
      ensures m.Keys == m0.Keys && At(m, Top, shape) && shape == Rooted(ctx, t)
    {
      RootedState(m0, rbNode, ctx, t, h);
      m := PutColor(rbNode, Black, m0);
      shape := Rooted(ctx, t);
    }

    // One round of the loop: the violation ends or moves two levels up
    method InsertStep(n: Node, parent: Node, ghost ctx0: Ctx, ghost t0: Tree, ghost m0: Memory)
      returns (ghost m: Memory, node: Node, ghost ctx: Ctx, ghost t: Tree)
      requires At(m0, ctx0, t0) && RedRed(ctx0, t0) && t0.n == n && ctx0.n == parent
      modifies this`rbNode, m0.Keys
      ensures At(m, ctx, t) && m.Keys == m0.Keys && RedAt(ctx, t) && t.n == node && node.parent == Par(ctx)
      ensures Around(ctx, t) == Around(ctx0, t0) && Depth(ctx) < Depth(ctx0)
    {
      RedRedCells(m0, rbNode, ctx0, t0);
      var gparent := parent.parent;
      if parent == gparent.left {
        m, node, ctx, t := InsertStepLeft(n, parent, gparent, ctx0, t0, m0);
      } else {
        m, node, ctx, t := InsertStepRight(n, parent, gparent, ctx0, t0, m0);
      }
    }

    // The parent is a left child
    method InsertStepLeft(n: Node, par: Node, gparent: Node, ghost ctx0: Ctx, ghost t0: Tree, ghost m0: Memory)
      returns (ghost m: Memory, node: Node, ghost ctx: Ctx, ghost t: Tree)
      requires At(m0, ctx0, t0) && RedRed(ctx0, t0) && t0.n == n && ctx0.n == par && ctx0.up.InLeft? &&
        ctx0.up.n == gparent
      modifies this`rbNode, m0.Keys
      ensures At(m, ctx, t) && m.Keys == m0.Keys && RedAt(ctx, t) && t.n == node && node.parent == Par(ctx)
      ensures Around(ctx, t) == Around(ctx0, t0) && Depth(ctx) < Depth(ctx0)
    {
      var parent := par;
      node, m, ctx, t := n, m0, ctx0, t0;
      RedRedCells(m, rbNode, ctx, t);
      var uncle := gparent.right;
      if uncle != null && uncle.color == Red {
        m, ctx, t := RecolorUp(uncle, parent, gparent, ctx, t, m);
        node := gparent;
        return;
      }
      if parent.right == n {
        LineUpLeft(ctx.up, parent, ctx.l, t);
        StepUp(m, rbNode, ctx, t);
        m := TurnLeftAt(parent, ctx.up, Up(ctx, t), m);
        ctx, t := InLeft(ctx.up, n, Red, t.r), Bin(ctx.l, parent, Red, t.l);
        StepUp(m, rbNode, ctx, t);
        parent, node := node, parent;
      }
      m, ctx := RaiseRight(parent, gparent, ctx, t, m);
    }

    method InsertStepRight(n: Node, par: Node, gparent: Node, ghost ctx0: Ctx, ghost t0: Tree, ghost m0: Memory)
      returns (ghost m: Memory, node: Node, ghost ctx: Ctx, ghost t: Tree)
      requires At(m0, ctx0, t0) && RedRed(ctx0, t0) && t0.n == n && ctx0.n == par && ctx0.up.InRight? &&
        ctx0.up.n == gparent
      modifies this`rbNode, m0.Keys
      ensures At(m, ctx, t) && m.Keys == m0.Keys && RedAt(ctx, t) && t.n == node && node.parent == Par(ctx)
      ensures Around(ctx, t) == Around(ctx0, t0) && Depth(ctx) < Depth(ctx0)
    {
      var parent := par;
      node, m, ctx, t := n, m0, ctx0, t0;
      RedRedCells(m, rbNode, ctx, t);
      var uncle := gparent.left;
      if uncle != null && uncle.color == Red {
        m, ctx, t := RecolorUp(uncle, parent, gparent, ctx, t, m);
        node := gparent;
        return;
      }
      if parent.left == n {
        LineUpRight(ctx.up, parent, ctx.r, t);
        StepUp(m, rbNode, ctx, t);
        m := TurnRightAt(parent, ctx.up, Up(ctx, t), m);
        ctx, t := InRight(ctx.up, n, Red, t.l), Bin(t.r, parent, Red, ctx.r);
        StepUp(m, rbNode, ctx, t);
        parent, node := node, parent;
      }
      m, ctx := RaiseLeft(parent, gparent, ctx, t, m);
    }

    // Red uncle, on either side
    method RecolorUp(uncle: Node, parent: Node, gparent: Node, ghost ctx0: Ctx, ghost t0: Tree, ghost m0: Memory)
      returns (ghost m: Memory, ghost ctx: Ctx, ghost t: Tree)
      requires At(m0, ctx0, t0) && RedRed(ctx0, t0) && ctx0.n == parent && !ctx0.up.Top? && ctx0.up.n == gparent
      requires IsRed(Beside(ctx0.up)) && Beside(ctx0.up).n == uncle && {uncle, parent, gparent} <= m0.Keys
      modifies m0.Keys
      ensures At(m, ctx, t) && m.Keys == m0.Keys && RedAt(ctx, t) && t.n == gparent
      ensures Around(ctx, t) == Around(ctx0, t0) && Depth(ctx) < Depth(ctx0)
    {
      hide State, Synced;
      t := Recolor(ctx0, t0);
      ctx := ctx0.up.up;
      RecolorState(m0, rbNode, ctx0, t0);
      RecolorStep(ctx0, t0);
      m := PutColor(uncle, Black, m0);
      m := PutColor(parent, Black, m);
      m := PutColor(gparent, Red, m);
    }

    method RaiseRight(parent: Node, gparent: Node, ghost ctx0: Ctx, ghost t: Tree, ghost m0: Memory)
      returns (ghost m: Memory, ghost ctx: Ctx)
      requires At(m0, ctx0, t) && RedRed(ctx0, t) && ctx0.InLeft? && ctx0.n == parent
      requires ctx0.up.InLeft? && ctx0.up.n == gparent && !IsRed(ctx0.up.r)
      modifies this`rbNode, m0.Keys
      ensures At(m, ctx, t) && m.Keys == m0.Keys && RedAt(ctx, t) && !ctx.Top? && ctx.n == parent
      ensures Around(ctx, t) == Around(ctx0, t) && Depth(ctx) < Depth(ctx0)
    {
      hide State, Synced, Good, BlackHeight, GoodCtx;
      ghost var up, u, r := ctx0.up.up, ctx0.up.r, ctx0.r;
      RedRedCells(m0, rbNode, ctx0, t);
      RaiseParentRight(up, gparent, u, parent, r, t);
      PairPainted(m0, rbNode, ctx0, t);
      m := PutColor(parent, Black, m0);
      m := PutColor(gparent, Red, m);
      m := TurnRightAt(gparent, up, Bin(Bin(t, parent, Black, r), gparent, Red, u), m);
      ctx := InLeft(up, parent, Black, Bin(r, gparent, Red, u));
      StepUp(m, rbNode, ctx, t);
    }

    method RaiseLeft(parent: Node, gparent: Node, ghost ctx0: Ctx, ghost t: Tree, ghost m0: Memory)
      returns (ghost m: Memory, ghost ctx: Ctx)
      requires At(m0, ctx0, t) && RedRed(ctx0, t) && ctx0.InRight? && ctx0.n == parent
      requires ctx0.up.InRight? && ctx0.up.n == gparent && !IsRed(ctx0.up.l)
      modifies this`rbNode, m0.Keys
      ensures At(m, ctx, t) && m.Keys == m0.Keys && RedAt(ctx, t) && !ctx.Top? && ctx.n == parent
      ensures Around(ctx, t) == Around(ctx0, t) && Depth(ctx) < Depth(ctx0)
    {
      hide State, Synced, Good, BlackHeight, GoodCtx;
      ghost var up, u, l := ctx0.up.up, ctx0.up.l, ctx0.l;
      RedRedCells(m0, rbNode, ctx0, t);
      RaiseParentLeft(up, gparent, u, parent, l, t);
      PairPainted(m0, rbNode, ctx0, t);
      m := PutColor(parent, Black, m0);
      m := PutColor(gparent, Red, m);
      m := TurnLeftAt(gparent, up, Bin(u, gparent, Red, Bin(l, parent, Black, t)), m);
      ctx := InRight(up, parent, Black, Bin(u, gparent, Red, l));
      StepUp(m, rbNode, ctx, t);
    }

    // ---------- Erasure: the fix-up ----------

    // Red sibling; afterwards the sibling is black
    method UncoverRight(parent: Node, other: Node, ghost ctx0: Ctx, ghost t: Tree, ghost m0: Memory)
      returns (ghost m: Memory, ghost ctx: Ctx)
      requires At(m0, ctx0, t) && BlackDeficit(ctx0, t) && ctx0.InLeft? && ctx0.n == parent && IsRed(ctx0.r) &&
        ctx0.r.n == other
      modifies this`rbNode, m0.Keys
      ensures At(m, ctx, t) && m.Keys == m0.Keys && BlackDeficit(ctx, t) && Around(ctx, t) == Around(ctx0, t)
      ensures ctx.InLeft? && ctx.n == parent && ctx.c == Red && ctx.r.Bin? && ctx.r.c == Black
    {
      hide State, Synced, Good, GoodCtx, BlackHeight, Around;
      ghost var s := ctx0.r.(c := Black);
      RedSiblingLeft(ctx0.up, parent, ctx0.c, ctx0.r, t);
      DeficitCells(m0, rbNode, ctx0, t);
      UncoverPaint(m0, rbNode, ctx0, t);
      m := PutColor(other, Black, m0);
      m := PutColor(parent, Red, m);
      m := TurnLeftAt(parent, ctx0.up, Bin(t, parent, Red, s), m);
      ctx := InLeft(InLeft(ctx0.up, other, Black, s.r), parent, Red, s.l);
      StepUp(m, rbNode, ctx.up, Up(ctx, t));
      StepUp(m, rbNode, ctx, t);
    }

    method UncoverLeft(parent: Node, other: Node, ghost ctx0: Ctx, ghost t: Tree, ghost m0: Memory)
      returns (ghost m: Memory, ghost ctx: Ctx)
      requires At(m0, ctx0, t) && BlackDeficit(ctx0, t) && ctx0.InRight? && ctx0.n == parent && IsRed(ctx0.l) &&
        ctx0.l.n == other
      modifies this`rbNode, m0.Keys
      ensures At(m, ctx, t) && m.Keys == m0.Keys && BlackDeficit(ctx, t) && Around(ctx, t) == Around(ctx0, t)
      ensures ctx.InRight? && ctx.n == parent && ctx.c == Red && ctx.l.Bin? && ctx.l.c == Black
    {
      hide State, Synced, Good, GoodCtx, BlackHeight, Around;
      ghost var s := ctx0.l.(c := Black);
      RedSiblingRight(ctx0.up, parent, ctx0.c, ctx0.l, t);
      DeficitCells(m0, rbNode, ctx0, t);
      UncoverPaint(m0, rbNode, ctx0, t);
      m := PutColor(other, Black, m0);
      m := PutColor(parent, Red, m);
      m := TurnRightAt(parent, ctx0.up, Bin(s, parent, Red, t), m);
      ctx := InRight(InRight(ctx0.up, other, Black, s.l), parent, Red, s.r);
      StepUp(m, rbNode, ctx.up, Up(ctx, t));
      StepUp(m, rbNode, ctx, t);
    }

    // Only the near nephew is red; afterwards the far one is
    method ReddenFarRight(other: Node, ghost ctx0: Ctx, ghost t: Tree, ghost m0: Memory)
      returns (ghost m: Memory, ghost ctx: Ctx)
      requires At(m0, ctx0, t) && BlackDeficit(ctx0, t) && ctx0.InLeft?
      requires ctx0.r.Bin? && ctx0.r.c == Black && ctx0.r.n == other && IsRed(ctx0.r.l) && !IsRed(ctx0.r.r)
      modifies this`rbNode, m0.Keys
      ensures At(m, ctx, t) && m.Keys == m0.Keys && BlackDeficit(ctx, t) && Around(ctx, t) == Around(ctx0, t)
      ensures ctx.InLeft? && ctx.n == ctx0.n && ctx.r.Bin? && ctx.r.c == Black && IsRed(ctx.r.r)
    {
      hide State, Good, GoodCtx, BlackHeight, Around;
      ghost var s, over := ctx0.r, Across(ctx0, t);
      FarRedLeft(ctx0.up, ctx0.n, ctx0.c, s, t);
      DeficitCells(m0, rbNode, ctx0, t);
      StepAcross(m0, rbNode, ctx0, t);
      FarRedPaint(m0, rbNode, over, s);
      m := PutColor(other.left, Black, m0);
      m := PutColor(other, Red, m);
      s := Bin(s.l.(c := Black), other, Red, s.r);
      m := TurnRightAt(other, over, s, m);
      ctx := InLeft(ctx0.up, ctx0.n, ctx0.c, TurnRight(s));
      StepAcross(m, rbNode, ctx, t);
    }

    method ReddenFarLeft(other: Node, ghost ctx0: Ctx, ghost t: Tree, ghost m0: Memory)
      returns (ghost m: Memory, ghost ctx: Ctx)
      requires At(m0, ctx0, t) && BlackDeficit(ctx0, t) && ctx0.InRight?
      requires ctx0.l.Bin? && ctx0.l.c == Black && ctx0.l.n == other && IsRed(ctx0.l.r) && !IsRed(ctx0.l.l)
      modifies this`rbNode, m0.Keys
      ensures At(m, ctx, t) && m.Keys == m0.Keys && BlackDeficit(ctx, t) && Around(ctx, t) == Around(ctx0, t)
      ensures ctx.InRight? && ctx.n == ctx0.n && ctx.l.Bin? && ctx.l.c == Black && IsRed(ctx.l.l)
    {
      hide State, Good, GoodCtx, BlackHeight, Around;
      ghost var s, over := ctx0.l, Across(ctx0, t);
      FarRedRight(ctx0.up, ctx0.n, ctx0.c, s, t);
      DeficitCells(m0, rbNode, ctx0, t);
      StepAcross(m0, rbNode, ctx0, t);
      FarRedPaint(m0, rbNode, over, s);
      m := PutColor(other.right, Black, m0);
      m := PutColor(other, Red, m);
      s := Bin(s.l, other, Red, s.r.(c := Black));
      m := TurnLeftAt(other, over, s, m);
      ctx := InRight(ctx0.up, ctx0.n, ctx0.c, TurnLeft(s));
      StepAcross(m, rbNode, ctx, t);
    }

    // The far nephew is red
    method SettleRightSide(parent: Node, other: Node, ghost ctx: Ctx, ghost t: Tree, ghost m0: Memory)
      returns (ghost m: Memory, ghost u: Tree)
      requires At(m0, ctx, t) && BlackDeficit(ctx, t) && ctx.InLeft? && ctx.n == parent
      requires ctx.r.Bin? && ctx.r.c == Black && ctx.r.n == other && IsRed(ctx.r.r)
      modifies this`rbNode, m0.Keys
      ensures At(m, Top, u) && m.Keys == m0.Keys && RedBlack(u) && Order(u) == Around(ctx, t)
    {
      hide State, Synced, Good, GoodCtx, BlackHeight, Around;
      SettleLeft(ctx.up, parent, ctx.c, ctx.r, t);
      SettleCells(m0, rbNode, ctx, t);
      SettlePaint(m0, rbNode, ctx, t);
      m := PutColor(other, parent.color, m0);
      m := PutColor(parent, Black, m);
      m := PutColor(other.right, Black, m);
      u := Bin(t, parent, Black, Settled(ctx));
      m := TurnLeftAt(parent, ctx.up, u, m);
      ZipUp(m, rbNode, ctx.up, TurnLeft(u));
      u := Plug(ctx.up, TurnLeft(u));
    }

    method SettleLeftSide(parent: Node, other: Node, ghost ctx: Ctx, ghost t: Tree, ghost m0: Memory)
      returns (ghost m: Memory, ghost u: Tree)
      requires At(m0, ctx, t) && BlackDeficit(ctx, t) && ctx.InRight? && ctx.n == parent
      requires ctx.l.Bin? && ctx.l.c == Black && ctx.l.n == other && IsRed(ctx.l.l)
      modifies this`rbNode, m0.Keys
      ensures At(m, Top, u) && m.Keys == m0.Keys && RedBlack(u) && Order(u) == Around(ctx, t)
    {
      hide State, Synced, Good, GoodCtx, BlackHeight, Around;
      SettleRight(ctx.up, parent, ctx.c, ctx.l, t);
      SettleCells(m0, rbNode, ctx, t);
      SettlePaint(m0, rbNode, ctx, t);
      m := PutColor(other, parent.color, m0);
      m := PutColor(parent, Black, m);
      m := PutColor(other.left, Black, m);
      u := Bin(Settled(ctx), parent, Black, t);
      m := TurnRightAt(parent, ctx.up, u, m);
      ZipUp(m, rbNode, ctx.up, TurnRight(u));
      u := Plug(ctx.up, TurnRight(u));
    }

    // The focus is a left child
    method EraseStepLeft(par: Node, ghost ctx0: Ctx, ghost t0: Tree, ghost m0: Memory)
      returns (ghost m: Memory, node: Node?, parent: Node?, ghost ctx: Ctx, ghost t: Tree)
      requires At(m0, ctx0, t0) && BlackDeficit(ctx0, t0) && ctx0.InLeft? && ctx0.n == par
      modifies this`rbNode, m0.Keys
      ensures At(m, ctx, t) && m.Keys == m0.Keys && Ptr(t) == node && (ctx.Top? || parent == Par(ctx))
      ensures Deficit(ctx, t) && Around(ctx, t) == Around(ctx0, t0) && Effort(ctx, t) < Effort(ctx0, t0)
    {
      hide State, Good, GoodCtx, BlackHeight, Around;
      m, parent, ctx, t := m0, par, ctx0, t0;
      DeficitCells(m, rbNode, ctx, t);
      var other := parent.right;
      if other.color == Red {
        m, ctx := UncoverRight(parent, other, ctx, t, m);
        DeficitCells(m, rbNode, ctx, t);
        other := parent.right;
      }
      m, node, parent, ctx, t := WithRightBlack(other, parent, ctx, t, m);
    }

    // The sibling, on the right, is black
    method WithRightBlack(sibling: Node, par: Node, ghost ctx0: Ctx, ghost t0: Tree, ghost m0: Memory)
      returns (ghost m: Memory, node: Node?, parent: Node?, ghost ctx: Ctx, ghost t: Tree)
      requires At(m0, ctx0, t0) && BlackDeficit(ctx0, t0) && ctx0.InLeft? && ctx0.n == par
      requires Beside(ctx0).Bin? && Beside(ctx0).n == sibling && Beside(ctx0).c == Black
      modifies this`rbNode, m0.Keys
      ensures At(m, ctx, t) && m.Keys == m0.Keys && Ptr(t) == node && (ctx.Top? || parent == Par(ctx))
      ensures Deficit(ctx, t) && Around(ctx, t) == Around(ctx0, t0)
      ensures ctx.Top? || (ctx == ctx0.up && (IsRed(t) <==> ctx0.c == Red))
    {
      hide Good, GoodCtx, BlackHeight, Around;
      var other := sibling;
      m, parent, ctx, t := m0, par, ctx0, t0;
      DeficitCells(m, rbNode, ctx, t);
      if (other.left == null || other.left.color == Black) && (other.right == null || other.right.color == Black) {
        m, node, parent, ctx, t := PassUpAt(other, parent, ctx, t, m);
      } else {
        m, t := RotateOutRight(other, parent, ctx, t, m);
        ctx := Top;
        node := rbNode;
      }
    }

    // ... and one of its children is red
    method RotateOutRight(sibling: Node, parent: Node, ghost ctx0: Ctx, ghost t: Tree, ghost m0: Memory)
      returns (ghost m: Memory, ghost u: Tree)
      requires At(m0, ctx0, t) && BlackDeficit(ctx0, t) && ctx0.InLeft? && ctx0.n == parent
      requires ctx0.r.Bin? && ctx0.r.n == sibling && ctx0.r.c == Black && (IsRed(ctx0.r.l) || IsRed(ctx0.r.r))
      modifies this`rbNode, m0.Keys
      ensures At(m, Top, u) && m.Keys == m0.Keys && Deficit(Top, u) && Around(Top, u) == Around(ctx0, t)
    {
      hide State, Good, GoodCtx, BlackHeight, Around;
      var other := sibling;
      ghost var ctx := ctx0;
      m := m0;
      DeficitCells(m, rbNode, ctx, t);
      if other.right == null || other.right.color == Black {
        m, ctx := ReddenFarRight(other, ctx, t, m);
        DeficitCells(m, rbNode, ctx, t);
        other := parent.right;
      }
      m, u := SettleRightSide(parent, other, ctx, t, m);
      TopDone(u);
    }

    method EraseStepRight(par: Node, ghost ctx0: Ctx, ghost t0: Tree, ghost m0: Memory)
      returns (ghost m: Memory, node: Node?, parent: Node?, ghost ctx: Ctx, ghost t: Tree)
      requires At(m0, ctx0, t0) && BlackDeficit(ctx0, t0) && ctx0.InRight? && ctx0.n == par
      modifies this`rbNode, m0.Keys
      ensures At(m, ctx, t) && m.Keys == m0.Keys && Ptr(t) == node && (ctx.Top? || parent == Par(ctx))
      ensures Deficit(ctx, t) && Around(ctx, t) == Around(ctx0, t0) && Effort(ctx, t) < Effort(ctx0, t0)
    {
      hide State, Good, GoodCtx, BlackHeight, Around;
      m, parent, ctx, t := m0, par, ctx0, t0;
      DeficitCells(m, rbNode, ctx, t);
      var other := parent.left;
      if other.color == Red {
        m, ctx := UncoverLeft(parent, other, ctx, t, m);
        DeficitCells(m, rbNode, ctx, t);
        other := parent.left;
      }
      m, node, parent, ctx, t := WithLeftBlack(other, parent, ctx, t, m);
    }

    // The sibling, on the left, is black
    method WithLeftBlack(sibling: Node, par: Node, ghost ctx0: Ctx, ghost t0: Tree, ghost m0: Memory)
      returns (ghost m: Memory, node: Node?, parent: Node?, ghost ctx: Ctx, ghost t: Tree)
      requires At(m0, ctx0, t0) && BlackDeficit(ctx0, t0) && ctx0.InRight? && ctx0.n == par
      requires Beside(ctx0).Bin? && Beside(ctx0).n == sibling && Beside(ctx0).c == Black
      modifies this`rbNode, m0.Keys
      ensures At(m, ctx, t) && m.Keys == m0.Keys && Ptr(t) == node && (ctx.Top? || parent == Par(ctx))
      ensures Deficit(ctx, t) && Around(ctx, t) == Around(ctx0, t0)
      ensures ctx.Top? || (ctx == ctx0.up && (IsRed(t) <==> ctx0.c == Red))
    {
      hide Good, GoodCtx, BlackHeight, Around;
      var other := sibling;
      m, parent, ctx, t := m0, par, ctx0, t0;
      DeficitCells(m, rbNode, ctx, t);
      if (other.left == null || other.left.color == Black) && (other.right == null || other.right.color == Black) {
        m, node, parent, ctx, t := PassUpAt(other, parent, ctx, t, m);
      } else {
        m, t := RotateOutLeft(other, parent, ctx, t, m);
        ctx := Top;
        node := rbNode;
      }
    }

    // ... and one of its children is red
    method RotateOutLeft(sibling: Node, parent: Node, ghost ctx0: Ctx, ghost t: Tree, ghost m0: Memory)
      returns (ghost m: Memory, ghost u: Tree)
      requires At(m0, ctx0, t) && BlackDeficit(ctx0, t) && ctx0.InRight? && ctx0.n == parent
      requires ctx0.l.Bin? && ctx0.l.n == sibling && ctx0.l.c == Black && (IsRed(ctx0.l.l) || IsRed(ctx0.l.r))
      modifies this`rbNode, m0.Keys
      ensures At(m, Top, u) && m.Keys == m0.Keys && Deficit(Top, u) && Around(Top, u) == Around(ctx0, t)
    {
      hide State, Good, GoodCtx, BlackHeight, Around;
      var other := sibling;
      ghost var ctx := ctx0;
      m := m0;
      DeficitCells(m, rbNode, ctx, t);
      if other.left == null || other.left.color == Black {
        m, ctx := ReddenFarLeft(other, ctx, t, m);
        DeficitCells(m, rbNode, ctx, t);
        other := parent.left;
      }
      m, u := SettleLeftSide(parent, other, ctx, t, m);
      TopDone(u);
    }

    // Black sibling with no red child: it turns red, and the deficit is the parent's
    method PassUpAt(other: Node, par: Node, ghost ctx0: Ctx, ghost t0: Tree, ghost m0: Memory)
      returns (ghost m: Memory, node: Node, parent: Node?, ghost ctx: Ctx, ghost t: Tree)
      requires At(m0, ctx0, t0) && BlackDeficit(ctx0, t0) && ctx0.n == par && Beside(ctx0).Bin? &&
        Beside(ctx0).n == other
      requires Beside(ctx0).c == Black && !IsRed(Beside(ctx0).l) && !IsRed(Beside(ctx0).r)
      modifies m0.Keys
      ensures At(m, ctx, t) && m.Keys == m0.Keys && ctx == ctx0.up && t.Bin? && t.n == node && t.c == ctx0.c &&
        parent == Par(ctx)
      ensures Deficit(ctx, t) && Around(ctx, t) == Around(ctx0, t0)
    {
      DeficitCells(m0, rbNode, ctx0, t0);
      PassUp(ctx0, t0);
      SiblingPainted(m0, rbNode, ctx0, t0, Red);
      m := PutColor(other, Red, m0);
      node := par;
      parent := node.parent;
      ctx := WithBeside(ctx0, Beside(ctx0).(c := Red));
      StepUp(m, rbNode, ctx, t0);
      ctx, t := ctx0.up, Up(ctx, t0);
    }

    /** One black node is missing on the paths through the focus `t`; this makes up for it. */
    method EraseColor(n: Node?, par: Node?, ghost ctx0: Ctx, ghost t0: Tree, ghost m0: Memory) returns (ghost m: Memory)
      requires At(m0, ctx0, t0) && Ptr(t0) == n && Par(ctx0) == par && Deficit(ctx0, t0)
      modifies this`rbNode, this`shape, m0.Keys
      ensures m.Keys == m0.Keys && At(m, Top, shape) && RedBlack(shape)
      ensures Order(shape) == Around(ctx0, t0)
    {
      hide Good, GoodCtx, Around, BlackHeight, Effort, Order, Deficit;
      m := m0;
      var node, parent := n, par;
      ghost var ctx, t := ctx0, t0;
      while (node == null || node.color == Black) && node != rbNode
        invariant At(m, ctx, t) && m.Keys == m0.Keys && Ptr(t) == node && (ctx.Top? || parent == Par(ctx))
        invariant Deficit(ctx, t) && Around(ctx, t) == Around(ctx0, t0)
        decreases Effort(ctx, t)
      {
        m, node, parent, ctx, t := EraseStep(node, parent, ctx, t, m);
      }
      m := PaintLast(node, ctx, t, m);
    }

    // The loop has ended at a red node or at the root
    method PaintLast(node: Node?, ghost ctx: Ctx, ghost t: Tree, ghost m0: Memory) returns (ghost m: Memory)
      requires At(m0, ctx, t) && Ptr(t) == node && Deficit(ctx, t)
      requires node == rbNode || (node != null && node.color == Red)
      modifies this`shape, m0.Keys
      ensures m.Keys == m0.Keys && At(m, Top, shape) && RedBlack(shape) && Order(shape) == Around(ctx, t)
    {
      hide Good, GoodCtx, Around, BlackHeight, Order;
      m := m0;
      TopIsAbove(m, rbNode, ctx, t);
      EraseDone(ctx, t);
      if node != null {
        Painted(m, rbNode, ctx, t, Black);
        m := PutColor(node, Black, m);
      }
      ZipUp(m, rbNode, ctx, Blackened(t));
      shape := Plug(ctx, Blackened(t));
    }

    method EraseStep(n: Node?, par: Node?, ghost ctx0: Ctx, ghost t0: Tree, ghost m0: Memory)
      returns (ghost m: Memory, node: Node?, parent: Node?, ghost ctx: Ctx, ghost t: Tree)
      requires At(m0, ctx0, t0) && Deficit(ctx0, t0) && n != rbNode && Ptr(t0) == n && !IsRed(t0)
      requires ctx0.Top? || par == Par(ctx0)
      modifies this`rbNode, m0.Keys
      ensures At(m, ctx, t) && m.Keys == m0.Keys && Ptr(t) == node && (ctx.Top? || parent == Par(ctx))
      ensures Deficit(ctx, t) && Around(ctx, t) == Around(ctx0, t0) && Effort(ctx, t) < Effort(ctx0, t0)
    {
      TopIsAbove(m0, rbNode, ctx0, t0);
      DeficitCells(m0, rbNode, ctx0, t0);
      if par.left == n {
        m, node, parent, ctx, t := EraseStepLeft(par, ctx0, t0, m0);
      } else {
        m, node, parent, ctx, t := EraseStepRight(par, ctx0, t0, m0);
      }
    }

    // ---------- Erasure ----------

    /** Takes `n` out of the tree. */
    method Erase(n: Node)
      requires Valid() && n in Nodes(shape)
      modifies this, mem.Keys
      ensures Valid() && mem.Keys == old(mem.Keys) - {n}
      ensures Order(shape) == Without(old(Order(shape)), n)
    {
      ghost var m := EraseAndRebalance(n);
      Forget(m, rbNode, old(shape), shape, n);
      m := m - {n};
      mem := m;
    }

    method EraseAndRebalance(n: Node) returns (ghost m: Memory)
      requires Valid() && n in Nodes(shape)
      modifies this`rbNode, this`shape, mem.Keys
      ensures At(m, Top, shape) && RedBlack(shape) && m.Keys == mem.Keys
      ensures Order(shape) == Without(old(Order(shape)), n)
    {
      ghost var ctx, t := Focus(mem, rbNode, shape, n);
      ghost var ctx', u;
      var child, parent, color;
      m, child, parent, color, ctx', u := TakeOut(n, ctx, t, mem);
      m := Rebalance(child, parent, color, ctx', u, m);
    }

    method TakeOut(n: Node, ghost ctx0: Ctx, ghost t: Tree, ghost m0: Memory)
      returns (ghost m: Memory, child: Node?, parent: Node?, color: Color, ghost ctx: Ctx, ghost u: Tree)
      requires At(m0, ctx0, t) && t.Bin? && t.n == n && Balanced(ctx0, t) && Uniq(Plug(ctx0, t))
      modifies this`rbNode, m0.Keys
      ensures At(m, ctx, u) && m.Keys == m0.Keys && parent == Par(ctx) && child == Ptr(u)
      ensures if color == Black then Deficit(ctx, u) else Balanced(ctx, u)
      ensures Around(ctx, u) == Without(Order(Plug(ctx0, t)), n)
    {
      if n.left == null {
        child := n.right;
        m, parent, color := UnlinkAt(n, child, ctx0, t, m0);
        ctx, u := ctx0, t.r;
      } else if n.right == null {
        child := n.left;
        m, parent, color := UnlinkAt(n, child, ctx0, t, m0);
        ctx, u := ctx0, t.l;
      } else {
        m, child, parent, color, ctx, u := UnlinkBySuccessor(n, ctx0, t, m0);
      }
    }

    // A node with at most one child
    method Unlink(node: Node, child: Node?, ghost m0: Memory) returns (ghost m: Memory, parent: Node?, color: Color)
      requires Synced(m0) && node in m0 && (child != null ==> child in m0) && child != node
      requires m0[node].parent != null ==> m0[node].parent in m0
      modifies this`rbNode, m0.Keys
      ensures Synced(m) && m.Keys == m0.Keys && m == Spliced(m0, parent, node, child)
      ensures rbNode == NewTop(old(rbNode), parent, child) && parent == m0[node].parent && color == m0[node].color
    {
      parent := node.parent;
      color := node.color;
      m := m0;
      if child != null {
        m := PutParent(child, parent, m);
      }
      m := RelinkTestingLeft(parent, node, child, m);
    }

    method UnlinkAt(node: Node, child: Node?, ghost ctx: Ctx, ghost t: Tree, ghost m0: Memory)
      returns (ghost m: Memory, parent: Node?, color: Color)
      requires At(m0, ctx, t) && t.Bin? && t.n == node && (t.l.Nil? || t.r.Nil?) && child == Ptr(OnlyChild(t))
      requires Balanced(ctx, t) && Uniq(Plug(ctx, t))
      modifies this`rbNode, m0.Keys
      ensures At(m, ctx, OnlyChild(t)) && m.Keys == m0.Keys && parent == Par(ctx)
      ensures if color == Black then Deficit(ctx, OnlyChild(t)) else Balanced(ctx, OnlyChild(t))
      ensures Around(ctx, OnlyChild(t)) == Without(Order(Plug(ctx, t)), node)
    {
      OutBalance(ctx, t);
      OrderOut(ctx, t);
      SplicedState(m0, rbNode, ctx, t);
      m, parent, color := Unlink(node, child, m0);
    }

    method UnlinkBySuccessor(n: Node, ghost ctx0: Ctx, ghost t: Tree, ghost m0: Memory)
      returns (ghost m: Memory, child: Node?, parent: Node?, color: Color, ghost ctx: Ctx, ghost u: Tree)
      requires At(m0, ctx0, t) && t.Bin? && t.n == n && t.l.Bin? && t.r.Bin? && Balanced(ctx0, t) && Uniq(Plug(ctx0, t))
      modifies this`rbNode, m0.Keys
      ensures At(m, ctx, u) && m.Keys == m0.Keys && parent == Par(ctx) && child == Ptr(u)
      ensures if color == Black then Deficit(ctx, u) else Balanced(ctx, u)
      ensures Around(ctx, u) == Without(Order(Plug(ctx0, t)), n)
    {
      var node;
      ghost var inner, s;
      node, inner, s := FindSuccessor(n, ctx0, t, m0);
      SuccessorBalance(ctx0, t, inner, s);
      OrderSuccessorOut(ctx0, t, inner, s);
      m, child, parent, color := SwapIn(n, node, ctx0, t, inner, s, m0);
      ctx, u := SuccessorCtx(ctx0, t, node, inner), s.r;
    }

    method SwapIn(n: Node, node: Node, ghost ctx: Ctx, ghost t: Tree, ghost inner: Ctx, ghost s: Tree, ghost m0: Memory)
      returns (ghost m: Memory, child: Node?, parent: Node?, color: Color)
      requires At(m0, ctx, t) && t.Bin? && t.n == n && HasSuccessor(t, inner, s) && s.n == node
      modifies this`rbNode, m0.Keys
      ensures At(m, SuccessorCtx(ctx, t, node, inner), s.r) && m.Keys == m0.Keys
      ensures child == Ptr(s.r) && parent == Par(SuccessorCtx(ctx, t, node, inner)) && color == s.c
    {
      hide Moved, LiftedUnless;
      SuccessorIsChild(t, inner, s, ctx);
      SuccessorReady(m0, rbNode, ctx, t, inner, s);
      m := RelinkTestingLeft(n.parent, n, node, m0);
      m, child, parent, color := MoveSuccessor(n, node, m);
      SuccessorMoved(m0, m, old(rbNode), ctx, t, inner, s);
    }

    method FindSuccessor(n: Node, ghost ctx: Ctx, ghost t: Tree, ghost m: Memory)
      returns (node: Node, ghost inner: Ctx, ghost s: Tree)
      requires At(m, ctx, t) && t.Bin? && t.n == n && t.l.Bin? && t.r.Bin?
      ensures HasSuccessor(t, inner, s) && s.n == node
    {
      node := n.right;
      inner, s := Top, t.r;
      ghost var q := n;
      while node.left != null
        invariant s.Bin? && s.n == node && Rep(m, s, q) && Leftmost(inner) && t.r == Plug(inner, s)
        decreases s
      {
        q := node;
        node := node.left;
        inner, s := InLeft(inner, s.n, s.c, s.r), s.l;
      }
    }

    // `node` takes the place of `victim`, to whose parent it is already linked
    method MoveSuccessor(victim: Node, node: Node, ghost m0: Memory)
      returns (ghost m: Memory, child: Node?, parent: Node, color: Color)
      requires Synced(m0) && CanMove(m0, victim, node)
      modifies m0.Keys
      ensures Synced(m) && m.Keys == m0.Keys && child == m0[node].right && color == m0[node].color
      ensures m == SuccessorStores(m0, victim, node, m0[node].parent, child)
      ensures parent == if m0[node].parent == victim then node else m0[node].parent
    {
      child := node.right;
      parent := node.parent;
      color := node.color;
      m := LiftSuccessor(victim, node, parent, child, m0);
      if parent == victim {
        parent := node;
      }
      m := TakeOver(victim, node, m);
    }

    // Unless the successor is the right child, it hands its own child to its parent and takes over the right subtree
    method LiftSuccessor(victim: Node, node: Node, parent: Node, child: Node?, ghost m0: Memory)
      returns (ghost m: Memory)
      requires Synced(m0) && {victim, node, parent} <= m0.Keys && (child != null ==> child in m0)
      requires victim != node && child != victim && victim.right != null && victim.right in m0 && victim.right != victim
      modifies m0.Keys
      ensures m == LiftedUnless(m0, victim, node, parent, child, m0[victim].right) && m.Keys == m0.Keys && Synced(m)
      ensures m[victim] == m0[victim]
    {
      m := m0;
      if parent == victim {
        return;
      }
      if child != null {
        m := PutParent(child, parent, m);
      }
      m := PutLeft(parent, child, m);
      m := PutRight(node, victim.right, m);
      m := PutParent(victim.right, node, m);
    }

    // The successor takes the parent, the colour and the left subtree of the erased node
    method TakeOver(victim: Node, node: Node, ghost m0: Memory) returns (ghost m: Memory)
      requires Synced(m0) && {victim, node} <= m0.Keys && victim != node && victim.left != null && victim.left in m0
      modifies m0.Keys
      ensures m == Moved(m0, victim, node, m0[victim].parent, m0[victim].color, m0[victim].left) &&
        m.Keys == m0.Keys && Synced(m)
    {
      m := PutParent(node, victim.parent, m0);
      m := PutColor(node, victim.color, m);
      m := PutLeft(node, victim.left, m);
      m := PutParent(victim.left, node, m);
    }

    method Rebalance(child: Node?, parent: Node?, color: Color, ghost ctx: Ctx, ghost u: Tree, ghost m0: Memory)
      returns (ghost m: Memory)
      requires At(m0, ctx, u) && Ptr(u) == child && Par(ctx) == parent
      requires if color == Black then Deficit(ctx, u) else Balanced(ctx, u)
      modifies this`rbNode, this`shape, m0.Keys
      ensures m.Keys == m0.Keys && At(m, Top, shape) && RedBlack(shape) && Order(shape) == Around(ctx, u)
    {
      m := m0;
      if color == Black {
        m := EraseColor(child, parent, ctx, u, m);
      } else {
        shape := Plug(ctx, u);
        ZipUp(m, rbNode, ctx, u);
        PlugRedBlack(ctx, u);
        OrderPlug(ctx, u);
      }
    }

    // ---------- Walking ----------

    /** The first node in order, or null. */
    method First() returns (n: Node?)
      requires Valid()
      ensures n == FirstOf(Order(shape))
    {
      n := rbNode;
      if n == null {
        return;
      }
      n := Down(n, shape, null);
    }

    lemma Joined(a: seq<Node>, l: seq<Node>, x: Node, r: seq<Node>)
      ensures a + (l + [x] + r) == a + l + [x] + r && (l + [x] + r) + a == l + ([x] + r + a)
    {
    }

    // Left links down to the end
    method Down(node: Node, ghost t: Tree, ghost q: Node?) returns (n: Node)
      requires Synced(mem) && Rep(mem, t, q) && t.Bin? && t.n == node
      ensures Order(t) != [] && n == Order(t)[0]
    {
      n := node;
      ghost var s, p, rest := t, q, [];
      assert Order(t) == Order(s) + rest;
      while n.left != null
        invariant s.Bin? && s.n == n && Rep(mem, s, p) && Order(t) == Order(s) + rest
        decreases s
      {
        Joined(rest, Order(s.l), s.n, Order(s.r));
        rest := [s.n] + Order(s.r) + rest;
        p, s, n := n, s.l, n.left;
      }
    }

    method Last() returns (n: Node?)
      requires Valid()
      ensures n == LastOf(Order(shape))
    {
      n := rbNode;
      if n == null {
        return;
      }
      n := DownRight(n, shape, null);
    }

    method DownRight(node: Node, ghost t: Tree, ghost q: Node?) returns (n: Node)
      requires Synced(mem) && Rep(mem, t, q) && t.Bin? && t.n == node
      ensures Order(t) != [] && n == Order(t)[|Order(t)| - 1]
    {
      n := node;
      ghost var s, p, rest := t, q, [];
      assert Order(t) == rest + Order(s);
      while n.right != null
        invariant s.Bin? && s.n == n && Rep(mem, s, p) && Order(t) == rest + Order(s)
        decreases s
      {
        Joined(rest, Order(s.l), s.n, Order(s.r));
        rest := rest + Order(s.l) + [s.n];
        p, s, n := n, s.r, n.right;
      }
    }

    /** The node after `start`; a node that is its own parent is in no tree and has none. */
    method Next(start: Node) returns (r: Node?)
      requires start.parent == start || (Valid() && start in Nodes(shape))
      ensures start.parent == start ==> r == null
      ensures start.parent != start ==> IsNext(Order(shape), start, r)
    {
      if start.parent == start {
        return null;
      }
      ghost var ctx, t := Focus(mem, rbNode, shape, start);
      AroundFocus(ctx, t, shape);
      if start.right != null {
        r := Down(start.right, t.r, start);
        return;
      }
      r := Climb(start, ctx, t);
    }

    // Up while the node is a right child
    method Climb(start: Node, ghost ctx0: Ctx, ghost t0: Tree) returns (r: Node?)
      requires At(mem, ctx0, t0) && t0.Bin? && t0.n == start
      ensures r == FirstOf(After(ctx0))
    {
      var node := start;
      ghost var ctx, t := ctx0, t0;
      r := node.parent;
      while r != null && node == r.right
        invariant At(mem, ctx, t) && t.Bin? && t.n == node && r == Par(ctx) && After(ctx) == After(ctx0)
        decreases ctx
      {
        BesideDiffers(ctx, t);
        StepUp(mem, rbNode, ctx, t);
        ctx, t := ctx.up, Up(ctx, t);
        node := r;
        r := node.parent;
      }
    }

    method Prev(start: Node) returns (r: Node?)
      requires start.parent == start || (Valid() && start in Nodes(shape))
      ensures start.parent == start ==> r == null
      ensures start.parent != start ==> IsPrev(Order(shape), start, r)
    {
      if start.parent == start {
        return null;
      }
      ghost var ctx, t := Focus(mem, rbNode, shape, start);
      AroundFocus(ctx, t, shape);
      if start.left != null {
        r := DownRight(start.left, t.l, start);
        return;
      }
      r := ClimbLeft(start, ctx, t);
    }

    method ClimbLeft(start: Node, ghost ctx0: Ctx, ghost t0: Tree) returns (r: Node?)
      requires At(mem, ctx0, t0) && t0.Bin? && t0.n == start
      ensures r == LastOf(Before(ctx0))
    {
      var node := start;
      ghost var ctx, t := ctx0, t0;
      r := node.parent;
      while r != null && node == r.left
        invariant At(mem, ctx, t) && t.Bin? && t.n == node && r == Par(ctx) && Before(ctx) == Before(ctx0)
        decreases ctx
      {
        BesideDiffers(ctx, t);
        StepUp(mem, rbNode, ctx, t);
        ctx, t := ctx.up, Up(ctx, t);
        node := r;
        r := node.parent;
      }
    }

    lemma NobodysOwnParent(n: Node)
      requires Valid() && n in Nodes(shape)
      ensures n.parent != n
    {
      var ctx, t := Focus(mem, rbNode, shape, n);
    }

    /** From the first node on, by successors: the whole sequence, each node once, and then null. */
    method Walk() returns (visited: seq<Node>)
      requires Valid()
      ensures visited == Order(shape)
    {
      hide Order, Nodes, Valid;
      ghost var s := Order(shape);
      OrderNodes(shape);
      visited := [];
      var node := First();
      while node != null
        invariant |visited| <= |s| && visited == s[..|visited|] && node == RbOrder.At(s, |visited|)
        decreases |s| - |visited|
      {
        NobodysOwnParent(node);
        visited := visited + [node];
        node := Next(node);
      }
    }

    /** From the last node on, by predecessors: the sequence backwards. */
    method WalkBack() returns (visited: seq<Node>)
      requires Valid()
      ensures |visited| == |Order(shape)|
      ensures forall i :: 0 <= i < |visited| ==> visited[i] == Order(shape)[|visited| - 1 - i]
    {
      hide Order, Nodes, Valid;
      ghost var s := Order(shape);
      OrderNodes(shape);
      visited := [];
      var node := Last();
      while node != null
        invariant |visited| <= |s| && node == RbOrder.At(s, |s| - 1 - |visited|)
        invariant forall i :: 0 <= i < |visited| ==> visited[i] == s[|s| - 1 - i]
        decreases |s| - |visited|
      {
        NobodysOwnParent(node);
        visited := visited + [node];
        node := Prev(node);
      }
    }

    // ---------- Replacing a node ----------

    /** `repl` takes the place, links and colour of `victim`. */
    method ReplaceNode(victim: Node, repl: Node)
      requires Valid() && victim in Nodes(shape) && repl !in Nodes(shape)
      modifies this, mem.Keys, repl
      ensures Valid() && mem.Keys == old(mem.Keys) - {victim} + {repl}
      ensures Order(shape) == Renamed(old(Order(shape)), victim, repl)
    {
      ghost var m := ReplaceInShape(victim, repl);
      FrameState(m, m - {victim}, rbNode, Top, shape);
      m := m - {victim};
      mem := m;
    }

    method ReplaceInShape(victim: Node, repl: Node) returns (ghost m: Memory)
      requires Valid() && victim in Nodes(shape) && repl !in Nodes(shape)
      modifies this`rbNode, this`shape, mem.Keys, repl
      ensures At(m, Top, shape) && RedBlack(shape) && m.Keys == mem.Keys + {repl}
      ensures Nodes(shape) == old(Nodes(shape)) - {victim} + {repl}
      ensures Order(shape) == Renamed(old(Order(shape)), victim, repl)
    {
      hide State, Good, BlackHeight;
      ghost var u := ReplacedWhole(mem, rbNode, shape, victim, repl);
      m := ReplacePointers(victim, repl, mem);
      shape := u;
    }

    method ReplacePointers(victim: Node, repl: Node, ghost m0: Memory) returns (ghost m: Memory)
      requires Synced(m0) && victim in m0 && repl !in m0
      requires m0[victim].left != null ==> m0[victim].left in m0 && m0[victim].left != victim
      requires m0[victim].right != null ==> m0[victim].right in m0 && m0[victim].right != victim
      requires m0[victim].parent != null ==> m0[victim].parent in m0 && m0[victim].parent != victim
      modifies this`rbNode, m0.Keys, repl
      ensures Synced(m) && m.Keys == m0.Keys + {repl} && m == Replaced(m0, victim, repl)
      ensures rbNode == NewTop(old(rbNode), m0[victim].parent, repl)
    {
      var parent := victim.parent;
      m := RelinkTestingLeft(parent, victim, repl, m0);
      assert m[victim] == m0[victim];
      m := AdoptChildren(victim, repl, m);
      m := CopyNode(victim, repl, m);
    }

    // The children of `victim` get `repl` for their parent
    method AdoptChildren(victim: Node, repl: Node, ghost m0: Memory) returns (ghost m: Memory)
      requires Synced(m0) && victim in m0
      requires m0[victim].left != null ==> m0[victim].left in m0 && m0[victim].left != victim
      requires m0[victim].right != null ==> m0[victim].right in m0 && m0[victim].right != victim
      modifies m0.Keys`parent
      ensures Synced(m) && m.Keys == m0.Keys && m[victim] == m0[victim]
      ensures m == SetParent(SetParent(m0, m0[victim].left, repl), m0[victim].right, repl)
    {
      m := m0;
      if victim.left != null {
        m := PutParent(victim.left, repl, m);
      }
      if victim.right != null {
        m := PutParent(victim.right, repl, m);
      }
    }

    // All fields at once
    method CopyNode(victim: Node, repl: Node, ghost m0: Memory) returns (ghost m: Memory)
      requires Synced(m0) && victim in m0 && repl !in m0
      modifies repl
      ensures Synced(m) && m == m0[repl := m0[victim]] && m.Keys == m0.Keys + {repl}
    {
      repl.parent, repl.color, repl.right, repl.left := victim.parent, victim.color, victim.right, victim.left;
      m := m0[repl := m0[victim]];
    }

    // ---------- Linking and keyed use ----------

    /** rb_link_node: a red leaf at a free link. */
    method LinkNode(node: Node, parent: Node?, slot: Slot, ghost ctx: Ctx) returns (ghost m: Memory)
      requires Valid() && node !in Nodes(shape) && Plug(ctx, Nil) == shape && parent == Par(ctx) && slot == SlotOf(ctx)
      modifies this`rbNode, mem.Keys, node
      ensures At(m, ctx, Bin(Nil, node, Red, Nil)) && m.Keys == mem.Keys + {node} && GoodCtx(ctx, 0)
    {
      ZipUp(mem, rbNode, ctx, Nil);
      PlugRedBlack(ctx, Nil);
      NodesPlug(ctx, Nil);
      LinkedState(mem, rbNode, ctx, node);
      node.parent, node.color := parent, Red;
      node.left, node.right := null, null;
      m := mem[node := Cell(parent, Red, null, null)];
      match slot
      case AtRoot => rbNode := node;
      case AtLeft => m := PutLeft(parent, node, m);
      case AtRight => m := PutRight(parent, node, m);
    }

    /** The use tree/rbtree/ex-rbtree.c makes of the tree: nodes in ascending order of their ids. */
    ghost predicate SortedTree()
      reads this, mem.Keys
    {
      Valid() && Sorted(Order(shape))
    }

    method Search(id: int) returns (r: Node?)
      requires SortedTree()
      ensures r != null ==> r in Nodes(shape) && r.id == id
      ensures r == null ==> forall n :: n in Nodes(shape) ==> n.id != id
    {
      r := rbNode;
      ghost var ctx, t := Top, shape;
      while r != null
        invariant At(mem, ctx, t) && Ptr(t) == r && Plug(ctx, t) == shape && Seeking(ctx, id)
        decreases t
      {
        if id < r.id {
          SeekDown(ctx, t, id);
          StepUp(mem, rbNode, InLeft(ctx, t.n, t.c, t.r), t.l);
          r := r.left;
          ctx, t := InLeft(ctx, t.n, t.c, t.r), t.l;
        } else if id > r.id {
          SeekDown(ctx, t, id);
          StepUp(mem, rbNode, InRight(ctx, t.n, t.c, t.l), t.r);
          r := r.right;
          ctx, t := InRight(ctx, t.n, t.c, t.l), t.r;
        } else {
          NodesPlug(ctx, t);
          return;
        }
      }
      SeekFailed(ctx, id);
    }

    /** Adds `data` unless its id is there already, which the result -1 reports. */
    method Insert(data: Node) returns (r: int)
      requires SortedTree() && data !in Nodes(shape)
      modifies this, mem.Keys, data
      ensures SortedTree()
      ensures r == 0 ==>
        Nodes(shape) == old(Nodes(shape)) + {data} && forall n :: n in old(Nodes(shape)) ==> n.id != data.id
      ensures r == -1 ==> shape == old(shape) && exists n :: n in Nodes(shape) && n.id == data.id
      ensures r == 0 || r == -1
    {
      var found, parent, slot;
      ghost var ctx;
      found, parent, slot, ctx := FindSlot(data.id);
      if found {
        return -1;
      }
      SeekEnd(ctx, data);
      InsertAt(data, parent, slot, ctx);
      r := 0;
    }

    // The loop of the insertion: down to the free link where the id belongs
    method FindSlot(id: int) returns (found: bool, parent: Node?, slot: Slot, ghost ctx: Ctx)
      requires SortedTree()
      ensures found ==> exists n :: n in Nodes(shape) && n.id == id
      ensures !found ==> Plug(ctx, Nil) == shape && parent == Par(ctx) && slot == SlotOf(ctx)
      ensures !found ==>
        Seeking(ctx, id) && Around(ctx, Nil) == Order(shape) && forall n :: n in Nodes(shape) ==> n.id != id
    {
      var cur := rbNode;
      found, parent, slot := false, null, AtRoot;
      ghost var t := shape;
      ctx := Top;
      while cur != null
        invariant At(mem, ctx, t) && Ptr(t) == cur && Plug(ctx, t) == shape && Seeking(ctx, id)
        invariant parent == Par(ctx) && slot == SlotOf(ctx)
        decreases t
      {
        parent := cur;
        if id < cur.id {
          SeekDown(ctx, t, id);
          StepUp(mem, rbNode, InLeft(ctx, t.n, t.c, t.r), t.l);
          cur, slot := cur.left, AtLeft;
          ctx, t := InLeft(ctx, t.n, t.c, t.r), t.l;
        } else if id > cur.id {
          SeekDown(ctx, t, id);
          StepUp(mem, rbNode, InRight(ctx, t.n, t.c, t.l), t.r);
          cur, slot := cur.right, AtRight;
          ctx, t := InRight(ctx, t.n, t.c, t.l), t.r;
        } else {
          NodesPlug(ctx, t);
          found := true;
          return;
        }
      }
      SeekFailed(ctx, id);
    }

    // rb_link_node, then rb_insert_color
    method InsertAt(node: Node, parent: Node?, slot: Slot, ghost ctx: Ctx)
      requires Valid() && node !in Nodes(shape) && Plug(ctx, Nil) == shape && parent == Par(ctx) && slot == SlotOf(ctx)
      modifies this, mem.Keys, node
      ensures Valid() && Nodes(shape) == old(Nodes(shape)) + {node}
      ensures old(Order(shape)) == Before(ctx) + After(ctx) && Order(shape) == Before(ctx) + [node] + After(ctx)
    {
      hide State, Synced, Good, BlackHeight, RbShape.Order;
      ghost var m := LinkNode(node, parent, slot, ctx);
      m := InsertColor(node, ctx, m);
      mem := m;
      LinkedOrder(ctx, node, shape, old(shape));
    }

    method Delete(id: int) returns (found: bool)
      requires SortedTree()
      modifies this, mem.Keys
      ensures SortedTree()
      ensures found == exists n :: n in old(Nodes(shape)) && n.id == id
      ensures Nodes(shape) == set n | n in old(Nodes(shape)) && n.id != id
    {
      var data := Search(id);
      if data == null {
        return false;
      }
      SortedWithout(Order(shape), data);
      OnlyOne(shape, data);
      NodesWithoutAny(shape, data);
      Erase(data);
      found := true;
    }
  }
}
