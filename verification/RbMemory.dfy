/**
  What the pointer stores of the red-black code do to a `Memory`, and to the shape it spells out.
 */
module RbMemory {
  import opened Common
  import opened RbShape

  // One field store each.  A store through a pointer outside the memory has no effect.
  ghost function SetLeft(m: Memory, x: Node?, v: Node?): Memory {
    if x == null || x !in m then m else m[x := m[x].(left := v)]
  }
  ghost function SetRight(m: Memory, x: Node?, v: Node?): Memory {
    if x == null || x !in m then m else m[x := m[x].(right := v)]
  }
  ghost function SetParent(m: Memory, x: Node?, v: Node?): Memory {
    if x == null || x !in m then m else m[x := m[x].(parent := v)]
  }
  ghost function SetColor(m: Memory, x: Node?, c: Color): Memory {
    if x == null || x !in m then m else m[x := m[x].(color := c)]
  }

  // The root pointer after the subtree under parent `p` has become the one at `y`
  ghost function NewTop(top: Node?, p: Node?, y: Node?): Node? { if p == null then y else top }

  // The child link of `p` that led to `x` leads to `y`
  ghost function Relinked(c: Cell, x: Node?, y: Node?): Cell {
    if c.left == x then c.(left := y) else c.(right := y)
  }

  // ---------- Small changes ----------

  lemma Rehole(m: Memory, m': Memory, ctx: Ctx, x: Node, y: Node?, top: Node?)
    requires UniqCtx(ctx) && RepCtx(m, ctx, x, top) && x !in CtxNodes(ctx)
    requires Same(m, m', CtxNodes(ctx) - {Par(ctx)})
    requires !ctx.Top? ==> ctx.n in m' && m'[ctx.n] == Relinked(m[ctx.n], x, y)
    ensures RepCtx(m', ctx, y, NewTop(top, Par(ctx), y))
  {
    if !ctx.Top? {
      FrameCtx(m, m', ctx.up, ctx.n, top);
      Frame(m, m', Beside(ctx), ctx.n);
    }
  }

  lemma Adopted(m: Memory, m': Memory, t: Tree, q: Node?, p: Node?)
    requires Rep(m, t, q) && Uniq(t) && Same(m, m', Nodes(t) - {Ptr(t)})
    requires t.Bin? ==> t.n in m' && m'[t.n] == m[t.n].(parent := p)
    ensures Rep(m', t, p)
  {
    if t.Bin? {
      Frame(m, m', t.l, t.n);
      Frame(m, m', t.r, t.n);
    }
  }

  lemma Painted(m: Memory, top: Node?, ctx: Ctx, t: Tree, c: Color)
    requires State(m, top, ctx, t) && t.Bin?
    ensures State(SetColor(m, t.n, c), top, ctx, t.(c := c))
  {
    var m' := SetColor(m, t.n, c);
    Frame(m, m', t.l, t.n);
    Frame(m, m', t.r, t.n);
    FrameCtx(m, m', ctx, t.n, top);
  }

  // ---------- Rotations ----------

  ghost predicate LeansRight(t: Tree) { t.Bin? && t.r.Bin? }
  ghost predicate LeansLeft(t: Tree) { t.Bin? && t.l.Bin? }

  ghost function TurnLeft(t: Tree): Tree
    requires LeansRight(t)
  {
    Bin(Bin(t.l, t.n, t.c, t.r.l), t.r.n, t.r.c, t.r.r)
  }

  ghost function TurnRight(t: Tree): Tree
    requires LeansLeft(t)
  {
    Bin(t.l.l, t.l.n, t.l.c, Bin(t.l.r, t.n, t.c, t.r))
  }

  lemma TurnsAreInverse(t: Tree)
    ensures LeansRight(t) ==> LeansLeft(TurnLeft(t)) && TurnRight(TurnLeft(t)) == t
    ensures LeansLeft(t) ==> LeansRight(TurnRight(t)) && TurnLeft(TurnRight(t)) == t
  {
  }

  lemma Assoc<T>(a: seq<T>, x: T, b: seq<T>, y: T, c: seq<T>)
    ensures a + [x] + (b + [y] + c) == a + [x] + b + [y] + c
  {
  }

  lemma TurnKeepsOrder(t: Tree)
    ensures LeansRight(t) ==> Order(TurnLeft(t)) == Order(t)
    ensures LeansLeft(t) ==> Order(TurnRight(t)) == Order(t)
  {
    if LeansRight(t) {
      var u := TurnLeft(t);
      Assoc(Order(t.l), t.n, Order(t.r.l), t.r.n, Order(t.r.r));
      assert Order(t.r) == Order(t.r.l) + [t.r.n] + Order(t.r.r);
      assert Order(u.l) == Order(t.l) + [t.n] + Order(t.r.l);
    }
    if LeansLeft(t) {
      var u := TurnRight(t);
      Assoc(Order(t.l.l), t.l.n, Order(t.l.r), t.n, Order(t.r));
      assert Order(t.l) == Order(t.l.l) + [t.l.n] + Order(t.l.r);
      assert Order(u.r) == Order(t.l.r) + [t.n] + Order(t.r);
    }
  }

  lemma TurnUniq(a: Tree, x: Node, cx: Color, b: Tree, y: Node, cy: Color, c: Tree)
    ensures var t := Bin(a, x, cx, Bin(b, y, cy, c)); var u := Bin(Bin(a, x, cx, b), y, cy, c);
      && Nodes(t) == Nodes(u) == Nodes(a) + {x} + Nodes(b) + {y} + Nodes(c)
      && (Uniq(t) <==> Uniq(u))
      && (Uniq(t) ==>
            && x != y && x !in Nodes(a) + Nodes(b) + Nodes(c) && y !in Nodes(a) + Nodes(b) + Nodes(c)
            && Nodes(a) !! Nodes(b) !! Nodes(c))
  {
    assert Nodes(Bin(b, y, cy, c)) == Nodes(b) + {y} + Nodes(c);
    assert Nodes(Bin(a, x, cx, b)) == Nodes(a) + {x} + Nodes(b);
  }

  // The child link of `p` that led to `x` leads to `y`; the two rotations test different sides first
  ghost function RelinkLeftFirst(m: Memory, p: Node?, x: Node, y: Node?): Memory {
    if p == null || p !in m then m else if m[p].left == x then SetLeft(m, p, y) else SetRight(m, p, y)
  }
  ghost function RelinkRightFirst(m: Memory, p: Node?, x: Node, y: Node?): Memory {
    if p == null || p !in m then m else if m[p].right == x then SetRight(m, p, y) else SetLeft(m, p, y)
  }

  // The stores of a rotation, in the order the code makes them
  ghost function LeftRotated(m: Memory, x: Node): Memory
    requires x in m && m[x].right != null && m[x].right in m
  {
    var y: Node, p := m[x].right, m[x].parent;
    var b := m[y].left;
    SetParent(RelinkLeftFirst(SetParent(SetLeft(SetParent(SetRight(m, x, b), b, x), y, x), y, p), p, x, y), x, y)
  }
  ghost function RightRotated(m: Memory, y: Node): Memory
    requires y in m && m[y].left != null && m[y].left in m
  {
    var x: Node, p := m[y].left, m[y].parent;
    var b := m[x].right;
    SetParent(RelinkRightFirst(SetParent(SetRight(SetParent(SetLeft(m, y, b), b, y), x, y), x, p), p, y, x), y, x)
  }

  // What a left rotation at `x` leaves in each cell; `y` is the right child, `b` its left child
  ghost predicate TurnedLeft(m: Memory, m': Memory, x: Node, y: Node, b: Node?, p: Node?) {
    && x in m && y in m && x in m' && y in m'
    && m'[x] == m[x].(right := b, parent := y)
    && m'[y] == m[y].(left := x, parent := p)
    && (b != null ==> b in m && b in m' && m'[b] == m[b].(parent := x))
    && (p != null ==> p in m && p in m' && m'[p] == Relinked(m[p], x, y))
    && Same(m, m', m.Keys - {x, y, b, p})
  }

  ghost predicate TurnedRight(m: Memory, m': Memory, y: Node, x: Node, b: Node?, p: Node?) {
    && x in m && y in m && x in m' && y in m'
    && m'[y] == m[y].(left := b, parent := x)
    && m'[x] == m[x].(right := y, parent := p)
    && (b != null ==> b in m && b in m' && m'[b] == m[b].(parent := y))
    && (p != null ==> p in m && p in m' && m'[p] == Relinked(m[p], y, x))
    && Same(m, m', m.Keys - {x, y, b, p})
  }

  lemma TurnLeftState(m: Memory, m': Memory, top: Node?, ctx: Ctx, a: Tree, x: Node, cx: Color, b: Tree, y: Node,
    cy: Color, c: Tree)
    requires State(m, top, ctx, Bin(a, x, cx, Bin(b, y, cy, c)))
    requires TurnedLeft(m, m', x, y, Ptr(b), Par(ctx))
    ensures State(m', NewTop(top, Par(ctx), y), ctx, Bin(Bin(a, x, cx, b), y, cy, c))
  {
    TurnUniq(a, x, cx, b, y, cy, c);
    assert Rep(m, Bin(b, y, cy, c), x);
    assert b.Bin? ==> b.n in Nodes(b);
    Frame(m, m', a, x);
    Frame(m, m', c, y);
    Adopted(m, m', b, y, x);
    Rehole(m, m', ctx, x, y, top);
  }

  lemma TurnRightState(m: Memory, m': Memory, top: Node?, ctx: Ctx, a: Tree, x: Node, cx: Color, b: Tree, y: Node,
    cy: Color, c: Tree)
    requires State(m, top, ctx, Bin(Bin(a, x, cx, b), y, cy, c))
    requires TurnedRight(m, m', y, x, Ptr(b), Par(ctx))
    ensures State(m', NewTop(top, Par(ctx), x), ctx, Bin(a, x, cx, Bin(b, y, cy, c)))
  {
    TurnUniq(a, x, cx, b, y, cy, c);
    assert Rep(m, Bin(a, x, cx, b), y);
    assert b.Bin? ==> b.n in Nodes(b);
    Frame(m, m', a, x);
    Frame(m, m', c, y);
    Adopted(m, m', b, x, y);
    Rehole(m, m', ctx, y, x, top);
  }

  // The pointers a rotation at `x` goes through are those of distinct nodes of the memory
  ghost predicate CanTurnLeft(m: Memory, x: Node) {
    && x in m && m[x].right != null && m[x].right in m && m[x].right != x
    && var y: Node, p := m[x].right, m[x].parent;
      && var b := m[y].left;
        && (b != null ==> b in m && b != x && b != y && b != p)
        && (p != null ==> p in m && p != x && p != y)
  }

  ghost predicate CanTurnRight(m: Memory, y: Node) {
    && y in m && m[y].left != null && m[y].left in m && m[y].left != y
    && var x: Node, p := m[y].left, m[y].parent;
      && var b := m[x].right;
        && (b != null ==> b in m && b != x && b != y && b != p)
        && (p != null ==> p in m && p != x && p != y && (m[p].left == y) != (m[p].right == y))
  }

  lemma LeftRotatedCells(m: Memory, x: Node)
    requires CanTurnLeft(m, x)
    ensures TurnedLeft(m, LeftRotated(m, x), x, m[x].right, m[m[x].right].left, m[x].parent)
  {
  }

  lemma RightRotatedCells(m: Memory, y: Node)
    requires CanTurnRight(m, y)
    ensures TurnedRight(m, RightRotated(m, y), y, m[y].left, m[m[y].left].right, m[y].parent)
  {
  }

  lemma LeanCells(m: Memory, top: Node?, ctx: Ctx, t: Tree)
    requires State(m, top, ctx, t)
    ensures LeansLeft(t) ==>
      CanTurnRight(m, t.n) && m[t.n] == Cell(Par(ctx), t.c, t.l.n, Ptr(t.r)) && m[t.l.n].right == Ptr(t.l.r)
    ensures LeansRight(t) ==>
      CanTurnLeft(m, t.n) && m[t.n] == Cell(Par(ctx), t.c, Ptr(t.l), t.r.n) && m[t.r.n].left == Ptr(t.r.l)
  {
    if LeansLeft(t) {
      TurnUniq(t.l.l, t.l.n, t.l.c, t.l.r, t.n, t.c, t.r);
      assert Rep(m, t.l, t.n);
      assert Beside(ctx).Bin? ==> Beside(ctx).n in Nodes(Beside(ctx));
      assert t.l.r.Bin? ==> Rep(m, t.l.r, t.l.n) && t.l.r.n in Nodes(t.l.r);
    }
    if LeansRight(t) {
      TurnUniq(t.l, t.n, t.c, t.r.l, t.r.n, t.r.c, t.r.r);
      assert Rep(m, t.r, t.n);
      assert t.r.l.Bin? ==> Rep(m, t.r.l, t.r.n) && t.r.l.n in Nodes(t.r.l);
    }
  }

  lemma {:induction false} InMemoryCtx(m: Memory, ctx: Ctx, hole: Node?, top: Node?)
    requires RepCtx(m, ctx, hole, top)
    ensures CtxNodes(ctx) <= m.Keys
  {
    if !ctx.Top? {
      InMemory(m, Beside(ctx), ctx.n);
      InMemoryCtx(m, ctx.up, ctx.n, top);
    }
  }

  // ---------- Taking a node out ----------

  ghost function OnlyChild(t: Tree): Tree
    requires t.Bin?
  {
    if t.l.Nil? then t.r else t.l
  }

  // The stores that put the only child of the node at the focus in its place
  ghost function Spliced(m: Memory, p: Node?, n: Node, child: Node?): Memory {
    RelinkLeftFirst(SetParent(m, child, p), p, n, child)
  }

  lemma SplicedState(m: Memory, top: Node?, ctx: Ctx, t: Tree)
    requires State(m, top, ctx, t) && t.Bin? && (t.l.Nil? || t.r.Nil?)
    ensures State(Spliced(m, Par(ctx), t.n, Ptr(OnlyChild(t))), NewTop(top, Par(ctx), Ptr(OnlyChild(t))), ctx,
      OnlyChild(t))
    ensures t.n in m && m[t.n].parent == Par(ctx) && m[t.n].color == t.c && (Par(ctx) != null ==> Par(ctx) in m)
    ensures OnlyChild(t).Bin? ==> OnlyChild(t).n in m && OnlyChild(t).n != t.n
  {
    var u := OnlyChild(t);
    var m' := Spliced(m, Par(ctx), t.n, Ptr(u));
    assert Rep(m, u, t.n);
    assert u.Bin? ==> u.n in Nodes(u);
    Adopted(m, m', u, t.n, Par(ctx));
    Rehole(m, m', ctx, t.n, Ptr(u), top);
  }

  // The node at the focus gives its place, links and colour to another
  ghost predicate Superseded(m: Memory, m': Memory, x: Node, y: Node) {
    && x in m && y in m' && m'[y] == m[x]
    && (m[x].left != null ==> m[x].left in m && m[x].left in m' && m'[m[x].left] == m[m[x].left].(parent := y))
    && (m[x].right != null ==> m[x].right in m && m[x].right in m' && m'[m[x].right] == m[m[x].right].(parent := y))
    && (m[x].parent != null ==>
      m[x].parent in m && m[x].parent in m' && m'[m[x].parent] == Relinked(m[m[x].parent], x, y))
    && Same(m, m', m.Keys - {x, y, m[x].left, m[x].right, m[x].parent})
  }

  lemma SupersededState(m: Memory, m': Memory, top: Node?, ctx: Ctx, t: Tree, y: Node)
    requires State(m, top, ctx, t) && t.Bin? && Superseded(m, m', t.n, y)
    requires y !in Nodes(t) + CtxNodes(ctx)
    ensures State(m', NewTop(top, Par(ctx), y), ctx, t.(n := y))
  {
    assert t.l.Bin? ==> t.l.n in Nodes(t.l);
    assert t.r.Bin? ==> t.r.n in Nodes(t.r);
    assert !ctx.Top? ==> ctx.n in CtxNodes(ctx);
    Adopted(m, m', t.l, t.n, y);
    Adopted(m, m', t.r, t.n, y);
    Rehole(m, m', ctx, t.n, y, top);
  }
}
