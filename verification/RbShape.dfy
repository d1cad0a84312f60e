/**
  Binary trees of linked nodes, seen as values.

  A `Memory` records the four fields of every node of a tree.  `Tree` is the shape those
  links spell out, and `Ctx` is a shape with one subtree taken out (a path to the root with
  the subtrees hanging off it).  `State` ties the three together: memory `m`, with `top` as
  the root pointer, spells out context `ctx` around subtree `t`, no node occurring twice.

  Every lemma here is about values; `RbTree` links them to the pointer-changing code.
 */
module RbShape {
  import opened Common

  datatype Color = Red | Black

  // struct rb_node, with rb_parent_color split into its two parts, and util_rbtree_node_t
  class Node {
    var parent: Node?
    var color: Color
    var right: Node?
    var left: Node?
    const id: int         // the key of the structure the node is embedded in
    const data: object?   // what the node carries

    constructor (id: int, data: object?)
      ensures this.id == id && this.data == data
    {
      this.id, this.data := id, data;
      parent, color, right, left := null, Red, null, null;
    }
  }

  datatype Cell = Cell(parent: Node?, color: Color, left: Node?, right: Node?)
  type Memory = map<Node, Cell>

  datatype Tree = Nil | Bin(l: Tree, n: Node, c: Color, r: Tree)
  datatype Ctx = Top | InLeft(up: Ctx, n: Node, c: Color, r: Tree) | InRight(up: Ctx, n: Node, c: Color, l: Tree)

  ghost function Ptr(t: Tree): Node? { if t.Nil? then null else t.n }
  ghost function Par(ctx: Ctx): Node? { if ctx.Top? then null else ctx.n }
  ghost function Beside(ctx: Ctx): Tree { if ctx.Top? then Nil else if ctx.InLeft? then ctx.r else ctx.l }

  ghost function Plug(ctx: Ctx, t: Tree): Tree {
    match ctx
    case Top => t
    case InLeft(up, n, c, r) => Plug(up, Bin(t, n, c, r))
    case InRight(up, n, c, l) => Plug(up, Bin(l, n, c, t))
  }

  ghost function Nodes(t: Tree): set<Node> {
    if t.Nil? then {} else Nodes(t.l) + {t.n} + Nodes(t.r)
  }

  ghost function CtxNodes(ctx: Ctx): set<Node> {
    if ctx.Top? then {} else CtxNodes(ctx.up) + {ctx.n} + Nodes(Beside(ctx))
  }

  ghost predicate Uniq(t: Tree) {
    t.Bin? ==>
      && t.n !in Nodes(t.l) && t.n !in Nodes(t.r) && Nodes(t.l) !! Nodes(t.r)
      && Uniq(t.l) && Uniq(t.r)
  }

  ghost predicate UniqCtx(ctx: Ctx) {
    !ctx.Top? ==>
      && ctx.n !in CtxNodes(ctx.up) && ctx.n !in Nodes(Beside(ctx)) && Nodes(Beside(ctx)) !! CtxNodes(ctx.up)
      && Uniq(Beside(ctx)) && UniqCtx(ctx.up)
  }

  ghost predicate Rep(m: Memory, t: Tree, p: Node?) {
    t.Bin? ==>
      && t.n in m && m[t.n] == Cell(p, t.c, Ptr(t.l), Ptr(t.r))
      && Rep(m, t.l, t.n) && Rep(m, t.r, t.n)
  }

  ghost predicate RepCtx(m: Memory, ctx: Ctx, hole: Node?, top: Node?) {
    match ctx
    case Top => top == hole
    case InLeft(up, n, c, r) =>
      && n in m && m[n] == Cell(Par(up), c, hole, Ptr(r))
      && Rep(m, r, n) && RepCtx(m, up, n, top)
    case InRight(up, n, c, l) =>
      && n in m && m[n] == Cell(Par(up), c, Ptr(l), hole)
      && Rep(m, l, n) && RepCtx(m, up, n, top)
  }

  ghost predicate State(m: Memory, top: Node?, ctx: Ctx, t: Tree) {
    && Uniq(t) && UniqCtx(ctx) && Nodes(t) !! CtxNodes(ctx)
    && Rep(m, t, Par(ctx)) && RepCtx(m, ctx, Ptr(t), top)
  }

  // ---------- Memory that agrees on a set of nodes ----------

  ghost predicate Same(m: Memory, m': Memory, s: set<Node?>) {
    forall n: Node :: n in s && n in m ==> n in m' && m'[n] == m[n]
  }

  lemma {:induction false} Frame(m: Memory, m': Memory, t: Tree, p: Node?)
    requires Rep(m, t, p) && Same(m, m', Nodes(t))
    ensures Rep(m', t, p)
  {
    if t.Bin? {
      Frame(m, m', t.l, t.n);
      Frame(m, m', t.r, t.n);
    }
  }

  lemma {:induction false} FrameCtx(m: Memory, m': Memory, ctx: Ctx, hole: Node?, top: Node?)
    requires RepCtx(m, ctx, hole, top) && Same(m, m', CtxNodes(ctx))
    ensures RepCtx(m', ctx, hole, top)
  {
    if !ctx.Top? {
      FrameCtx(m, m', ctx.up, ctx.n, top);
      Frame(m, m', Beside(ctx), ctx.n);
    }
  }

  lemma FrameState(m: Memory, m': Memory, top: Node?, ctx: Ctx, t: Tree)
    requires State(m, top, ctx, t) && Same(m, m', Nodes(t) + CtxNodes(ctx))
    ensures State(m', top, ctx, t)
  {
    Frame(m, m', t, Par(ctx));
    FrameCtx(m, m', ctx, Ptr(t), top);
  }

  lemma {:induction false} InMemory(m: Memory, t: Tree, p: Node?)
    requires Rep(m, t, p)
    ensures Nodes(t) <= m.Keys
  {
    if t.Bin? {
      InMemory(m, t.l, t.n);
      InMemory(m, t.r, t.n);
    }
  }

  // The links determine the shape
  lemma {:induction false} ShapeIsDetermined(m: Memory, t: Tree, u: Tree, p: Node?)
    requires Rep(m, t, p) && Rep(m, u, p) && Ptr(t) == Ptr(u)
    ensures t == u
  {
    if t.Bin? {
      ShapeIsDetermined(m, t.l, u.l, t.n);
      ShapeIsDetermined(m, t.r, u.r, t.n);
    }
  }

  // ---------- Moving the focus ----------

  ghost function Up(ctx: Ctx, t: Tree): (u: Tree)
    requires !ctx.Top?
    ensures u.Bin? && u.n == ctx.n && u.c == ctx.c
  {
    if ctx.InLeft? then Bin(t, ctx.n, ctx.c, ctx.r) else Bin(ctx.l, ctx.n, ctx.c, t)
  }

  lemma StepUp(m: Memory, top: Node?, ctx: Ctx, t: Tree)
    requires !ctx.Top?
    ensures State(m, top, ctx, t) <==> State(m, top, ctx.up, Up(ctx, t))
  {
  }

  // From the subtree at the hole to the one beside it
  ghost function Across(ctx: Ctx, t: Tree): Ctx
    requires !ctx.Top?
  {
    if ctx.InLeft? then InRight(ctx.up, ctx.n, ctx.c, t) else InLeft(ctx.up, ctx.n, ctx.c, t)
  }

  lemma StepAcross(m: Memory, top: Node?, ctx: Ctx, t: Tree)
    requires !ctx.Top?
    ensures State(m, top, ctx, t) <==> State(m, top, Across(ctx, t), Beside(ctx))
  {
    StepUp(m, top, ctx, t);
    StepUp(m, top, Across(ctx, t), Beside(ctx));
  }

  lemma {:induction false} ZipUp(m: Memory, top: Node?, ctx: Ctx, t: Tree)
    ensures State(m, top, ctx, t) <==> State(m, top, Top, Plug(ctx, t))
  {
    if !ctx.Top? {
      StepUp(m, top, ctx, t);
      ZipUp(m, top, ctx.up, Up(ctx, t));
    }
  }

  // `inner` is a context inside the hole of `base`
  ghost function Under(inner: Ctx, base: Ctx): Ctx {
    match inner
    case Top => base
    case InLeft(up, n, c, r) => InLeft(Under(up, base), n, c, r)
    case InRight(up, n, c, l) => InRight(Under(up, base), n, c, l)
  }

  lemma {:induction false} ZipUnder(m: Memory, top: Node?, inner: Ctx, base: Ctx, t: Tree)
    ensures State(m, top, Under(inner, base), t) <==> State(m, top, base, Plug(inner, t))
  {
    if !inner.Top? {
      StepUp(m, top, Under(inner, base), t);
      ZipUnder(m, top, inner.up, base, Up(inner, t));
    }
  }

  lemma {:induction false} PlugUnder(inner: Ctx, base: Ctx, t: Tree)
    ensures Plug(Under(inner, base), t) == Plug(base, Plug(inner, t))
  {
    if !inner.Top? {
      PlugUnder(inner.up, base, Up(inner, t));
    }
  }

  // ---------- In-order sequence ----------

  ghost function Order(t: Tree): seq<Node> {
    if t.Nil? then [] else Order(t.l) + [t.n] + Order(t.r)
  }
  ghost function Before(ctx: Ctx): seq<Node> {
    match ctx
    case Top => []
    case InLeft(up, n, c, r) => Before(up)
    case InRight(up, n, c, l) => Before(up) + Order(l) + [n]
  }
  ghost function After(ctx: Ctx): seq<Node> {
    match ctx
    case Top => []
    case InLeft(up, n, c, r) => [n] + Order(r) + After(up)
    case InRight(up, n, c, l) => After(up)
  }

  lemma {:induction false} OrderPlug(ctx: Ctx, t: Tree)
    ensures Order(Plug(ctx, t)) == Before(ctx) + Order(t) + After(ctx)
  {
    if !ctx.Top? {
      OrderPlug(ctx.up, Up(ctx, t));
      if ctx.InLeft? {
        Focus3(Before(ctx.up), Order(t), ctx.n, Order(ctx.r), After(ctx.up));
      } else {
        Focus3(Before(ctx.up), Order(ctx.l), ctx.n, Order(t), After(ctx.up));
      }
    }
  }

  lemma {:induction false} OrderNodes(t: Tree)
    ensures forall n :: n in Order(t) <==> n in Nodes(t)
  {
    forall n ensures n in Order(t) <==> n in Nodes(t) {
      InOrder(t, n);
    }
  }

  lemma {:induction false} InOrder(t: Tree, n: Node)
    ensures n in Order(t) <==> n in Nodes(t)
  {
    if t.Bin? {
      InOrder(t.l, n);
      InOrder(t.r, n);
    }
  }

  lemma {:induction false} NodesPlug(ctx: Ctx, t: Tree)
    ensures Nodes(Plug(ctx, t)) == CtxNodes(ctx) + Nodes(t)
  {
    if !ctx.Top? {
      NodesPlug(ctx.up, Up(ctx, t));
    }
  }

  lemma NoDupConcat<T>(a: seq<T>, x: T, b: seq<T>)
    requires NoDup(a) && NoDup(b) && x !in a && x !in b
    requires forall y :: y in a ==> y !in b
    ensures NoDup(a + [x] + b)
  {
    var s := a + [x] + b;
    forall i, j | 0 <= i < j < |s| ensures s[i] != s[j] {
      if i < |a| < j {
        assert s[i] in a && s[j] in b;
      }
    }
  }

  // A shape whose nodes are all different lists each of them once
  lemma {:induction false} OrderNoDup(t: Tree)
    requires Uniq(t)
    ensures NoDup(Order(t))
  {
    if t.Bin? {
      OrderNoDup(t.l);
      OrderNoDup(t.r);
      forall y: Node | y in Order(t.l) ensures y !in Order(t.r) {
        InOrder(t.l, y);
        InOrder(t.r, y);
      }
      InOrder(t.l, t.n);
      InOrder(t.r, t.n);
      NoDupConcat(Order(t.l), t.n, Order(t.r));
    }
  }

  // Every node of a shape is the focus of some context
  lemma {:induction false} Locate(ctx: Ctx, t: Tree, n: Node) returns (ctx': Ctx, t': Tree)
    requires n in Nodes(t)
    ensures Plug(ctx', t') == Plug(ctx, t) && t'.Bin? && t'.n == n
    decreases t
  {
    if n == t.n {
      ctx', t' := ctx, t;
    } else if n in Nodes(t.l) {
      ctx', t' := Locate(InLeft(ctx, t.n, t.c, t.r), t.l, n);
    } else {
      ctx', t' := Locate(InRight(ctx, t.n, t.c, t.l), t.r, n);
    }
  }

  // ---------- Red-black shapes ----------

  ghost predicate IsRed(t: Tree) { t.Bin? && t.c == Red }
  ghost function Weight(c: Color): nat { if c == Black then 1 else 0 }

  ghost function BlackHeight(t: Tree): nat {
    if t.Nil? then 0 else BlackHeight(t.l) + Weight(t.c)
  }

  // No red node has a red child, and every path down meets equally many black nodes
  ghost predicate Good(t: Tree) {
    t.Bin? ==>
      && Good(t.l) && Good(t.r) && BlackHeight(t.l) == BlackHeight(t.r)
      && (t.c == Red ==> !IsRed(t.l) && !IsRed(t.r))
  }

  // The same, leaving open the colour of the root of `t`
  ghost predicate GoodBelow(t: Tree) {
    t.Bin? ==> Good(t.(c := Black))
  }

  // A subtree put into the hole must be black: its parent is red, or it becomes the root
  ghost predicate WantsBlack(ctx: Ctx) { ctx.Top? || ctx.c == Red }

  // Everything around the hole is as a red-black tree wants it when the hole has black height `h`
  ghost predicate GoodCtx(ctx: Ctx, h: nat) {
    !ctx.Top? ==>
      && Good(Beside(ctx)) && BlackHeight(Beside(ctx)) == h
      && (ctx.c == Red ==> !IsRed(Beside(ctx)) && !WantsBlack(ctx.up))
      && GoodCtx(ctx.up, h + Weight(ctx.c))
  }

  ghost predicate RedBlack(t: Tree) { Good(t) && !IsRed(t) }

  lemma {:induction false} PlugRedBlack(ctx: Ctx, t: Tree)
    ensures RedBlack(Plug(ctx, t)) <==>
      GoodCtx(ctx, BlackHeight(t)) && Good(t) && (WantsBlack(ctx) ==> !IsRed(t))
  {
    if !ctx.Top? {
      PlugRedBlack(ctx.up, Up(ctx, t));
    }
  }

  ghost function Depth(ctx: Ctx): nat { if ctx.Top? then 0 else 1 + Depth(ctx.up) }

  // The root of a well-coloured context is black
  lemma {:induction false} RootIsBlack(m: Memory, ctx: Ctx, hole: Node?, top: Node?, h: nat)
    requires !ctx.Top? && RepCtx(m, ctx, hole, top) && GoodCtx(ctx, h)
    ensures top != null && top in m && m[top].color == Black && top in CtxNodes(ctx)
  {
    if !ctx.up.Top? {
      RootIsBlack(m, ctx.up, ctx.n, top, h + Weight(ctx.c));
    }
  }
}
