/**
  The cases of the insert and erase fix-ups, as steps from one focused shape to another.
 */
module RbBalance {
  import opened Common
  import opened RbShape
  import opened RbMemory

  ghost function Around(ctx: Ctx, t: Tree): seq<Node> {
    Before(ctx) + Order(t) + After(ctx)
  }

  lemma AroundUp(ctx: Ctx, t: Tree)
    requires !ctx.Top?
    ensures Around(ctx, t) == Around(ctx.up, Up(ctx, t))
  {
    Focus3(Before(ctx.up), Order(t), ctx.n, Order(Beside(ctx)), After(ctx.up));
    Focus3(Before(ctx.up), Order(Beside(ctx)), ctx.n, Order(t), After(ctx.up));
  }

  // The context with another tree beside the hole
  ghost function WithBeside(ctx: Ctx, b: Tree): Ctx
    requires !ctx.Top?
  {
    if ctx.InLeft? then ctx.(r := b) else ctx.(l := b)
  }

  // ---------- Insertion ----------

  // A red node at the focus; everything is in order except that its parent may be red too
  ghost predicate RedAt(ctx: Ctx, t: Tree) {
    IsRed(t) && Good(t) && GoodCtx(ctx, BlackHeight(t))
  }

  // The red-red case: the parent is red, so there is a black grandparent
  ghost predicate RedRed(ctx: Ctx, t: Tree) {
    RedAt(ctx, t) && !ctx.Top? && ctx.c == Red
  }

  // What the code reads before it picks a case
  lemma RedRedCells(m: Memory, top: Node?, ctx: Ctx, t: Tree)
    requires State(m, top, ctx, t) && RedRed(ctx, t)
    ensures !ctx.up.Top? && ctx.up.c == Black
    ensures {t.n, ctx.n, ctx.up.n} <= m.Keys && m[t.n].parent == ctx.n
    ensures m[ctx.n].color == Red && m[ctx.n].parent == ctx.up.n
    ensures if ctx.InLeft? then m[ctx.n].left == t.n && m[ctx.n].right != t.n
      else m[ctx.n].right == t.n && m[ctx.n].left != t.n
    ensures if ctx.up.InLeft? then m[ctx.up.n].left == ctx.n && m[ctx.up.n].right == Ptr(Beside(ctx.up))
            else m[ctx.up.n].right == ctx.n && m[ctx.up.n].left != ctx.n && m[ctx.up.n].left == Ptr(Beside(ctx.up))
    ensures Beside(ctx.up).Bin? ==> Beside(ctx.up).n in m && m[Beside(ctx.up).n].color == Beside(ctx.up).c
  {
    StepUp(m, top, ctx, t);
    StepAcross(m, top, ctx.up, Up(ctx, t));
    assert Beside(ctx).Bin? ==> Beside(ctx).n in Nodes(Beside(ctx));
    assert Beside(ctx.up).Bin? ==> Beside(ctx.up).n in Nodes(Beside(ctx.up));
  }

  // Red uncle: parent and uncle turn black, the grandparent red
  ghost function Recolor(ctx: Ctx, t: Tree): Tree
    requires !ctx.Top? && !ctx.up.Top? && IsRed(Beside(ctx.up))
  {
    var p := Up(ctx, t);
    var g := Up(WithBeside(ctx.up, Beside(ctx.up).(c := Black)), p.(c := Black));
    g.(c := Red)
  }

  lemma RecolorStep(ctx: Ctx, t: Tree)
    requires RedRed(ctx, t) && !ctx.up.Top? && IsRed(Beside(ctx.up))
    ensures RedAt(ctx.up.up, Recolor(ctx, t))
    ensures Around(ctx.up.up, Recolor(ctx, t)) == Around(ctx, t)
    ensures Depth(ctx.up.up) < Depth(ctx)
  {
    var u := Beside(ctx.up);
    assert GoodCtx(ctx.up, BlackHeight(t));
    assert Order(u.(c := Black)) == Order(u);
    AroundUp(ctx, t);
    AroundUp(ctx.up, Up(ctx, t));
    assert Order(Up(ctx, t).(c := Black)) == Order(Up(ctx, t));
  }

  // The same three stores in memory
  lemma RecolorState(m: Memory, top: Node?, ctx: Ctx, t: Tree)
    requires State(m, top, ctx, t) && !ctx.Top? && !ctx.up.Top? && IsRed(Beside(ctx.up))
    ensures State(SetColor(SetColor(SetColor(m, Beside(ctx.up).n, Black), ctx.n, Black), ctx.up.n, Red), top,
      ctx.up.up, Recolor(ctx, t))
  {
    var p, u := Up(ctx, t), Beside(ctx.up);
    var u', p' := u.(c := Black), p.(c := Black);
    StepUp(m, top, ctx, t);
    StepAcross(m, top, ctx.up, p);
    Painted(m, top, Across(ctx.up, p), u, Black);
    var m1 := SetColor(m, u.n, Black);
    var up := WithBeside(ctx.up, u');
    StepAcross(m1, top, up, p);
    Painted(m1, top, up, p, Black);
    var m2 := SetColor(m1, ctx.n, Black);
    StepUp(m2, top, up, p');
    Painted(m2, top, ctx.up.up, Up(up, p'), Red);
  }

  // Node and parent on opposite sides: a rotation at the parent lines them up
  lemma LineUpLeft(up: Ctx, p: Node, l: Tree, t: Tree)
    requires RedRed(InRight(up, p, Red, l), t)
    ensures var ctx', t' := InLeft(up, t.n, Red, t.r), Bin(l, p, Red, t.l);
      RedRed(ctx', t') && Around(ctx', t') == Around(InRight(up, p, Red, l), t)
  {
    AroundUp(InRight(up, p, Red, l), t);
    AroundUp(InLeft(up, t.n, Red, t.r), Bin(l, p, Red, t.l));
    TurnKeepsOrder(Bin(l, p, Red, t));
  }

  lemma LineUpRight(up: Ctx, p: Node, r: Tree, t: Tree)
    requires RedRed(InLeft(up, p, Red, r), t)
    ensures var ctx', t' := InRight(up, t.n, Red, t.l), Bin(t.r, p, Red, r);
      RedRed(ctx', t') && Around(ctx', t') == Around(InLeft(up, p, Red, r), t)
  {
    AroundUp(InLeft(up, p, Red, r), t);
    AroundUp(InRight(up, t.n, Red, t.l), Bin(t.r, p, Red, r));
    TurnKeepsOrder(Bin(t, p, Red, r));
  }

  // Black uncle, node and parent on the same side: the parent takes the grandparent's place
  lemma RaiseParentRight(up: Ctx, g: Node, u: Tree, p: Node, r: Tree, t: Tree)
    requires RedRed(InLeft(InLeft(up, g, Black, u), p, Red, r), t) && !IsRed(u)
    ensures var ctx' := InLeft(up, p, Black, Bin(r, g, Red, u));
      RedAt(ctx', t) && Around(ctx', t) == Around(InLeft(InLeft(up, g, Black, u), p, Red, r), t)
  {
    assert GoodCtx(InLeft(up, g, Black, u), BlackHeight(t));
    var par := Bin(t, p, Red, r);
    AroundUp(InLeft(InLeft(up, g, Black, u), p, Red, r), t);
    AroundUp(InLeft(up, g, Black, u), par);
    AroundUp(InLeft(up, p, Black, Bin(r, g, Red, u)), t);
    TurnKeepsOrder(Bin(par, g, Red, u));
  }

  lemma RaiseParentLeft(up: Ctx, g: Node, u: Tree, p: Node, l: Tree, t: Tree)
    requires RedRed(InRight(InRight(up, g, Black, u), p, Red, l), t) && !IsRed(u)
    ensures var ctx' := InRight(up, p, Black, Bin(u, g, Red, l));
      RedAt(ctx', t) && Around(ctx', t) == Around(InRight(InRight(up, g, Black, u), p, Red, l), t)
  {
    assert GoodCtx(InRight(up, g, Black, u), BlackHeight(t));
    var par := Bin(l, p, Red, t);
    AroundUp(InRight(InRight(up, g, Black, u), p, Red, l), t);
    AroundUp(InRight(up, g, Black, u), par);
    AroundUp(InRight(up, p, Black, Bin(u, g, Red, l)), t);
    TurnKeepsOrder(Bin(u, g, Red, par));
  }

  // Parent black, grandparent red, just before that rotation
  lemma PairPainted(m: Memory, top: Node?, ctx: Ctx, t: Tree)
    requires State(m, top, ctx, t) && !ctx.Top? && !ctx.up.Top?
    ensures var p := Up(ctx, t); var p' := p.(c := Black); var g := Up(ctx.up, p');
      State(SetColor(SetColor(m, ctx.n, Black), ctx.up.n, Red), top, ctx.up.up, g.(c := Red))
  {
    var p := Up(ctx, t);
    StepUp(m, top, ctx, t);
    Painted(m, top, ctx.up, p, Black);
    var m1 := SetColor(m, ctx.n, Black);
    StepUp(m1, top, ctx.up, p.(c := Black));
    Painted(m1, top, ctx.up.up, Up(ctx.up, p.(c := Black)), Red);
  }

  // The fix-up ends: painting the root black is all that may be left to do
  ghost function Rooted(ctx: Ctx, t: Tree): Tree {
    if ctx.Top? && t.Bin? then t.(c := Black) else Plug(ctx, t)
  }

  lemma InsertDone(ctx: Ctx, t: Tree)
    requires RedAt(ctx, t) && (ctx.Top? || ctx.c == Black)
    ensures RedBlack(Rooted(ctx, t)) && Order(Rooted(ctx, t)) == Around(ctx, t)
  {
    if !ctx.Top? {
      PlugRedBlack(ctx, t);
      OrderPlug(ctx, t);
    }
  }

  lemma RootedState(m: Memory, top: Node?, ctx: Ctx, t: Tree, h: nat)
    requires State(m, top, ctx, t) && t.Bin? && GoodCtx(ctx, h)
    ensures top != null && top in m && State(SetColor(m, top, Black), top, Top, Rooted(ctx, t))
  {
    if ctx.Top? {
      Painted(m, top, ctx, t, Black);
    } else {
      RootIsBlack(m, ctx, Ptr(t), top, h);
      assert SetColor(m, top, Black) == m;
      ZipUp(m, top, ctx, t);
    }
  }

  // ---------- Erasure ----------

  // Paths through the focus meet one black node too few; everything else is in order
  ghost predicate Deficit(ctx: Ctx, t: Tree) {
    GoodBelow(t) && GoodCtx(ctx, BlackHeight(t) + 1)
  }

  ghost predicate BlackDeficit(ctx: Ctx, t: Tree) {
    Deficit(ctx, t) && !IsRed(t) && !ctx.Top?
  }

  // The loop of the fix-up: each round ends at a red focus, at the root, or higher up
  ghost function Effort(ctx: Ctx, t: Tree): nat { if IsRed(t) then 0 else Depth(ctx) }

  // What the code reads of the focus, its parent, its sibling and its nephews
  lemma DeficitCells(m: Memory, top: Node?, ctx: Ctx, t: Tree)
    requires State(m, top, ctx, t) && BlackDeficit(ctx, t)
    ensures ctx.n in m && m[ctx.n].parent == Par(ctx.up) && m[ctx.n].color == ctx.c && Beside(ctx).Bin?
    ensures if ctx.InLeft? then m[ctx.n].left == Ptr(t) && m[ctx.n].right == Beside(ctx).n
            else m[ctx.n].left == Beside(ctx).n && m[ctx.n].left != Ptr(t) && m[ctx.n].right == Ptr(t)
    ensures SiblingCells(m, Beside(ctx))
  {
    StepAcross(m, top, ctx, t);
    assert t.Bin? ==> t.n in Nodes(t);
    var s := Beside(ctx);
    assert s.n in Nodes(s) && Rep(m, s, ctx.n);
    assert Rep(m, s.l, s.n) && Rep(m, s.r, s.n);
  }

  ghost predicate SiblingCells(m: Memory, s: Tree) {
    && s.Bin? && s.n in m && m[s.n].color == s.c && m[s.n].left == Ptr(s.l) && m[s.n].right == Ptr(s.r)
    && (s.l.Bin? ==> s.l.n in m && m[s.l.n].color == s.l.c)
    && (s.r.Bin? ==> s.r.n in m && m[s.r.n].color == s.r.c)
  }

  lemma SiblingPainted(m: Memory, top: Node?, ctx: Ctx, t: Tree, c: Color)
    requires State(m, top, ctx, t) && !ctx.Top? && Beside(ctx).Bin?
    ensures State(SetColor(m, Beside(ctx).n, c), top, WithBeside(ctx, Beside(ctx).(c := c)), t)
  {
    StepAcross(m, top, ctx, t);
    Painted(m, top, Across(ctx, t), Beside(ctx), c);
    StepAcross(SetColor(m, Beside(ctx).n, c), top, WithBeside(ctx, Beside(ctx).(c := c)), t);
  }

  // The tree at the parent once parent and sibling have new colours
  ghost function Repainted(ctx: Ctx, t: Tree, c: Color, s: Tree): (u: Tree)
    requires !ctx.Top?
    ensures u.Bin?
  {
    if ctx.InLeft? then Bin(t, ctx.n, c, s) else Bin(s, ctx.n, c, t)
  }

  // Stores before the rotation in the red-sibling case
  lemma UncoverPaint(m: Memory, top: Node?, ctx: Ctx, t: Tree)
    requires State(m, top, ctx, t) && !ctx.Top? && Beside(ctx).Bin?
    ensures State(SetColor(SetColor(m, Beside(ctx).n, Black), ctx.n, Red), top, ctx.up,
      Repainted(ctx, t, Red, Beside(ctx).(c := Black)))
  {
    var s' := Beside(ctx).(c := Black);
    SiblingPainted(m, top, ctx, t, Black);
    var m1 := SetColor(m, Beside(ctx).n, Black);
    StepUp(m1, top, WithBeside(ctx, s'), t);
    Painted(m1, top, ctx.up, Up(WithBeside(ctx, s'), t), Red);
  }

  // Stores before the rotation at the sibling: near nephew black, sibling red
  lemma FarRedPaint(m: Memory, top: Node?, ctx: Ctx, s: Tree)
    requires State(m, top, ctx, s) && s.Bin?
    ensures s.l.Bin? ==>
      State(SetColor(SetColor(m, s.l.n, Black), s.n, Red), top, ctx, Bin(s.l.(c := Black), s.n, Red, s.r))
    ensures s.r.Bin? ==>
      State(SetColor(SetColor(m, s.r.n, Black), s.n, Red), top, ctx, Bin(s.l, s.n, Red, s.r.(c := Black)))
  {
    ChildPainted(m, top, ctx, s, Black);
    if s.l.Bin? {
      Painted(SetColor(m, s.l.n, Black), top, ctx, s.(l := s.l.(c := Black)), Red);
    }
    if s.r.Bin? {
      Painted(SetColor(m, s.r.n, Black), top, ctx, s.(r := s.r.(c := Black)), Red);
    }
  }

  // Stores before the last rotation: the sibling takes the parent's colour, parent and far nephew turn black
  ghost function Far(ctx: Ctx): Tree
    requires !ctx.Top?
  {
    if Beside(ctx).Nil? then Nil else if ctx.InLeft? then ctx.r.r else ctx.l.l
  }

  ghost function Settled(ctx: Ctx): Tree
    requires !ctx.Top? && Beside(ctx).Bin? && Far(ctx).Bin?
  {
    var s := Beside(ctx);
    if ctx.InLeft? then Bin(s.l, s.n, ctx.c, s.r.(c := Black)) else Bin(s.l.(c := Black), s.n, ctx.c, s.r)
  }

  lemma SettlePaint(m: Memory, top: Node?, ctx: Ctx, t: Tree)
    requires State(m, top, ctx, t) && !ctx.Top? && Beside(ctx).Bin? && Far(ctx).Bin?
    ensures State(SetColor(SetColor(SetColor(m, Beside(ctx).n, ctx.c), ctx.n, Black), Far(ctx).n, Black),
                  top, ctx.up, Repainted(ctx, t, Black, Settled(ctx)))
  {
    var s' := Beside(ctx).(c := ctx.c);
    SiblingPainted(m, top, ctx, t, ctx.c);
    var m1 := SetColor(m, Beside(ctx).n, ctx.c);
    StepUp(m1, top, WithBeside(ctx, s'), t);
    Painted(m1, top, ctx.up, Up(WithBeside(ctx, s'), t), Black);
    var m2 := SetColor(m1, ctx.n, Black);
    var over := if ctx.InLeft? then InRight(ctx.up, ctx.n, Black, t) else InLeft(ctx.up, ctx.n, Black, t);
    StepUp(m2, top, over, s');
    ChildPainted(m2, top, over, s', Black);
    StepUp(SetColor(m2, Far(ctx).n, Black), top, over, Settled(ctx));
  }

  lemma ChildPainted(m: Memory, top: Node?, ctx: Ctx, t: Tree, c: Color)
    requires State(m, top, ctx, t) && t.Bin?
    ensures t.l.Bin? ==> State(SetColor(m, t.l.n, c), top, ctx, t.(l := t.l.(c := c)))
    ensures t.r.Bin? ==> State(SetColor(m, t.r.n, c), top, ctx, t.(r := t.r.(c := c)))
  {
    if t.l.Bin? {
      var ctx' := InLeft(ctx, t.n, t.c, t.r);
      StepUp(m, top, ctx', t.l);
      Painted(m, top, ctx', t.l, c);
      StepUp(SetColor(m, t.l.n, c), top, ctx', t.l.(c := c));
    }
    if t.r.Bin? {
      var ctx' := InRight(ctx, t.n, t.c, t.l);
      StepUp(m, top, ctx', t.r);
      Painted(m, top, ctx', t.r, c);
      StepUp(SetColor(m, t.r.n, c), top, ctx', t.r.(c := c));
    }
  }

  // Red sibling: a rotation at the parent gives the focus a black one
  lemma RedSiblingLeft(up: Ctx, p: Node, cp: Color, s: Tree, t: Tree)
    requires BlackDeficit(InLeft(up, p, cp, s), t) && IsRed(s)
    ensures var ctx' := InLeft(InLeft(up, s.n, Black, s.r), p, Red, s.l);
      BlackDeficit(ctx', t) && s.l.Bin? && s.l.c == Black && Around(ctx', t) == Around(InLeft(up, p, cp, s), t)
  {
    var ctx' := InLeft(InLeft(up, s.n, Black, s.r), p, Red, s.l);
    AroundUp(InLeft(up, p, cp, s), t);
    AroundUp(ctx', t);
    AroundUp(ctx'.up, Up(ctx', t));
    TurnKeepsOrder(Bin(t, p, cp, s));
  }

  lemma RedSiblingRight(up: Ctx, p: Node, cp: Color, s: Tree, t: Tree)
    requires BlackDeficit(InRight(up, p, cp, s), t) && IsRed(s)
    ensures var ctx' := InRight(InRight(up, s.n, Black, s.l), p, Red, s.r);
      BlackDeficit(ctx', t) && s.r.Bin? && s.r.c == Black && Around(ctx', t) == Around(InRight(up, p, cp, s), t)
  {
    var ctx' := InRight(InRight(up, s.n, Black, s.l), p, Red, s.r);
    AroundUp(InRight(up, p, cp, s), t);
    AroundUp(ctx', t);
    AroundUp(ctx'.up, Up(ctx', t));
    TurnKeepsOrder(Bin(s, p, cp, t));
  }

  // Black sibling without red children: painting it red moves the deficit to the parent
  lemma PassUp(ctx: Ctx, t: Tree)
    requires BlackDeficit(ctx, t) && Beside(ctx).Bin? && Beside(ctx).c == Black
    requires !IsRed(Beside(ctx).l) && !IsRed(Beside(ctx).r)
    ensures var ctx' := WithBeside(ctx, Beside(ctx).(c := Red));
      Deficit(ctx.up, Up(ctx', t)) && Around(ctx.up, Up(ctx', t)) == Around(ctx, t)
  {
    var s' := Beside(ctx).(c := Red);
    assert Good(t) && Good(s') && BlackHeight(s') == BlackHeight(t);
    assert Order(s') == Order(Beside(ctx));
    AroundUp(ctx, t);
    assert Order(Up(WithBeside(ctx, s'), t)) == Order(Up(ctx, t));
  }

  // Only the near nephew is red: a rotation at the sibling makes the far one red
  lemma FarRedLeft(up: Ctx, p: Node, cp: Color, s: Tree, t: Tree)
    requires BlackDeficit(InLeft(up, p, cp, s), t) && s.Bin? && s.c == Black && IsRed(s.l) && !IsRed(s.r)
    ensures var s' := Bin(s.l.l, s.l.n, Black, Bin(s.l.r, s.n, Red, s.r));
      && BlackDeficit(InLeft(up, p, cp, s'), t)
      && Around(InLeft(up, p, cp, s'), t) == Around(InLeft(up, p, cp, s), t)
  {
    TurnKeepsOrder(s);
    var s' := Bin(s.l.l, s.l.n, Black, Bin(s.l.r, s.n, Red, s.r));
    assert Order(s') == Order(TurnRight(s));
    assert Good(s.l) && Good(s'.r) && Good(s');
  }

  lemma FarRedRight(up: Ctx, p: Node, cp: Color, s: Tree, t: Tree)
    requires BlackDeficit(InRight(up, p, cp, s), t) && s.Bin? && s.c == Black && IsRed(s.r) && !IsRed(s.l)
    ensures var s' := Bin(Bin(s.l, s.n, Red, s.r.l), s.r.n, Black, s.r.r);
      && BlackDeficit(InRight(up, p, cp, s'), t)
      && Around(InRight(up, p, cp, s'), t) == Around(InRight(up, p, cp, s), t)
  {
    TurnKeepsOrder(s);
    var s' := Bin(Bin(s.l, s.n, Red, s.r.l), s.r.n, Black, s.r.r);
    assert Order(s') == Order(TurnLeft(s));
    assert Good(s.r) && Good(s'.l) && Good(s');
  }

  // What the code reads before that rotation
  lemma SettleCells(m: Memory, top: Node?, ctx: Ctx, t: Tree)
    requires State(m, top, ctx, t) && BlackDeficit(ctx, t) && IsRed(Far(ctx))
    ensures {ctx.n, Beside(ctx).n, Far(ctx).n} <= m.Keys && m[ctx.n].color == ctx.c && ctx.n != Beside(ctx).n
    ensures (if ctx.InLeft? then m[Beside(ctx).n].right else m[Beside(ctx).n].left) == Far(ctx).n
  {
    DeficitCells(m, top, ctx, t);
    assert Beside(ctx).n in Nodes(Beside(ctx));
  }

  // The far nephew is red: a rotation at the parent ends the deficit
  lemma SettleLeft(up: Ctx, p: Node, cp: Color, s: Tree, t: Tree)
    requires BlackDeficit(InLeft(up, p, cp, s), t) && s.Bin? && s.c == Black && IsRed(s.r)
    ensures var u := Bin(Bin(t, p, Black, s.l), s.n, cp, s.r.(c := Black));
      RedBlack(Plug(up, u)) && Order(Plug(up, u)) == Around(InLeft(up, p, cp, s), t)
  {
    var u := Bin(Bin(t, p, Black, s.l), s.n, cp, s.r.(c := Black));
    assert Good(t) && Good(s.l) && Good(s.r) && Good(u.l) && Good(u.r);
    PlugRedBlack(up, u);
    OrderPlug(up, u);
    AroundUp(InLeft(up, p, cp, s), t);
    var s' := Bin(s.l, s.n, cp, s.r.(c := Black));
    TurnKeepsOrder(Bin(t, p, Black, s'));
    assert Order(s') == Order(s);
  }

  lemma SettleRight(up: Ctx, p: Node, cp: Color, s: Tree, t: Tree)
    requires BlackDeficit(InRight(up, p, cp, s), t) && s.Bin? && s.c == Black && IsRed(s.l)
    ensures var u := Bin(s.l.(c := Black), s.n, cp, Bin(s.r, p, Black, t));
      RedBlack(Plug(up, u)) && Order(Plug(up, u)) == Around(InRight(up, p, cp, s), t)
  {
    var u := Bin(s.l.(c := Black), s.n, cp, Bin(s.r, p, Black, t));
    assert Good(t) && Good(s.l) && Good(s.r) && Good(u.l) && Good(u.r);
    PlugRedBlack(up, u);
    OrderPlug(up, u);
    AroundUp(InRight(up, p, cp, s), t);
    var s' := Bin(s.l.(c := Black), s.n, cp, s.r);
    TurnKeepsOrder(Bin(s', p, Black, t));
    assert Order(s') == Order(s);
  }

  // A finished tree is a focus at the root without any deficit left to see
  lemma TopDone(u: Tree)
    requires RedBlack(u)
    ensures Deficit(Top, u) && Around(Top, u) == Order(u)
  {
    hide Order, BlackHeight;
  }

  // The fix-up ends at a red node or at the root, which is painted black
  ghost function Blackened(t: Tree): Tree { if t.Nil? then Nil else t.(c := Black) }

  lemma EraseDone(ctx: Ctx, t: Tree)
    requires Deficit(ctx, t) && (IsRed(t) || ctx.Top?)
    ensures RedBlack(Plug(ctx, Blackened(t))) && Order(Plug(ctx, Blackened(t))) == Around(ctx, t)
  {
    PlugRedBlack(ctx, Blackened(t));
    OrderPlug(ctx, Blackened(t));
    assert Order(Blackened(t)) == Order(t);
  }

  // The focus is the root exactly when its context is empty
  lemma {:induction false} TopIsAbove(m: Memory, top: Node?, ctx: Ctx, t: Tree)
    requires State(m, top, ctx, t)
    ensures Ptr(t) == top <==> ctx.Top?
    decreases ctx
  {
    if !ctx.Top? {
      TopInCtx(m, ctx, Ptr(t), top);
      assert t.Bin? ==> t.n in Nodes(t);
    }
  }

  lemma {:induction false} TopInCtx(m: Memory, ctx: Ctx, hole: Node?, top: Node?)
    requires RepCtx(m, ctx, hole, top) && !ctx.Top?
    ensures top in CtxNodes(ctx)
  {
    if !ctx.up.Top? {
      TopInCtx(m, ctx.up, ctx.n, top);
    }
  }
}
