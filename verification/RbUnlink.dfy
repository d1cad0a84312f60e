/**
  Taking a node out of the tree: by its only child, or by the in-order successor, which
  is the leftmost node of the right subtree.
 */
module RbUnlink {
  import opened Common
  import opened RbShape
  import opened RbMemory
  import opened RbBalance

  // Only left turns
  ghost predicate Leftmost(inner: Ctx) {
    !inner.Top? ==> inner.InLeft? && Leftmost(inner.up)
  }

  // `t` has two children, and `s`, reached by left turns `inner` inside its right subtree, has no left child
  ghost predicate HasSuccessor(t: Tree, inner: Ctx, s: Tree) {
    && t.Bin? && t.l.Bin? && t.r.Bin? && Leftmost(inner)
    && s.Bin? && s.l.Nil? && t.r == Plug(inner, s)
  }

  // The context of the successor, with the node at the focus being `x`
  ghost function SuccessorCtx(ctx: Ctx, t: Tree, x: Node, inner: Ctx): Ctx
    requires t.Bin?
  {
    Under(inner, InRight(ctx, x, t.c, t.l))
  }

  lemma {:induction false} UnderParent(inner: Ctx, base: Ctx)
    ensures Par(Under(inner, base)) == if inner.Top? then Par(base) else inner.n
    ensures CtxNodes(Under(inner, base)) == CtxNodes(inner) + CtxNodes(base)
  {
    if !inner.Top? {
      UnderParent(inner.up, base);
    }
  }

  // A tree and the pieces it was plugged together from have the same root, unless the context is empty
  lemma {:induction false} PlugRoot(inner: Ctx, s: Tree, u: Tree)
    requires !inner.Top?
    ensures Plug(inner, s).Bin? && Plug(inner, u).Bin? && Plug(inner, s).n == Plug(inner, u).n
    ensures Plug(inner, s).n in CtxNodes(inner)
  {
    if !inner.up.Top? {
      PlugRoot(inner.up, Up(inner, s), Up(inner, u));
    }
  }

  lemma SuccessorFocus(m: Memory, top: Node?, ctx: Ctx, t: Tree, inner: Ctx, s: Tree)
    requires HasSuccessor(t, inner, s)
    ensures State(m, top, ctx, t) <==> State(m, top, SuccessorCtx(ctx, t, t.n, inner), s)
  {
    var base := InRight(ctx, t.n, t.c, t.l);
    ZipUnder(m, top, inner, base, s);
    StepUp(m, top, base, t.r);
  }

  // The successor is spliced out of the right subtree
  lemma SuccessorOut(m: Memory, top: Node?, ctx: Ctx, t: Tree, inner: Ctx, s: Tree)
    requires State(m, top, ctx, t) && HasSuccessor(t, inner, s)
    ensures var q := Par(SuccessorCtx(ctx, t, t.n, inner));
      && State(Spliced(m, q, s.n, Ptr(s.r)), top, ctx, t.(r := Plug(inner, s.r)))
      && s.n !in Nodes(t.(r := Plug(inner, s.r))) + CtxNodes(ctx)
  {
    var base := InRight(ctx, t.n, t.c, t.l);
    SuccessorFocus(m, top, ctx, t, inner, s);
    SplicedState(m, top, Under(inner, base), s);
    UnderParent(inner, base);
    var m' := Spliced(m, Par(Under(inner, base)), s.n, Ptr(s.r));
    ZipUnder(m', top, inner, base, s.r);
    StepUp(m', top, base, Plug(inner, s.r));
    NodesPlug(inner, s.r);
  }

  // The stores that move the successor `y` to the place of `x`: first its removal from below `q`, when `q` is not `x`
  ghost function Lifted(m: Memory, x: Node, y: Node, q: Node, child: Node?, r: Node?): Memory {
    SetParent(SetRight(SetLeft(SetParent(m, child, q), q, child), y, r), r, y)
  }

  ghost function LiftedUnless(m: Memory, x: Node, y: Node, q: Node, child: Node?, r: Node?): Memory {
    if q == x then m else Lifted(m, x, y, q, child, r)
  }

  ghost function Moved(m: Memory, x: Node, y: Node, p: Node?, c: Color, l: Node?): Memory {
    SetParent(SetLeft(SetColor(SetParent(m, y, p), y, c), y, l), l, y)
  }

  // The nodes involved are different ones, except that `q` may be the right child of `x`
  ghost predicate Apart(m: Memory, x: Node, y: Node, q: Node, child: Node?) {
    && {x, y, q} <= m.Keys && (child != null ==> child in m)
    && m[x].left != null && m[x].right != null
    && var l: Node, r: Node, p := m[x].left, m[x].right, m[x].parent;
      && l in m && r in m && (p != null ==> p in m)
      && x != y && l !in {x, y, q, r} && q != y && r != x
      && (p != null ==> p !in {x, y, q, l, r})
      && (child != null ==> child !in {x, y, q, l} && child != p)
      && m[y] == Cell(q, m[y].color, null, child)
      && (child != null ==> m[child].parent == y)
  }

  lemma MovedFromRightChild(m: Memory, x: Node, y: Node, child: Node?)
    requires {x, y} <= m.Keys && Apart(m, x, y, x, child) && m[x].right == y
    ensures Superseded(Spliced(m, x, y, child),
      Moved(RelinkLeftFirst(m, m[x].parent, x, y), x, y, m[x].parent, m[x].color, m[x].left), x, y)
  {
  }

  lemma MovedFromBelow(m: Memory, x: Node, y: Node, q: Node, child: Node?)
    requires Apart(m, x, y, q, child) && q != x && m[x].right != y && m[q].left == y && child != m[x].right
    ensures Superseded(Spliced(m, q, y, child),
                       Moved(Lifted(RelinkLeftFirst(m, m[x].parent, x, y), x, y, q, child, m[x].right), x, y,
                         m[x].parent, m[x].color, m[x].left), x, y)
  {
  }

  // All the stores of the move, after `y` has been linked to the parent of `x`
  ghost function SuccessorStores(m: Memory, x: Node, y: Node, q: Node, child: Node?): Memory
    requires x in m
  {
    Moved(LiftedUnless(m, x, y, q, child, m[x].right), x, y, m[x].parent, m[x].color, m[x].left)
  }

  ghost predicate SuccessorLinks(m: Memory, x: Node, y: Node, q: Node, child: Node?) {
    && Apart(m, x, y, q, child)
    && if q == x then m[x].right == y else m[x].right != y && m[q].left == y && child != m[x].right
  }

  lemma SuccessorSupersedes(m: Memory, x: Node, y: Node, q: Node, child: Node?)
    requires SuccessorLinks(m, x, y, q, child)
    ensures var m1 := RelinkLeftFirst(m, m[x].parent, x, y);
      m1[x] == m[x] && m1[y] == m[y] && Superseded(Spliced(m, q, y, child), SuccessorStores(m1, x, y, q, child), x, y)
  {
    if q == x {
      MovedFromRightChild(m, x, y, child);
    } else {
      MovedFromBelow(m, x, y, q, child);
    }
  }

  // Those conditions, from the shape
  lemma SuccessorCells(m: Memory, top: Node?, ctx: Ctx, t: Tree, inner: Ctx, s: Tree)
    requires State(m, top, ctx, t) && HasSuccessor(t, inner, s)
    ensures t.n in m && m[t.n] == Cell(Par(ctx), t.c, t.l.n, t.r.n)
    ensures s.n in m && m[s.n].color == s.c
    ensures var q := Par(SuccessorCtx(ctx, t, t.n, inner));
      q != null && SuccessorLinks(m, t.n, s.n, q, Ptr(s.r))
  {
    var base := InRight(ctx, t.n, t.c, t.l);
    SuccessorFocus(m, top, ctx, t, inner, s);
    UnderParent(inner, base);
    assert t.l.n in Nodes(t.l) && Rep(m, t.l, t.n) && Rep(m, t.r, t.n);
    assert t.r.n in Nodes(t.r);
    assert !ctx.Top? ==> ctx.n in CtxNodes(ctx);
    NodesPlug(inner, s);
    if !inner.Top? {
      PlugRoot(inner, s, s);
      assert inner.n in CtxNodes(inner);
    }
    if s.r.Bin? {
      assert Rep(m, s.r, s.n) && s.r.n in Nodes(s.r);
    }
  }

  // What the move needs of the nodes it goes through
  ghost predicate CanMove(m: Memory, x: Node, y: Node) {
    && {x, y} <= m.Keys && x != y
    && m[y].parent != null && m[y].parent in m && m[y].parent != y
    && m[y].right != x && (m[y].right != null ==> m[y].right in m)
    && m[x].left != null && m[x].left in m
    && m[x].right != null && m[x].right in m && m[x].right != x
  }

  // The successor hangs below the node itself exactly when it is its right child
  lemma SuccessorIsChild(t: Tree, inner: Ctx, s: Tree, ctx: Ctx)
    requires HasSuccessor(t, inner, s) && Uniq(t)
    ensures Par(SuccessorCtx(ctx, t, t.n, inner)) == t.n <==> inner.Top?
  {
    UnderParent(inner, InRight(ctx, t.n, t.c, t.l));
    NodesPlug(inner, s);
    assert !inner.Top? ==> inner.n in CtxNodes(inner);
  }

  lemma SuccessorReady(m: Memory, top: Node?, ctx: Ctx, t: Tree, inner: Ctx, s: Tree)
    requires State(m, top, ctx, t) && HasSuccessor(t, inner, s)
    ensures t.n in m && m[t.n].parent == Par(ctx) && (Par(ctx) != null ==> Par(ctx) in m)
    ensures var m' := RelinkLeftFirst(m, Par(ctx), t.n, s.n);
      && m'.Keys == m.Keys && CanMove(m', t.n, s.n)
      && m'[s.n] == Cell(Par(SuccessorCtx(ctx, t, t.n, inner)), s.c, null, Ptr(s.r))
  {
    SuccessorCells(m, top, ctx, t, inner, s);
    SuccessorSupersedes(m, t.n, s.n, Par(SuccessorCtx(ctx, t, t.n, inner)), Ptr(s.r));
  }

  // After the move the focus is where the successor was, below the successor itself
  lemma SuccessorMoved(m: Memory, m': Memory, top: Node?, ctx: Ctx, t: Tree, inner: Ctx, s: Tree)
    requires State(m, top, ctx, t) && HasSuccessor(t, inner, s)
    requires var q := Par(SuccessorCtx(ctx, t, t.n, inner));
      t.n in m && q != null && m' == SuccessorStores(RelinkLeftFirst(m, Par(ctx), t.n, s.n), t.n, s.n, q, Ptr(s.r))
    ensures State(m', NewTop(top, Par(ctx), s.n), SuccessorCtx(ctx, t, s.n, inner), s.r)
    ensures Par(SuccessorCtx(ctx, t, s.n, inner)) == if inner.Top? then s.n else Par(SuccessorCtx(ctx, t, t.n, inner))
  {
    var q := Par(SuccessorCtx(ctx, t, t.n, inner));
    var u := t.(r := Plug(inner, s.r));
    var top' := NewTop(top, Par(ctx), s.n);
    SuccessorOut(m, top, ctx, t, inner, s);
    SuccessorCells(m, top, ctx, t, inner, s);
    SuccessorSupersedes(m, t.n, s.n, q, Ptr(s.r));
    SupersededState(Spliced(m, q, s.n, Ptr(s.r)), m', top, ctx, u, s.n);
    var base := InRight(ctx, s.n, t.c, t.l);
    StepUp(m', top', base, u.r);
    ZipUnder(m', top', inner, base, s.r);
    UnderParent(inner, base);
    UnderParent(inner, InRight(ctx, t.n, t.c, t.l));
  }

  // ---------- Balance and order ----------

  // Renaming the node at the focus changes nothing the colours depend on
  lemma {:induction false} RenameKeepsGood(ctx: Ctx, t: Tree, x: Node, y: Node, inner: Ctx, h: nat)
    requires t.Bin?
    ensures GoodCtx(SuccessorCtx(ctx, t, x, inner), h) <==> GoodCtx(SuccessorCtx(ctx, t, y, inner), h)
    ensures WantsBlack(SuccessorCtx(ctx, t, x, inner)) <==> WantsBlack(SuccessorCtx(ctx, t, y, inner))
  {
    if !inner.Top? {
      RenameKeepsGood(ctx, t, x, y, inner.up, h + Weight(inner.c));
    }
  }

  // A tree around a focus is red-black
  ghost predicate Balanced(ctx: Ctx, t: Tree) {
    GoodCtx(ctx, BlackHeight(t)) && Good(t) && (WantsBlack(ctx) ==> !IsRed(t))
  }

  // Taking out a red node costs nothing; a black one leaves its paths one black node short
  lemma OutBalance(ctx: Ctx, t: Tree)
    requires Balanced(ctx, t) && t.Bin? && (t.l.Nil? || t.r.Nil?)
    ensures if t.c == Black then Deficit(ctx, OnlyChild(t)) else Balanced(ctx, OnlyChild(t))
  {
    var u := OnlyChild(t);
    assert Good(u) && GoodBelow(u);
  }

  lemma SuccessorBalance(ctx: Ctx, t: Tree, inner: Ctx, s: Tree)
    requires Balanced(ctx, t) && HasSuccessor(t, inner, s)
    ensures var ctx' := SuccessorCtx(ctx, t, s.n, inner);
      if s.c == Black then Deficit(ctx', s.r) else Balanced(ctx', s.r)
  {
    var base := InRight(ctx, t.n, t.c, t.l);
    PlugRedBlack(ctx, t);
    PlugUnder(inner, base, s);
    PlugRedBlack(Under(inner, base), s);
    RenameKeepsGood(ctx, t, t.n, s.n, inner, BlackHeight(s));
    OutBalance(SuccessorCtx(ctx, t, s.n, inner), s);
  }

  lemma {:induction false} AroundUnder(inner: Ctx, base: Ctx)
    requires Leftmost(inner)
    ensures Before(Under(inner, base)) == Before(base)
    ensures After(Under(inner, base)) == After(inner) + After(base)
  {
    if !inner.Top? {
      AroundUnder(inner.up, base);
    }
  }

  ghost function Without<T>(s: seq<T>, x: T): seq<T> {
    if s == [] then [] else if s[0] == x then Without(s[1..], x) else [s[0]] + Without(s[1..], x)
  }

  lemma {:induction false} WithoutAbsent<T>(s: seq<T>, x: T)
    requires x !in s
    ensures Without(s, x) == s
  {
    if s != [] {
      WithoutAbsent(s[1..], x);
    }
  }

  lemma {:induction false} WithoutConcat<T>(a: seq<T>, b: seq<T>, x: T)
    ensures Without(a + b, x) == Without(a, x) + Without(b, x)
  {
    if a == [] {
      assert a + b == b;
    } else {
      assert (a + b)[1..] == a[1..] + b;
      WithoutConcat(a[1..], b, x);
    }
  }

  lemma WithoutOne<T>(a: seq<T>, x: T, b: seq<T>)
    requires NoDup(a + [x] + b)
    ensures Without(a + [x] + b, x) == a + b
  {
    var s := a + [x] + b;
    assert s[|a|] == x;
    forall i | 0 <= i < |a| ensures a[i] != x {
      assert s[i] == a[i];
    }
    forall i | 0 <= i < |b| ensures b[i] != x {
      assert s[|a| + 1 + i] == b[i];
    }
    WithoutConcat(a + [x], b, x);
    WithoutConcat(a, [x], x);
    WithoutAbsent(a, x);
    WithoutAbsent(b, x);
    assert Without([x], x) == Without([], x) == [];
  }

  lemma OrderOut(ctx: Ctx, t: Tree)
    requires t.Bin? && (t.l.Nil? || t.r.Nil?) && Uniq(Plug(ctx, t))
    ensures Around(ctx, OnlyChild(t)) == Without(Order(Plug(ctx, t)), t.n)
  {
    OrderPlug(ctx, t);
    OrderNoDup(Plug(ctx, t));
    var a, b := Before(ctx) + Order(t.l), Order(t.r) + After(ctx);
    assert Order(Plug(ctx, t)) == a + [t.n] + b;
    WithoutOne(a, t.n, b);
    assert a + b == Around(ctx, OnlyChild(t));
  }

  lemma Regroup<T>(b: seq<T>, l: seq<T>, x: T, y: T, c: seq<T>, d: seq<T>, a: seq<T>)
    ensures b + (l + [x] + ([y] + c + d)) + a == b + l + [x] + ([y] + c + d + a)
    ensures b + l + [y] + c + (d + a) == b + l + ([y] + c + d + a)
  {
  }

  lemma SuccessorFirst(inner: Ctx, s: Tree)
    requires Leftmost(inner) && s.Bin? && s.l.Nil?
    ensures Order(Plug(inner, s)) == [s.n] + Order(s.r) + After(inner)
  {
    OrderPlug(inner, s);
    LeftmostBefore(inner);
    assert Order(s) == [s.n] + Order(s.r);
  }

  lemma OrderWithSuccessor(ctx: Ctx, t: Tree, inner: Ctx, s: Tree)
    requires HasSuccessor(t, inner, s)
    ensures Order(Plug(ctx, t)) == Before(ctx) + Order(t.l) + [t.n] + ([s.n] + Order(s.r) + After(inner) + After(ctx))
  {
    var c, d := Order(s.r), After(inner);
    SuccessorFirst(inner, s);
    assert Order(t) == Order(t.l) + [t.n] + ([s.n] + c + d);
    OrderPlug(ctx, t);
    Regroup(Before(ctx), Order(t.l), t.n, s.n, Order(s.r), After(inner), After(ctx));
  }

  lemma AroundSuccessor(ctx: Ctx, t: Tree, inner: Ctx, s: Tree)
    requires HasSuccessor(t, inner, s)
    ensures Around(SuccessorCtx(ctx, t, s.n, inner), s.r)
      == Before(ctx) + Order(t.l) + ([s.n] + Order(s.r) + After(inner) + After(ctx))
  {
    AroundUnder(inner, InRight(ctx, s.n, t.c, t.l));
    Regroup(Before(ctx), Order(t.l), t.n, s.n, Order(s.r), After(inner), After(ctx));
  }

  lemma OrderSuccessorOut(ctx: Ctx, t: Tree, inner: Ctx, s: Tree)
    requires HasSuccessor(t, inner, s) && Uniq(Plug(ctx, t))
    ensures Around(SuccessorCtx(ctx, t, s.n, inner), s.r) == Without(Order(Plug(ctx, t)), t.n)
  {
    OrderWithSuccessor(ctx, t, inner, s);
    AroundSuccessor(ctx, t, inner, s);
    OrderNoDup(Plug(ctx, t));
    WithoutOne(Before(ctx) + Order(t.l), t.n, [s.n] + Order(s.r) + After(inner) + After(ctx));
  }

  lemma {:induction false} LeftmostBefore(inner: Ctx)
    requires Leftmost(inner)
    ensures Before(inner) == []
  {
    if !inner.Top? {
      LeftmostBefore(inner.up);
    }
  }

  lemma {:induction false} WithoutIn<T>(s: seq<T>, x: T, y: T)
    ensures y in Without(s, x) <==> y in s && y != x
  {
    if s != [] {
      WithoutIn(s[1..], x, y);
      assert s == [s[0]] + s[1..];
    }
  }

  lemma NodeWithout(t: Tree, u: Tree, x: Node, y: Node)
    requires Order(u) == Without(Order(t), x)
    ensures y in Nodes(u) <==> y in Nodes(t) - {x}
  {
    InOrder(t, y);
    InOrder(u, y);
    WithoutIn(Order(t), x, y);
  }

  lemma NodesWithout(t: Tree, u: Tree, x: Node)
    requires Order(u) == Without(Order(t), x)
    ensures Nodes(u) == Nodes(t) - {x}
  {
    forall y | y in Nodes(u) ensures y in Nodes(t) - {x} {
      NodeWithout(t, u, x, y);
    }
    forall y | y in Nodes(t) - {x} ensures y in Nodes(u) {
      NodeWithout(t, u, x, y);
    }
  }

  // A tree without a node `x` leaves the record of the other nodes as it was
  lemma Forget(m: Memory, top: Node?, t: Tree, u: Tree, x: Node)
    requires State(m, top, Top, u) && m.Keys == Nodes(t) && Order(u) == Without(Order(t), x)
    ensures State(m - {x}, top, Top, u) && (m - {x}).Keys == Nodes(u) == Nodes(t) - {x}
  {
    NodesWithout(t, u, x);
    FrameState(m, m - {x}, top, Top, u);
  }

  // The focus on a node of a red-black tree
  lemma Focus(m: Memory, top: Node?, t: Tree, x: Node) returns (ctx: Ctx, u: Tree)
    requires State(m, top, Top, t) && RedBlack(t) && x in Nodes(t)
    ensures Plug(ctx, u) == t && u.Bin? && u.n == x
    ensures State(m, top, ctx, u) && Balanced(ctx, u)
  {
    ctx, u := Locate(Top, t, x);
    ZipUp(m, top, ctx, u);
    PlugRedBlack(ctx, u);
  }
}
