/**
  The in-order sequence of libconhash/util_rbtree.c, where equal keys may stand side by side,
  and the stores of its rotations and of its deletion.
 */
module UtilRbtreeOrder {
  import opened Common
  import opened RbShape
  import opened RbMemory
  import opened RbBalance
  import opened RbUnlink
  import opened RbOrder

  // ---------- Ascending keys ----------

  ghost predicate Ascending(s: seq<Node>) {
    forall i, j :: 0 <= i < j < |s| ==> s[i].id <= s[j].id
  }

  ghost predicate AtMost(s: seq<Node>, k: int) { forall n :: n in s ==> n.id <= k }
  ghost predicate AtLeast(s: seq<Node>, k: int) { forall n :: n in s ==> k <= n.id }

  lemma AscendingSplit(a: seq<Node>, x: Node, b: seq<Node>)
    ensures Ascending(a + [x] + b) <==> Ascending(a) && Ascending(b) && AtMost(a, x.id) && AtLeast(b, x.id)
  {
    var s := a + [x] + b;
    if Ascending(s) {
      assert s[|a|] == x;
      forall i, j | 0 <= i < j < |a| ensures a[i].id <= a[j].id {
        assert s[i] == a[i] && s[j] == a[j];
      }
      forall i, j | 0 <= i < j < |b| ensures b[i].id <= b[j].id {
        assert s[|a| + 1 + i] == b[i] && s[|a| + 1 + j] == b[j];
      }
      forall n | n in a ensures n.id <= x.id {
        var i :| 0 <= i < |a| && a[i] == n;
        assert s[i] == n;
      }
      forall n | n in b ensures x.id <= n.id {
        var i :| 0 <= i < |b| && b[i] == n;
        assert s[|a| + 1 + i] == n;
      }
    }
    if Ascending(a) && Ascending(b) && AtMost(a, x.id) && AtLeast(b, x.id) {
      forall i, j | 0 <= i < j < |s| ensures s[i].id <= s[j].id {
        if i < |a| {
          assert s[i] in a;
        }
        if |a| < j {
          assert s[j] in b;
        }
      }
    }
  }

  lemma FocusSplit(ctx: Ctx, t: Tree)
    requires t.Bin? && Ascending(Order(Plug(ctx, t)))
    ensures AtMost(Before(ctx) + Order(t.l), t.n.id) && AtLeast(Order(t.r) + After(ctx), t.n.id)
  {
    OrderFocus(ctx, t);
    AscendingSplit(Before(ctx) + Order(t.l), t.n, Order(t.r) + After(ctx));
  }

  // ---------- Where a new key goes: behind its equals ----------

  ghost function Placed(s: seq<Node>, x: Node): seq<Node> {
    if s == [] || x.id < s[0].id then [x] + s else [s[0]] + Placed(s[1..], x)
  }

  lemma {:induction false} PlacedBetween(a: seq<Node>, x: Node, b: seq<Node>)
    requires AtMost(a, x.id) && AllAbove(b, x.id)
    ensures Placed(a + b, x) == a + [x] + b
  {
    if a == [] {
      assert a + b == b;
    } else {
      assert (a + b)[1..] == a[1..] + b && a[0] in a;
      PlacedBetween(a[1..], x, b);
      assert a + [x] + b == [a[0]] + (a[1..] + [x] + b);
    }
  }

  // The descent of the insertion has come to the hole of `ctx`
  ghost predicate Placing(ctx: Ctx, k: int) {
    AtMost(Before(ctx), k) && AllAbove(After(ctx), k)
  }

  lemma PlaceDown(ctx: Ctx, t: Tree, k: int)
    requires t.Bin? && Ascending(Order(Plug(ctx, t))) && Placing(ctx, k)
    ensures k < t.n.id ==> Placing(InLeft(ctx, t.n, t.c, t.r), k)
    ensures t.n.id <= k ==> Placing(InRight(ctx, t.n, t.c, t.l), k)
  {
    FocusSplit(ctx, t);
    if k < t.n.id {
      forall n | n in After(InLeft(ctx, t.n, t.c, t.r)) ensures k < n.id {
        assert n == t.n || n in Order(t.r) + After(ctx);
      }
    } else {
      forall n | n in Before(InRight(ctx, t.n, t.c, t.l)) ensures n.id <= k {
        assert n == t.n || n in Before(ctx) + Order(t.l);
      }
    }
  }

  lemma PlaceEnd(ctx: Ctx, x: Node)
    requires Ascending(Order(Plug(ctx, Nil))) && Placing(ctx, x.id)
    ensures Order(Plug(ctx, Nil)) == Before(ctx) + After(ctx)
    ensures Before(ctx) + [x] + After(ctx) == Placed(Order(Plug(ctx, Nil)), x)
    ensures Ascending(Before(ctx) + [x] + After(ctx))
  {
    hide Placed, Before, After, Ascending;
    var a, b := Before(ctx), After(ctx);
    OrderPlug(ctx, Nil);
    assert Order(Plug(ctx, Nil)) == a + b;
    PlacedBetween(a, x, b);
    AscendingHalves(a, b);
    AscendingSplit(a, x, b);
  }

  lemma AscendingHalves(a: seq<Node>, b: seq<Node>)
    requires Ascending(a + b)
    ensures Ascending(a) && Ascending(b)
  {
    forall i, j | 0 <= i < j < |a| ensures a[i].id <= a[j].id {
      assert (a + b)[i] == a[i] && (a + b)[j] == a[j];
    }
    forall i, j | 0 <= i < j < |b| ensures b[i].id <= b[j].id {
      assert (a + b)[|a| + i] == b[i] && (a + b)[|a| + j] == b[j];
    }
  }

  lemma {:induction false} AscendingWithout(s: seq<Node>, x: Node)
    requires Ascending(s)
    ensures Ascending(Without(s, x))
  {
    if s != [] {
      var u := s[1..];
      AscendingSplit([], s[0], u);
      assert [] + [s[0]] + u == s;
      AscendingWithout(u, x);
      forall n | n in Without(u, x) ensures s[0].id <= n.id {
        WithoutIn(u, x, n);
      }
      AscendingSplit([], s[0], Without(u, x));
      assert [] + [s[0]] + Without(u, x) == [s[0]] + Without(u, x);
    }
  }

  // ---------- The first node whose key is not below a given one ----------

  // ... going round to the first node of all; null when there is none
  ghost function FirstFrom(s: seq<Node>, k: int): Node? {
    if forall n :: n in s ==> n.id < k then FirstOf(s) else Ceiling(s, k)
  }

  ghost function Ceiling(s: seq<Node>, k: int): Node? {
    if s == [] then null else if k <= s[0].id then s[0] else Ceiling(s[1..], k)
  }

  lemma {:induction false} CeilingBetween(a: seq<Node>, b: seq<Node>, k: int)
    requires AllBelow(a, k) && AtLeast(b, k)
    ensures Ceiling(a + b, k) == FirstOf(b)
  {
    if a == [] {
      assert a + b == b;
      if b != [] {
        assert b[0] in b;
      }
    } else {
      assert (a + b)[1..] == a[1..] + b && a[0] in a;
      CeilingBetween(a[1..], b, k);
    }
  }

  // The search has come to the hole of `ctx`
  ghost predicate Ceiled(ctx: Ctx, k: int) {
    AllBelow(Before(ctx), k) && AtLeast(After(ctx), k)
  }

  lemma CeilingDown(ctx: Ctx, t: Tree, k: int)
    requires t.Bin? && Ascending(Order(Plug(ctx, t))) && Ceiled(ctx, k)
    ensures k <= t.n.id ==> Ceiled(InLeft(ctx, t.n, t.c, t.r), k) && FirstOf(After(InLeft(ctx, t.n, t.c, t.r))) == t.n
    ensures t.n.id < k ==> Ceiled(InRight(ctx, t.n, t.c, t.l), k)
  {
    FocusSplit(ctx, t);
    if k <= t.n.id {
      forall n | n in After(InLeft(ctx, t.n, t.c, t.r)) ensures k <= n.id {
        assert n == t.n || n in Order(t.r) + After(ctx);
      }
    } else {
      forall n | n in Before(InRight(ctx, t.n, t.c, t.l)) ensures n.id < k {
        assert n == t.n || n in Before(ctx) + Order(t.l);
      }
    }
  }

  lemma CeilingEnd(ctx: Ctx, k: int)
    requires Ceiled(ctx, k)
    ensures var s := Order(Plug(ctx, Nil));
      FirstFrom(s, k) == if After(ctx) == [] then FirstOf(s) else After(ctx)[0]
  {
    var a, b := Before(ctx), After(ctx);
    OrderPlug(ctx, Nil);
    assert Order(Plug(ctx, Nil)) == a + b;
    CeilingBetween(a, b, k);
    if b == [] {
      assert a + b == a;
    } else {
      assert b[0] in a + b;
    }
  }

  // A failed search: no node has the key
  lemma FindDown(ctx: Ctx, t: Tree, k: int)
    requires t.Bin? && Ascending(Order(Plug(ctx, t))) && Seeking(ctx, k)
    ensures k < t.n.id ==> Seeking(InLeft(ctx, t.n, t.c, t.r), k)
    ensures t.n.id < k ==> Seeking(InRight(ctx, t.n, t.c, t.l), k)
  {
    FocusSplit(ctx, t);
    if k < t.n.id {
      forall n | n in After(InLeft(ctx, t.n, t.c, t.r)) ensures k < n.id {
        assert n == t.n || n in Order(t.r) + After(ctx);
      }
    } else if t.n.id < k {
      forall n | n in Before(InRight(ctx, t.n, t.c, t.l)) ensures n.id < k {
        assert n == t.n || n in Before(ctx) + Order(t.l);
      }
    }
  }

  // ---------- Stores ----------

  ghost function LeftTurned(m: Memory, x: Node): Memory
    requires x in m && m[x].right != null && m[x].right in m
  {
    var y: Node, p := m[x].right, m[x].parent;
    var b := m[y].left;
    SetParent(SetRight(SetLeft(SetParent(RelinkLeftFirst(SetParent(m, y, p), p, x, y), x, y), y, x), x, b), b, x)
  }

  ghost function RightTurned(m: Memory, y: Node): Memory
    requires y in m && m[y].left != null && m[y].left in m
  {
    var x: Node, p := m[y].left, m[y].parent;
    var b := m[x].right;
    SetParent(SetLeft(SetParent(SetRight(RelinkLeftFirst(SetParent(m, x, p), p, y, x), x, y), y, x), y, b), b, y)
  }

  lemma LeftTurnedCells(m: Memory, x: Node)
    requires CanTurnLeft(m, x)
    ensures TurnedLeft(m, LeftTurned(m, x), x, m[x].right, m[m[x].right].left, m[x].parent)
  {
  }

  lemma RightTurnedCells(m: Memory, y: Node)
    requires CanTurnRight(m, y)
    ensures TurnedRight(m, RightTurned(m, y), y, m[y].left, m[m[y].left].right, m[y].parent)
  {
  }

  // The successor `y` is cut out below `q`; where `q` is the node `x` to be deleted, the child already hangs off `y`
  ghost function CutOut(m: Memory, x: Node, y: Node, q: Node, child: Node?): Memory {
    RelinkLeftFirst(SetParent(m, child, if q == x then y else q), q, y, child)
  }

  // ... and takes the place of `x`
  ghost function TakenOver(m: Memory, x: Node, y: Node, p: Node?): Memory
    requires x in m
  {
    var m1 := RelinkLeftFirst(SetParent(m, y, p), p, x, y);
    var l, r := m[x].left, m[x].right;
    SetColor(SetParent(SetParent(SetLeft(SetRight(m1, y, r), y, l), l, y), r, y), y, m[x].color)
  }

  lemma CutOutReady(m: Memory, x: Node, y: Node, q: Node, child: Node?)
    requires SuccessorLinks(m, x, y, q, child)
    ensures var m1 := CutOut(m, x, y, q, child);
      && m1.Keys == m.Keys && m1[x].parent == m[x].parent && m1[x].color == m[x].color && m1[x].left == m[x].left
      && m1[x].right == if q == x then child else m[x].right
  {
  }

  lemma TakenOverFromRightChild(m: Memory, x: Node, y: Node, child: Node?)
    requires Apart(m, x, y, x, child) && m[x].right == y
    ensures Superseded(Spliced(m, x, y, child), TakenOver(CutOut(m, x, y, x, child), x, y, m[x].parent), x, y)
  {
    CutOutReady(m, x, y, x, child);
  }

  lemma TakenOverFromBelow(m: Memory, x: Node, y: Node, q: Node, child: Node?)
    requires Apart(m, x, y, q, child) && q != x && m[x].right != y && m[q].left == y && child != m[x].right
    ensures Superseded(Spliced(m, q, y, child), TakenOver(CutOut(m, x, y, q, child), x, y, m[x].parent), x, y)
  {
    CutOutReady(m, x, y, q, child);
  }

  // After both, the focus is where the successor was, below the successor itself
  lemma TakenOverState(m: Memory, top: Node?, ctx: Ctx, t: Tree, inner: Ctx, s: Tree)
    requires State(m, top, ctx, t) && HasSuccessor(t, inner, s)
    ensures var q := Par(SuccessorCtx(ctx, t, t.n, inner));
      && q != null && t.n in m && SuccessorLinks(m, t.n, s.n, q, Ptr(s.r))
      && State(TakenOver(CutOut(m, t.n, s.n, q, Ptr(s.r)), t.n, s.n, Par(ctx)), NewTop(top, Par(ctx), s.n),
        SuccessorCtx(ctx, t, s.n, inner), s.r)
    ensures Par(SuccessorCtx(ctx, t, s.n, inner)) ==
      if Par(SuccessorCtx(ctx, t, t.n, inner)) == t.n then s.n else Par(SuccessorCtx(ctx, t, t.n, inner))
  {
    var q := Par(SuccessorCtx(ctx, t, t.n, inner));
    SuccessorCells(m, top, ctx, t, inner, s);
    NodesPlug(inner, s);
    UnderParent(inner, InRight(ctx, t.n, t.c, t.l));
    assert !inner.Top? ==> inner.n in Nodes(t.r);
    var child := Ptr(s.r);
    var m' := TakenOver(CutOut(m, t.n, s.n, q, child), t.n, s.n, Par(ctx));
    if q == t.n {
      TakenOverFromRightChild(m, t.n, s.n, child);
    } else {
      TakenOverFromBelow(m, t.n, s.n, q, child);
    }
    SuccessorTakenOver(m, m', top, ctx, t, inner, s);
  }

  lemma SuccessorTakenOver(m: Memory, m': Memory, top: Node?, ctx: Ctx, t: Tree, inner: Ctx, s: Tree)
    requires State(m, top, ctx, t) && HasSuccessor(t, inner, s)
    requires var q := Par(SuccessorCtx(ctx, t, t.n, inner));
      q != null && Superseded(Spliced(m, q, s.n, Ptr(s.r)), m', t.n, s.n)
    ensures State(m', NewTop(top, Par(ctx), s.n), SuccessorCtx(ctx, t, s.n, inner), s.r)
    ensures Par(SuccessorCtx(ctx, t, s.n, inner)) == if inner.Top? then s.n else Par(SuccessorCtx(ctx, t, t.n, inner))
  {
    var q := Par(SuccessorCtx(ctx, t, t.n, inner));
    var u := t.(r := Plug(inner, s.r));
    var top' := NewTop(top, Par(ctx), s.n);
    SuccessorOut(m, top, ctx, t, inner, s);
    SupersededState(Spliced(m, q, s.n, Ptr(s.r)), m', top, ctx, u, s.n);
    var base := InRight(ctx, s.n, t.c, t.l);
    StepUp(m', top', base, u.r);
    ZipUnder(m', top', inner, base, s.r);
    UnderParent(inner, base);
    UnderParent(inner, InRight(ctx, t.n, t.c, t.l));
  }

  // The root pointer leads to a node without a parent in the tree
  lemma TopCell(m: Memory, top: Node?, ctx: Ctx, t: Tree)
    requires State(m, top, ctx, t) && top != null
    ensures top in m && m[top].parent == null
    ensures t.Bin? ==> (t.n == top <==> ctx.Top?) && t.n in m && m[t.n].parent == Par(ctx)
  {
    ZipUp(m, top, ctx, t);
    TopIsAbove(m, top, ctx, t);
  }

  // A root with at most one child is gone: the child is a red leaf, and turns black
  lemma RootOut(m: Memory, top: Node?, t: Tree)
    requires State(m, top, Top, t) && t.Bin? && (t.l.Nil? || t.r.Nil?) && RedBlack(t)
    ensures var u := OnlyChild(t);
      && RedBlack(Blackened(u)) && Order(Blackened(u)) == Without(Order(t), t.n)
      && (u.Bin? ==> u.n in m && u.n != t.n)
      && State(SetColor(SetParent(m, Ptr(u), null), Ptr(u), Black), Ptr(u), Top, Blackened(u))
  {
    var u := OnlyChild(t);
    SplicedState(m, top, Top, t);
    OrderOut(Top, t);
    assert Around(Top, u) == Order(u);
    BlackenedIsRedBlack(u);
    if u.Bin? {
      Painted(SetParent(m, u.n, null), u.n, Top, u, Black);
    }
  }

  lemma BlackenedIsRedBlack(u: Tree)
    requires Good(u)
    ensures RedBlack(Blackened(u)) && Order(Blackened(u)) == Order(u)
  {
  }
  // Such a root has no other node below it than that leaf
  lemma SmallRoot(t: Tree)
    requires t.Bin? && (t.l.Nil? || t.r.Nil?) && RedBlack(t)
    ensures var u := OnlyChild(t);
      Nodes(t) == {t.n} + (if u.Bin? then {u.n} else {}) && (u.Bin? ==> u.l.Nil? && u.r.Nil?)
  {
    var u := OnlyChild(t);
    assert BlackHeight(u) == 0 && Good(u);
    if u.Bin? {
      assert BlackHeight(u) == BlackHeight(u.l) + Weight(u.c);
      assert u.c == Red && BlackHeight(u.r) == 0;
      assert Good(u.l) && Good(u.r);
    }
  }

  // The node taken out is nobody's parent
  lemma NobodysParentIn(m: Memory, top: Node?, ctx: Ctx, u: Tree, x: Node)
    requires State(m, top, ctx, u) && m.Keys == Nodes(Plug(ctx, u)) + {x} && x !in Nodes(Plug(ctx, u))
    ensures forall n {:trigger m[n]} :: n in m && n != x ==> m[n].parent != x
    ensures State(m - {x}, top, ctx, u)
  {
    NodesPlug(ctx, u);
    ZipUp(m, top, ctx, u);
    forall n {:trigger m[n]} | n in m && n != x ensures m[n].parent != x {
      var c, s := Locate(Top, Plug(ctx, u), n);
      ZipUp(m, top, c, s);
      NodesPlug(c, s);
    }
    FrameState(m, m - {x}, top, ctx, u);
  }
}
