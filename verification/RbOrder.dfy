/**
  Walking, searching and extending the in-order sequence.
 */
module RbOrder {
  import opened Common
  import opened RbShape
  import opened RbMemory
  import opened RbBalance
  import opened RbUnlink

  ghost function At(s: seq<Node>, i: int): Node? { if 0 <= i < |s| then s[i] else null }

  // The neighbour of `x` in a sequence that lists it once, or null at the ends
  ghost predicate IsNext(s: seq<Node>, x: Node, r: Node?) {
    forall i :: 0 <= i < |s| && s[i] == x ==> r == At(s, i + 1)
  }
  ghost predicate IsPrev(s: seq<Node>, x: Node, r: Node?) {
    forall i :: 0 <= i < |s| && s[i] == x ==> r == At(s, i - 1)
  }
  ghost function FirstOf(s: seq<Node>): Node? { if s == [] then null else s[0] }
  ghost function LastOf(s: seq<Node>): Node? { if s == [] then null else s[|s| - 1] }

  lemma NeighboursAt(a: seq<Node>, x: Node, b: seq<Node>)
    requires NoDup(a + [x] + b)
    ensures IsNext(a + [x] + b, x, FirstOf(b)) && IsPrev(a + [x] + b, x, LastOf(a))
  {
    var s := a + [x] + b;
    assert s[|a|] == x;
    forall i | 0 <= i < |s| && s[i] == x ensures i == |a| {
    }
    if b != [] {
      assert s[|a| + 1] == b[0];
    }
    if a != [] {
      assert s[|a| - 1] == a[|a| - 1];
    }
  }

  // The two neighbours are inverse to each other
  lemma NextPrev(s: seq<Node>, x: Node, y: Node)
    requires NoDup(s) && x in s && y in s
    ensures IsNext(s, x, y) <==> IsPrev(s, y, x)
  {
    var i :| 0 <= i < |s| && s[i] == x;
    var j :| 0 <= j < |s| && s[j] == y;
    assert forall k :: 0 <= k < |s| && s[k] == x ==> k == i;
    assert forall k :: 0 <= k < |s| && s[k] == y ==> k == j;
    if IsNext(s, x, y) {
      assert s[i] == x;
      assert i + 1 < |s|;
      assert y == s[i + 1] && j == i + 1;
    }
    if IsPrev(s, y, x) {
      assert x == s[j - 1] && i == j - 1;
    }
  }

  lemma OrderFocus(ctx: Ctx, t: Tree)
    requires t.Bin?
    ensures Order(Plug(ctx, t)) == Before(ctx) + Order(t.l) + [t.n] + (Order(t.r) + After(ctx))
  {
    OrderPlug(ctx, t);
    Centered(Before(ctx), Order(t.l), t.n, Order(t.r), After(ctx));
  }

  lemma AroundFocus(ctx: Ctx, t: Tree, u: Tree)
    requires t.Bin? && u == Plug(ctx, t) && Uniq(u)
    ensures IsNext(Order(u), t.n, FirstOf(Order(t.r) + After(ctx)))
    ensures IsPrev(Order(u), t.n, LastOf(Before(ctx) + Order(t.l)))
  {
    OrderFocus(ctx, t);
    OrderNoDup(u);
    NeighboursAt(Before(ctx) + Order(t.l), t.n, Order(t.r) + After(ctx));
  }

  // A node is not the root of the tree beside it
  lemma BesideDiffers(ctx: Ctx, t: Tree)
    requires t.Bin? && Nodes(t) !! CtxNodes(ctx)
    ensures Beside(ctx).Bin? ==> Beside(ctx).n != t.n
  {
    assert t.n in Nodes(t);
    assert Beside(ctx).Bin? ==> Beside(ctx).n in Nodes(Beside(ctx));
  }

  ghost function Renamed(s: seq<Node>, x: Node, y: Node): (r: seq<Node>)
    ensures |r| == |s| && forall i :: 0 <= i < |s| ==> r[i] == if s[i] == x then y else s[i]
  {
    if s == [] then [] else [if s[0] == x then y else s[0]] + Renamed(s[1..], x, y)
  }

  // The stores that put `y` in the place of `x`
  ghost function Replaced(m: Memory, x: Node, y: Node): Memory
    requires x in m
  {
    var m1 := SetParent(SetParent(RelinkLeftFirst(m, m[x].parent, x, y), m[x].left, y), m[x].right, y);
    m1[y := m[x]]
  }

  lemma ReplaceReady(m: Memory, top: Node?, ctx: Ctx, t: Tree)
    requires State(m, top, ctx, t) && t.Bin?
    ensures t.n in m && m[t.n] == Cell(Par(ctx), t.c, Ptr(t.l), Ptr(t.r))
    ensures t.l.Bin? ==> t.l.n in m && t.l.n != t.n && t.l.n != Par(ctx) && t.l.n != Ptr(t.r)
    ensures t.r.Bin? ==> t.r.n in m && t.r.n != t.n && t.r.n != Par(ctx)
    ensures !ctx.Top? ==> ctx.n in m && ctx.n != t.n
  {
    assert Rep(m, t.l, t.n) && Rep(m, t.r, t.n);
    assert t.l.Bin? ==> t.l.n in Nodes(t.l);
    assert t.r.Bin? ==> t.r.n in Nodes(t.r);
    assert !ctx.Top? ==> ctx.n in CtxNodes(ctx);
  }

  lemma ReplacedState(m: Memory, top: Node?, ctx: Ctx, t: Tree, y: Node)
    requires State(m, top, ctx, t) && t.Bin? && y !in m
    ensures State(Replaced(m, t.n, y), NewTop(top, Par(ctx), y), ctx, t.(n := y))
  {
    ReplaceReady(m, top, ctx, t);
    InMemory(m, t, Par(ctx));
    InMemoryCtx(m, ctx, t.n, top);
    SupersededState(m, Replaced(m, t.n, y), top, ctx, t, y);
  }

  lemma ReplacedWhole(m: Memory, top: Node?, t: Tree, x: Node, y: Node) returns (u: Tree)
    requires State(m, top, Top, t) && RedBlack(t) && x in Nodes(t) && m.Keys == Nodes(t) && y !in m
    ensures State(Replaced(m, x, y), NewTop(top, m[x].parent, y), Top, u) && RedBlack(u)
    ensures Order(u) == Renamed(Order(t), x, y) && Nodes(u) == Nodes(t) - {x} + {y}
    ensures m[x].left != null ==> m[x].left in m && m[x].left != x
    ensures m[x].right != null ==> m[x].right in m && m[x].right != x
    ensures m[x].parent != null ==> m[x].parent in m && m[x].parent != x
  {
    var ctx, v := Focus(m, top, t, x);
    ReplacedState(m, top, ctx, v, y);
    ReplacedShape(ctx, v, y);
    ReplacedRedBlack(ctx, v, y);
    ReplaceReady(m, top, ctx, v);
    ZipUp(Replaced(m, x, y), NewTop(top, Par(ctx), y), ctx, v.(n := y));
    u := Plug(ctx, v.(n := y));
  }

  lemma ReplacedRedBlack(ctx: Ctx, t: Tree, y: Node)
    requires t.Bin? && RedBlack(Plug(ctx, t))
    ensures RedBlack(Plug(ctx, t.(n := y)))
  {
    PlugRedBlack(ctx, t);
    PlugRedBlack(ctx, t.(n := y));
  }

  lemma ReplacedShape(ctx: Ctx, t: Tree, y: Node)
    requires t.Bin? && Uniq(Plug(ctx, t)) && y !in Nodes(Plug(ctx, t))
    ensures var u := Plug(ctx, t.(n := y));
      && Order(u) == Renamed(Order(Plug(ctx, t)), t.n, y)
      && Nodes(u) == Nodes(Plug(ctx, t)) - {t.n} + {y}
  {
    RenamedOrder(ctx, t, y);
    InOrder(Plug(ctx, t), y);
    RenamedNodes(Plug(ctx, t.(n := y)), Plug(ctx, t), t.n, y);
  }

  lemma RenamedOrder(ctx: Ctx, t: Tree, y: Node)
    requires t.Bin? && Uniq(Plug(ctx, t))
    ensures Order(Plug(ctx, t.(n := y))) == Renamed(Order(Plug(ctx, t)), t.n, y)
    ensures t.n in Order(Plug(ctx, t))
  {
    OrderFocus(ctx, t);
    OrderFocus(ctx, t.(n := y));
    OrderNoDup(Plug(ctx, t));
    RenamedOne(Before(ctx) + Order(t.l), t.n, y, Order(t.r) + After(ctx));
  }

  lemma RenamedOne(a: seq<Node>, x: Node, y: Node, b: seq<Node>)
    requires NoDup(a + [x] + b)
    ensures a + [y] + b == Renamed(a + [x] + b, x, y) && x in a + [x] + b
  {
    var s := a + [x] + b;
    assert s[|a|] == x;
    assert forall i :: 0 <= i < |s| && s[i] == x ==> i == |a|;
  }

  lemma RenamedNode(u: Tree, t: Tree, x: Node, y: Node, z: Node)
    requires Order(u) == Renamed(Order(t), x, y) && x in Order(t) && y !in Order(t)
    ensures z in Nodes(u) <==> z in Nodes(t) - {x} + {y}
  {
    InOrder(u, z);
    InOrder(t, z);
    RenamedIn(Order(t), x, y, z);
  }

  lemma {:induction false} RenamedIn(s: seq<Node>, x: Node, y: Node, z: Node)
    requires x != y
    ensures z in Renamed(s, x, y) <==> (z in s && z != x) || (z == y && x in s)
  {
    if s != [] {
      RenamedIn(s[1..], x, y, z);
      assert s == [s[0]] + s[1..];
    }
  }

  lemma RenamedNodes(u: Tree, t: Tree, x: Node, y: Node)
    requires Order(u) == Renamed(Order(t), x, y) && x in Order(t) && y !in Order(t)
    ensures Nodes(u) == Nodes(t) - {x} + {y}
  {
    forall z | z in Nodes(u) ensures z in Nodes(t) - {x} + {y} {
      RenamedNode(u, t, x, y, z);
    }
    forall z | z in Nodes(t) - {x} + {y} ensures z in Nodes(u) {
      RenamedNode(u, t, x, y, z);
    }
  }

  // The same memory with a red leaf linked at the hole
  ghost function Linked(m: Memory, ctx: Ctx, x: Node): Memory {
    var m1 := m[x := Cell(Par(ctx), Red, null, null)];
    match ctx
    case Top => m1
    case InLeft(_, p, _, _) => SetLeft(m1, p, x)
    case InRight(_, p, _, _) => SetRight(m1, p, x)
  }

  lemma LinkedState(m: Memory, top: Node?, ctx: Ctx, x: Node)
    requires State(m, top, ctx, Nil) && x !in CtxNodes(ctx)
    ensures State(Linked(m, ctx, x), NewTop(top, Par(ctx), x), ctx, Bin(Nil, x, Red, Nil))
    ensures Par(ctx) != null ==> Par(ctx) in m && Par(ctx) != x
  {
    if !ctx.Top? {
      FrameCtx(m, Linked(m, ctx, x), ctx.up, ctx.n, top);
      Frame(m, Linked(m, ctx, x), Beside(ctx), ctx.n);
    }
  }

  // ---------- Keys ----------

  ghost predicate Sorted(s: seq<Node>) {
    forall i, j :: 0 <= i < j < |s| ==> s[i].id < s[j].id
  }

  ghost predicate AllBelow(s: seq<Node>, k: int) { forall n :: n in s ==> n.id < k }
  ghost predicate AllAbove(s: seq<Node>, k: int) { forall n :: n in s ==> k < n.id }

  lemma SortedSplit(a: seq<Node>, x: Node, b: seq<Node>)
    ensures Sorted(a + [x] + b) <==> Sorted(a) && Sorted(b) && AllBelow(a, x.id) && AllAbove(b, x.id)
  {
    var s := a + [x] + b;
    if Sorted(s) {
      assert s[|a|] == x;
      forall i, j | 0 <= i < j < |a| ensures a[i].id < a[j].id {
        assert s[i] == a[i] && s[j] == a[j];
      }
      forall i, j | 0 <= i < j < |b| ensures b[i].id < b[j].id {
        assert s[|a| + 1 + i] == b[i] && s[|a| + 1 + j] == b[j];
      }
      forall n | n in a ensures n.id < x.id {
        var i :| 0 <= i < |a| && a[i] == n;
        assert s[i] == n;
      }
      forall n | n in b ensures x.id < n.id {
        var i :| 0 <= i < |b| && b[i] == n;
        assert s[|a| + 1 + i] == n;
      }
    }
    if Sorted(a) && Sorted(b) && AllBelow(a, x.id) && AllAbove(b, x.id) {
      forall i, j | 0 <= i < j < |s| ensures s[i].id < s[j].id {
        if i < |a| {
          assert s[i] in a;
        }
        if |a| < j {
          assert s[j] in b;
        }
      }
    }
  }

  lemma Centered<T>(b: seq<T>, l: seq<T>, x: T, r: seq<T>, a: seq<T>)
    ensures b + (l + [x] + r) + a == b + l + [x] + (r + a)
    ensures [x] + r + a == [x] + (r + a)
  {
  }

  // A search for key `k` has come to the hole of `ctx`
  ghost predicate Seeking(ctx: Ctx, k: int) {
    AllBelow(Before(ctx), k) && AllAbove(After(ctx), k)
  }

  lemma SeekLeft(ctx: Ctx, t: Tree, k: int)
    requires t.Bin? && Sorted(Around(ctx, t)) && Seeking(ctx, k) && k < t.n.id
    ensures Seeking(InLeft(ctx, t.n, t.c, t.r), k)
  {
    var a, b := Before(ctx) + Order(t.l), Order(t.r) + After(ctx);
    Centered(Before(ctx), Order(t.l), t.n, Order(t.r), After(ctx));
    SortedSplit(a, t.n, b);
  }

  lemma SeekRight(ctx: Ctx, t: Tree, k: int)
    requires t.Bin? && Sorted(Around(ctx, t)) && Seeking(ctx, k) && t.n.id < k
    ensures Seeking(InRight(ctx, t.n, t.c, t.l), k)
  {
    var a, b := Before(ctx) + Order(t.l), Order(t.r) + After(ctx);
    Centered(Before(ctx), Order(t.l), t.n, Order(t.r), After(ctx));
    SortedSplit(a, t.n, b);
  }

  lemma SeekDown(ctx: Ctx, t: Tree, k: int)
    requires t.Bin? && Sorted(Order(Plug(ctx, t))) && Seeking(ctx, k)
    ensures k < t.n.id ==> Seeking(InLeft(ctx, t.n, t.c, t.r), k)
    ensures t.n.id < k ==> Seeking(InRight(ctx, t.n, t.c, t.l), k)
  {
    OrderPlug(ctx, t);
    if k < t.n.id {
      SeekLeft(ctx, t, k);
    }
    if t.n.id < k {
      SeekRight(ctx, t, k);
    }
  }

  lemma SeekFailed(ctx: Ctx, k: int)
    requires Seeking(ctx, k)
    ensures Around(ctx, Nil) == Order(Plug(ctx, Nil))
    ensures forall n :: n in Nodes(Plug(ctx, Nil)) ==> n.id != k
  {
    OrderPlug(ctx, Nil);
    forall n | n in Nodes(Plug(ctx, Nil)) ensures n.id != k {
      InOrder(Plug(ctx, Nil), n);
      assert n in Before(ctx) || n in After(ctx);
    }
  }

  // In a sorted tree a key belongs to one node
  lemma OnlyOne(t: Tree, x: Node)
    requires Sorted(Order(t)) && x in Nodes(t)
    ensures forall n :: n in Nodes(t) && n.id == x.id ==> n == x
  {
    InOrder(t, x);
    forall n | n in Nodes(t) && n.id == x.id ensures n == x {
      InOrder(t, n);
    }
  }

  lemma NodesWithoutAny(t: Tree, x: Node)
    ensures forall u :: Order(u) == Without(Order(t), x) ==> Nodes(u) == Nodes(t) - {x}
  {
    forall u | Order(u) == Without(Order(t), x) ensures Nodes(u) == Nodes(t) - {x} {
      NodesWithout(t, u, x);
    }
  }

  // The search found nothing: linking a node with that key here keeps the order
  lemma SeekEnd(ctx: Ctx, x: Node)
    requires Sorted(Around(ctx, Nil)) && Seeking(ctx, x.id)
    ensures Sorted(Before(ctx) + [x] + After(ctx))
    ensures forall n :: n in Around(ctx, Nil) ==> n.id != x.id
  {
    var a, b := Before(ctx), After(ctx);
    assert Around(ctx, Nil) == a + b;
    forall i, j | 0 <= i < j < |a| ensures a[i].id < a[j].id {
      assert (a + b)[i] == a[i] && (a + b)[j] == a[j];
    }
    forall i, j | 0 <= i < j < |b| ensures b[i].id < b[j].id {
      assert (a + b)[|a| + i] == b[i] && (a + b)[|a| + j] == b[j];
    }
    SortedSplit(a, x, b);
  }

  lemma {:induction false} SortedWithout(s: seq<Node>, x: Node)
    requires Sorted(s)
    ensures Sorted(Without(s, x))
  {
    if s != [] {
      var u := s[1..];
      SortedSplit([], s[0], u);
      assert [] + [s[0]] + u == s;
      SortedWithout(u, x);
      forall n | n in Without(u, x) ensures s[0].id < n.id {
        WithoutIn(u, x, n);
      }
      SortedSplit([], s[0], Without(u, x));
      assert [] + [s[0]] + Without(u, x) == [s[0]] + Without(u, x);
    }
  }

  // The red leaf has its place in the order
  lemma LinkedOrder(ctx: Ctx, x: Node, u: Tree, t: Tree)
    requires t == Plug(ctx, Nil) && Order(u) == Before(ctx) + [x] + After(ctx)
    ensures Order(t) == Before(ctx) + After(ctx) && Nodes(u) == Nodes(t) + {x}
  {
    OrderPlug(ctx, Nil);
    assert Order(t) == Before(ctx) + After(ctx);
    forall z | z in Nodes(u) ensures z in Nodes(t) + {x} {
      InOrder(u, z);
      InOrder(t, z);
    }
    forall z | z in Nodes(t) + {x} ensures z in Nodes(u) {
      InOrder(u, z);
      InOrder(t, z);
    }
  }

  // ---------- Size ----------

  ghost function Max(a: nat, b: nat): nat { if a < b then b else a }
  ghost function Height(t: Tree): nat { if t.Nil? then 0 else 1 + Max(Height(t.l), Height(t.r)) }

  lemma {:induction false} ManyNodes(t: Tree)
    requires Good(t)
    ensures Pow2(BlackHeight(t)) <= |Order(t)| + 1
  {
    if t.Bin? {
      ManyNodes(t.l);
      ManyNodes(t.r);
    }
  }

  lemma {:induction false} FewLevels(t: Tree)
    requires Good(t)
    ensures Height(t) <= 2 * BlackHeight(t) + if IsRed(t) then 1 else 0
  {
    if t.Bin? {
      FewLevels(t.l);
      FewLevels(t.r);
    }
  }

  ghost function Shortest(t: Tree): nat {
    if t.Nil? then 0 else 1 + if Shortest(t.l) < Shortest(t.r) then Shortest(t.l) else Shortest(t.r)
  }

  lemma {:induction false} ManyLevels(t: Tree)
    requires Good(t)
    ensures BlackHeight(t) <= Shortest(t)
  {
    if t.Bin? {
      ManyLevels(t.l);
      ManyLevels(t.r);
    }
  }

  // The longest way down is at most twice as long as the shortest
  lemma TwiceShortest(t: Tree)
    requires RedBlack(t)
    ensures Height(t) <= 2 * Shortest(t)
  {
    FewLevels(t);
    ManyLevels(t);
  }

  // A red-black tree with n nodes has at most 2 * log2(n + 1) levels
  lemma Shallow(t: Tree)
    requires RedBlack(t)
    ensures Pow2((Height(t) + 1) / 2) <= |Order(t)| + 1
  {
    ManyNodes(t);
    FewLevels(t);
    Pow2Grows((Height(t) + 1) / 2, BlackHeight(t));
  }
}
