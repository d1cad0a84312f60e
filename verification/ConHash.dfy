/**
  libconhash/conhash.c and conhash_inter.c: servers on a ring of virtual nodes, kept in the
  tree of util_rbtree.c.  The hash function is whatever the caller supplies.
 */
module ConHash {
  import opened Common
  import opened RbShape
  import opened RbUnlink
  import opened RbOrder
  import opened UtilRbtreeOrder
  import opened UtilRbtree
  import opened HashRing
  import opened ReplicaNames

  const FLAG_INIT: bv32 := 1
  const FLAG_IN: bv32 := 2

  // The 64 characters of a name
  type NameBytes = s: seq<char> | |s| == 64 witness seq(64, _ => '\0')

  // strncpy: the string, cut or filled up with NULs
  function StrNCpy(s: string, n: nat): (r: string)
    ensures |r| == n
  {
    if |s| < n then s + seq(n - |s|, _ => '\0') else s[..n]
  }

  // The C string in a buffer: its characters up to the first NUL
  lemma {:induction false} CStrIs(s: string, x: string)
    requires x <= s && NulFree(x) && (|x| == |s| || s[|x|] == '\0')
    ensures CStr(s) == x
  {
    if x != "" {
      assert s[0] == x[0];
      CStrIs(s[1..], x[1..]);
      assert x == [x[0]] + x[1..];
    }
  }

  lemma NameOfCopy(s: string, n: nat, last: char)
    requires NulFree(s)
    ensures CStr(StrNCpy(s, n) + [last]) == if |s| < n then s else if last == '\0' then s[..n] else s[..n] + [last]
    ensures NulFree(StrNCpy(s, n) + [last]) <==> |s| >= n && last != '\0'
  {
    var r := StrNCpy(s, n) + [last];
    var name := if |s| < n then s else if last == '\0' then s[..n] else s[..n] + [last];
    assert |name| < |r| ==> r[|name|] == '\0';
    assert |name| == |r| ==> r == name;
    CStrIs(r, name);
  }

  // struct node_s
  class Server {
    var iden: NameBytes
    var replicas: nat
    var flag: bv32

    // Memory for a server, with what happens to be in it
    constructor (iden: NameBytes, replicas: nat, flag: bv32) {
      this.iden, this.replicas, this.flag := iden, replicas, flag;
    }

    // The name as a C string; all 64 characters when no NUL is among them
    function Name(): string reads this`iden { CStr(iden) }

    ghost predicate Ready() reads this { flag & FLAG_INIT != 0 && flag & FLAG_IN == 0 }
    ghost predicate In() reads this { flag & FLAG_INIT != 0 && flag & FLAG_IN != 0 }

    /** conhash_set_node: the last character of the name is left as it was, and ends the name if it was a NUL. */
    method SetNode(name: string, replica: nat)
      requires NulFree(name)
      modifies this
      ensures iden == StrNCpy(name, 63) + [old(iden)[63]] && replicas == replica && Ready()
      ensures |name| < 63 || old(iden)[63] == '\0' ==> Name() == if |name| <= 63 then name else name[..63]
      ensures |name| < 63 || old(iden)[63] == '\0' <==> !NulFree(iden)
    {
      hide CStr, StrNCpy, NulFree;
      NameOfCopy(name, 63, iden[63]);
      iden := StrNCpy(name, 63) + [iden[63]];
      replicas := replica;
      flag := FLAG_INIT;
    }
  }

  // struct virtual_node_s
  class VirtualNode {
    const hash: Long
    const node: Server

    constructor (hash: Long, node: Server)
      ensures this.hash == hash && this.node == node
    {
      this.hash, this.node := hash, node;
    }
  }

  lemma AddedPoint<S>(ring: map<Long, S>, points: seq<Long>, h: Long, s: S)
    ensures Added(ring, points + [h], s) == (var r := Added(ring, points, s); if h in r then r else r[h := s])
  {
    assert (points + [h])[..|points|] == points;
  }

  lemma RemovedPoint<S>(ring: map<Long, S>, points: seq<Long>, h: Long, s: S)
    ensures Removed(ring, points + [h], s)
      == (var r := Removed(ring, points, s); if h in r && r[h] == s then r - {h} else r)
  {
    assert (points + [h])[..|points|] == points;
  }

  // ---------- The ring a sequence of tree nodes stands for ----------

  ghost predicate IsVnode(n: Node) {
    n.data is VirtualNode && (n.data as VirtualNode).hash == n.id
  }

  ghost function Vnode(n: Node): VirtualNode
    requires IsVnode(n)
  {
    n.data as VirtualNode
  }

  // Virtual nodes in strictly ascending order of their hash values
  ghost predicate IsRing(s: seq<Node>) {
    Sorted(s) && forall n :: n in s ==> IsVnode(n)
  }

  ghost function RingOf(s: seq<Node>): map<Long, Server>
    requires IsRing(s)
  {
    map n | n in s :: Vnode(n).hash := Vnode(n).node
  }

  lemma RingAt(s: seq<Node>, n: Node)
    requires IsRing(s) && n in s
    ensures Vnode(n).hash in RingOf(s) && RingOf(s)[Vnode(n).hash] == Vnode(n).node
  {
  }

  lemma RingFrom(s: seq<Node>, k: Long) returns (n: Node)
    requires IsRing(s) && k in RingOf(s)
    ensures n in s && IsVnode(n) && Vnode(n).hash == k
  {
    n :| n in s && Vnode(n).hash == k;
  }

  lemma NoRing()
    ensures RingOf([]) == map[]
  {
  }

  lemma {:induction false} RingSize(s: seq<Node>)
    requires IsRing(s)
    ensures |RingOf(s)| == |s|
  {
    hide RingOf;
    if s == [] {
      NoRing();
    } else {
      var u := s[1..];
      SortedSplit([], s[0], u);
      assert [] + [s[0]] + u == s;
      forall n | n in u ensures IsVnode(n) {
      }
      RingSize(u);
      RingInsert(u, s, s[0]);
    }
  }

  lemma RingInsert(s: seq<Node>, s': seq<Node>, x: Node)
    requires IsRing(s) && IsRing(s') && IsVnode(x)
    requires forall n :: n in s' <==> n in s || n == x
    requires forall n :: n in s ==> n.id != x.id
    ensures RingOf(s') == RingOf(s)[Vnode(x).hash := Vnode(x).node] && Vnode(x).hash !in RingOf(s)
  {
    var r, r' := RingOf(s), RingOf(s')[Vnode(x).hash := Vnode(x).node];
    RingAt(s', x);
    forall k | k in RingOf(s') ensures k in r[Vnode(x).hash := Vnode(x).node] &&
      RingOf(s')[k] == r[Vnode(x).hash := Vnode(x).node][k] {
      var n := RingFrom(s', k);
      RingAt(s', n);
      if n != x {
        RingAt(s, n);
      }
    }
    forall k | k in r ensures k in RingOf(s') && k != Vnode(x).hash {
      var n := RingFrom(s, k);
      RingAt(s', n);
    }
  }

  lemma RingDelete(s: seq<Node>, s': seq<Node>, x: Node)
    requires IsRing(s) && x in s && s' == Without(s, x)
    ensures IsRing(s') && RingOf(s') == RingOf(s) - {Vnode(x).hash}
  {
    hide Without;
    SortedWithout(s, x);
    forall n ensures n in s' <==> n in s && n != x {
      WithoutIn(s, x, n);
    }
    OthersDiffer(s, x);
    RingInsert(s', s, x);
  }

  lemma OthersDiffer(s: seq<Node>, x: Node)
    requires Sorted(s) && x in s
    ensures forall n :: n in s && n != x ==> n.id != x.id
  {
    forall n | n in s && n != x ensures n.id != x.id {
      if n.id == x.id {
        SameId(s, n, x);
      }
    }
  }

  lemma SameId(s: seq<Node>, m: Node, n: Node)
    requires Sorted(s) && m in s && n in s && m.id == n.id
    ensures m == n
  {
  }

  lemma {:induction false} PlacedIn(s: seq<Node>, x: Node, n: Node)
    ensures n in Placed(s, x) <==> n in s || n == x
  {
    if s != [] && s[0].id <= x.id {
      PlacedIn(s[1..], x, n);
      assert s == [s[0]] + s[1..];
    }
  }

  lemma {:induction false} PlacedSize(s: seq<Node>, x: Node)
    ensures |Placed(s, x)| == |s| + 1
  {
    if s != [] && s[0].id <= x.id {
      PlacedSize(s[1..], x);
    }
  }

  lemma NothingSorted()
    ensures Sorted([])
  {
  }

  lemma PlacedSorted(s: seq<Node>, x: Node)
    requires Sorted(s) && forall n :: n in s ==> n.id != x.id
    ensures Sorted(Placed(s, x))
    decreases |s|
  {
    hide Sorted;
    if s == [] || x.id < s[0].id {
      NothingSorted();
      if s != [] {
        SortedSplit([], s[0], s[1..]);
        assert [] + [s[0]] + s[1..] == s;
      }
      forall n | n in s ensures x.id < n.id {
        assert n == s[0] || n in s[1..];
      }
      SortedSplit([], x, s);
      assert [] + [x] + s == [x] + s;
    } else {
      var u := s[1..];
      SortedSplit([], s[0], u);
      assert [] + [s[0]] + u == s;
      PlacedSorted(u, x);
      forall n | n in Placed(u, x) ensures s[0].id < n.id {
        PlacedIn(u, x, n);
      }
      SortedSplit([], s[0], Placed(u, x));
      assert [] + [s[0]] + Placed(u, x) == Placed(s, x);
    }
  }

  lemma RingPlaced(s: seq<Node>, x: Node)
    requires IsRing(s) && IsVnode(x) && forall n :: n in s ==> n.id != x.id
    ensures IsRing(Placed(s, x))
    ensures RingOf(Placed(s, x)) == RingOf(s)[Vnode(x).hash := Vnode(x).node] && Vnode(x).hash !in RingOf(s)
  {
    PlacedSorted(s, x);
    forall n ensures n in Placed(s, x) <==> n in s || n == x {
      PlacedIn(s, x, n);
    }
    assert forall n :: n in Placed(s, x) ==> IsVnode(n);
    RingInsert(s, Placed(s, x), x);
  }

  lemma {:induction false} CeilingIs(s: seq<Node>, k: int)
    requires Sorted(s) && exists n :: n in s && k <= n.id
    ensures var r := Ceiling(s, k); r != null && r in s && k <= r.id && forall n :: n in s && k <= n.id ==> r.id <= n.id
  {
    hide Sorted;
    var u := s[1..];
    SortedSplit([], s[0], u);
    assert [] + [s[0]] + u == s;
    assert forall n :: n in s <==> n == s[0] || n in u;
    if s[0].id < k {
      CeilingIs(u, k);
    }
  }

  // What the tree finds for a hash value is the point that serves it
  lemma LookupServes(s: seq<Node>, h: Long)
    requires IsRing(s) && s != []
    ensures var r := FirstFrom(s, h); r != null && r in s && IsVnode(r) && Serves(RingOf(s), h, Vnode(r).node)
  {
    var r: Node;
    if forall n :: n in s ==> n.id < h {
      r := s[0];
      assert r in s;
    } else {
      CeilingIs(s, h);
      r := Ceiling(s, h);
    }
    RingAt(s, r);
    forall j | j in RingOf(s) ensures if h <= r.id then (h <= j ==> r.id <= j) else r.id <= j < h {
      var n := RingFrom(s, j);
    }
    assert IsPoint(RingOf(s), h, Vnode(r).hash);
  }

  lemma SearchedFor(s: seq<Node>, t: Tree, h: Long, found: Node?)
    requires IsRing(s) && s == Order(t)
    requires found != null ==> found in Nodes(t) && found.id == h
    requires found == null ==> forall n :: n in Nodes(t) ==> n.id != h
    ensures found == null <==> h !in RingOf(s)
    ensures found == null ==> forall n :: n in s ==> n.id != h
    ensures found != null ==>
      found in s && IsVnode(found) && Vnode(found).hash == h && RingOf(s)[h] == Vnode(found).node
  {
    OrderNodes(t);
    if found != null {
      RingAt(s, found);
    } else {
      forall k | k in RingOf(s) ensures k != h {
        var n := RingFrom(s, k);
      }
    }
  }

  // Every point leads to one of the servers, and is one of that server's own
  ghost predicate Owned(hash: string -> Long, ring: map<Long, Server>, members: set<Server>)
    reads members`iden, members`replicas
  {
    forall k :: k in ring ==> ring[k] in members && k in HashesOf(hash, ring[k].Name(), ring[k].replicas)
  }

  ghost predicate Flagged(members: set<Server>)
    reads members
  {
    forall s :: s in members ==> s.In()
  }

  lemma AddedOwned(hash: string -> Long, ring: map<Long, Server>, members: set<Server>, s: Server)
    requires Owned(hash, ring, members) && s !in members
    ensures Owned(hash, Added(ring, HashesOf(hash, s.Name(), s.replicas), s), members + {s})
    ensures forall k :: k in ring ==> ring[k] != s
  {
    AddedPoints(ring, HashesOf(hash, s.Name(), s.replicas), s);
  }

  lemma RemovedOwned(hash: string -> Long, ring: map<Long, Server>, members: set<Server>, s: Server)
    requires Owned(hash, ring, members)
    ensures var r := Removed(ring, HashesOf(hash, s.Name(), s.replicas), s);
      Owned(hash, r, members - {s}) && forall k :: k in r ==> r[k] != s
  {
    RemovedPoints(ring, HashesOf(hash, s.Name(), s.replicas), s);
  }

  lemma FlagBits(f: bv32)
    ensures (f | FLAG_IN) & FLAG_INIT == f & FLAG_INIT && (f | FLAG_IN) & FLAG_IN != 0
    ensures (f & !FLAG_IN) & FLAG_INIT == f & FLAG_INIT && (f & !FLAG_IN) & FLAG_IN == 0
  {
  }

  // struct conhash_s
  class Ring {
    const hash: string -> Long
    const tree: Rbtree
    var ivnodes: nat
    ghost var members: set<Server>  // the servers that are flagged as in this ring

    // The tree of virtual nodes and the count of them
    ghost predicate Wired()
      reads this`ivnodes, tree, tree.mem.Keys, tree.sentinel, tree.root
      reads if tree.root.parent == null then {} else {tree.root.parent}
    {
      tree.Valid() && tree.RootParentBlack() && IsRing(Order(tree.shape)) && ivnodes == tree.size
    }

    ghost function Points(): map<Long, Server>
      reads tree`shape
    {
      if IsRing(Order(tree.shape)) then RingOf(Order(tree.shape)) else map[]
    }

    ghost function PointsOf(s: Server): seq<Long>
      reads s
    {
      HashesOf(hash, s.Name(), s.replicas)
    }

    ghost function WithServer(ring: map<Long, Server>, s: Server): map<Long, Server>
      reads s
    {
      Added(ring, PointsOf(s), s)
    }

    ghost function WithoutServer(ring: map<Long, Server>, s: Server): map<Long, Server>
      reads s
    {
      Removed(ring, PointsOf(s), s)
    }

    ghost predicate Valid()
      reads this, tree, tree.mem.Keys, tree.sentinel, tree.root
      reads if tree.root.parent == null then {} else {tree.root.parent}
      reads members
    {
      Wired() && Flagged(members) && Owned(hash, Points(), members)
    }

    // conhash_init
    constructor (hash: string -> Long)
      ensures Valid() && this.hash == hash && members == {} && Points() == map[]
      ensures fresh(tree) && fresh(tree.sentinel)
    {
      this.hash := hash;
      tree := new Rbtree();
      ivnodes, members := 0, {};
    }

    // ---------- Adding ----------

    // When the hash function tells all replicas apart, a server with a name of its own gets a point for each
    lemma EveryReplica(node: Server)
      requires Valid() && TellsApart(hash) && forall m :: m in members ==> m.Name() != node.Name()
      ensures |WithServer(Points(), node)| == |Points()| + node.replicas
    {
      hide Wired, Points, TellsApart, HashesOf, Added;
      forall h | h in PointsOf(node) ensures h !in Points() {
        if h in Points() {
          PointsDiffer(hash, Points()[h].Name(), Points()[h].replicas, node.Name(), node.replicas, h);
        }
      }
      AllReplicas(Points(), hash, node.Name(), node.replicas, node);
    }

    method AddReplica(node: Server, h: Long)
      requires Wired()
      modifies this`ivnodes, tree, tree.mem.Keys
      ensures Wired() && fresh(tree.mem.Keys - old(tree.mem.Keys))
      ensures Points() == if h in old(Points()) then old(Points()) else old(Points())[h := node]
    {
      hide Order, Nodes, Placed, IsRing, RingOf;
      var found := tree.Search(h);
      SearchedFor(Order(tree.shape), tree.shape, h, found);
      if found == null {
        AddVnode(node, h);
      }
    }

    // A new virtual node goes into the tree and is counted
    method AddVnode(node: Server, h: Long)
      requires Wired() && h !in Points() && forall n :: n in Order(tree.shape) ==> n.id != h
      modifies this`ivnodes, tree, tree.mem.Keys
      ensures Wired() && fresh(tree.mem.Keys - old(tree.mem.Keys))
      ensures Points() == old(Points())[h := node]
    {
      hide Order, Nodes, Placed, IsRing, RingOf, Rbtree.Valid, Rbtree.RootParentBlack;
      var vnode := new VirtualNode(h, node);
      var rbnode := new Node(h, vnode);
      RingPlaced(Order(tree.shape), rbnode);
      PlacedSize(Order(tree.shape), rbnode);
      tree.Known();
      tree.Insert(rbnode);
      tree.Known();
      ivnodes := ivnodes + 1;
    }

    // __conhash_add_replicas
    method AddReplicas(node: Server)
      requires Wired()
      modifies this`ivnodes, tree, tree.mem.Keys
      ensures Wired() && fresh(tree.mem.Keys - old(tree.mem.Keys))
      ensures Points() == WithServer(old(Points()), node)
    {
      hide Points;
      var i := 0;
      while i < node.replicas
        invariant i <= node.replicas && Wired() && fresh(tree.mem.Keys - old(tree.mem.Keys))
        invariant Points() == Added(old(Points()), HashesOf(hash, node.Name(), i), node)
      {
        var h := hash(ReplicaName(node.Name(), i));
        AddedPoint(old(Points()), HashesOf(hash, node.Name(), i), h, node);
        AddReplica(node, h);
        i := i + 1;
      }
    }

    /** conhash_add_node */
    method AddNode(node: Server?) returns (r: int)
      requires Valid()
      modifies this, tree, tree.mem.Keys, if node == null then {} else {node}
      ensures Valid() && (r == 0 || r == -1)
      ensures r == 0 <==> node != null && old(node.Ready())
      ensures r == 0 ==>
        node.In() && members == old(members) + {node} && node.iden == old(node.iden) &&
          node.replicas == old(node.replicas)
      ensures r == 0 ==>
        (forall k :: k in old(Points()) ==> old(Points())[k] != node) && Points() == WithServer(old(Points()), node)
      ensures r == 0 ==> MovesTo<Server>(old(Points()), Points(), node)
      ensures r == 0 && TellsApart(hash) && (forall m :: m in old(members) ==> old(m.Name()) != old(node.Name())) ==>
        |Points()| == |old(Points())| + node.replicas
      ensures fresh(tree.mem.Keys - old(tree.mem.Keys))
      ensures r == -1 ==>
        Points() == old(Points()) && members == old(members) && (node != null ==> node.flag == old(node.flag))
    {
      hide Wired, Points, Owned, HashesOf, Added;
      if node == null {
        return -1;
      }
      if node.flag & FLAG_INIT == 0 || node.flag & FLAG_IN != 0 {
        return -1;
      }
      if TellsApart(hash) && forall m :: m in members ==> m.Name() != node.Name() {
        EveryReplica(node);
      }
      TakeIn(node);
      AddedMoves<Server>(old(Points()), PointsOf(node), node);
      r := 0;
    }

    method TakeIn(node: Server)
      requires Valid() && node.Ready()
      modifies this, tree, tree.mem.Keys, node`flag
      ensures Valid() && node.In() && members == old(members) + {node} && fresh(tree.mem.Keys - old(tree.mem.Keys))
      ensures (forall k :: k in old(Points()) ==> old(Points())[k] != node) &&
        Points() == WithServer(old(Points()), node)
    {
      hide Wired, Points, Owned, HashesOf, Added;
      assert node !in members;
      FlagBits(node.flag);
      node.flag := node.flag | FLAG_IN;
      AddedOwned(hash, Points(), members, node);
      AddReplicas(node);
      members := members + {node};
    }

    // ---------- Deleting ----------

    method DelReplica(node: Server, h: Long)
      requires Wired()
      modifies this`ivnodes, tree, tree.mem.Keys, tree.sentinel
      ensures Wired() && tree.mem.Keys <= old(tree.mem.Keys)
      ensures Points() == (var r := old(Points()); if h in r && r[h] == node then r - {h} else r)
    {
      hide Order, Nodes, Without, IsRing, RingOf;
      var rbnode := tree.Search(h);
      SearchedFor(Order(tree.shape), tree.shape, h, rbnode);
      if rbnode != null {
        var vnode := rbnode.data as VirtualNode;
        if vnode.hash == h && vnode.node == node {
          DelVnode(rbnode);
        }
      }
    }

    method DelVnode(rbnode: Node)
      requires Wired() && rbnode in Order(tree.shape) && rbnode in Nodes(tree.shape) && IsVnode(rbnode)
      modifies this`ivnodes, tree, tree.mem.Keys, tree.sentinel
      ensures Wired() && tree.mem.Keys <= old(tree.mem.Keys)
      ensures Points() == old(Points()) - {Vnode(rbnode).hash}
    {
      hide Order, Nodes, Without, IsRing, RingOf;
      ghost var rest: seq<Node> := Without(Order(tree.shape), rbnode);
      RingDelete(Order(tree.shape), rest, rbnode);
      tree.OneLess(rbnode);
      ivnodes := ivnodes - 1;
      tree.Delete(rbnode);
    }

    // __conhash_del_replicas
    method DelReplicas(node: Server)
      requires Wired()
      modifies this`ivnodes, tree, tree.mem.Keys, tree.sentinel
      ensures Wired() && tree.mem.Keys <= old(tree.mem.Keys)
      ensures Points() == WithoutServer(old(Points()), node)
    {
      hide Points;
      var i := 0;
      while i < node.replicas
        invariant i <= node.replicas && Wired() && tree.mem.Keys <= old(tree.mem.Keys)
        invariant Points() == Removed(old(Points()), HashesOf(hash, node.Name(), i), node)
      {
        var h := hash(ReplicaName(node.Name(), i));
        RemovedPoint(old(Points()), HashesOf(hash, node.Name(), i), h, node);
        DelReplica(node, h);
        i := i + 1;
      }
    }

    /** conhash_del_node */
    method DelNode(node: Server?) returns (r: int)
      requires Valid()
      modifies this, tree, tree.mem.Keys, tree.sentinel, if node == null then {} else {node}
      ensures Valid() && (r == 0 || r == -1)
      ensures r == 0 <==> node != null && old(node.In())
      ensures r == 0 ==>
        node.Ready() && members == old(members) - {node} && node.iden == old(node.iden) &&
          node.replicas == old(node.replicas)
      ensures r == 0 ==>
        Points() == WithoutServer(old(Points()), node) && forall k :: k in Points() ==> Points()[k] != node
      ensures r == 0 ==> MovesTo<Server>(Points(), old(Points()), node)
      ensures r == -1 ==>
        Points() == old(Points()) && members == old(members) && (node != null ==> node.flag == old(node.flag))
    {
      hide Wired, Points, Owned, HashesOf, Removed;
      if node == null {
        return -1;
      }
      if node.flag & FLAG_INIT == 0 || node.flag & FLAG_IN == 0 {
        return -1;
      }
      LetOut(node);
      RemovedMoves<Server>(old(Points()), PointsOf(node), node);
      r := 0;
    }

    /** A server that is added and deleted again leaves the ring as it was. */
    method AddThenDel(node: Server)
      requires Valid() && node.Ready()
      modifies this, tree, tree.mem.Keys, tree.sentinel, node
      ensures Valid() && node.Ready() && Points() == old(Points()) && members == old(members)
    {
      hide Wired, Points, Owned, HashesOf, Added, Removed, MovesTo;
      assert node !in members;
      var added := AddNode(node);
      AddThenDelete(old(Points()), PointsOf(node), node);
      var deleted := DelNode(node);
    }

    method LetOut(node: Server)
      requires Valid() && node.In()
      modifies this, tree, tree.mem.Keys, tree.sentinel, node`flag
      ensures Valid() && node.Ready() && members == old(members) - {node}
      ensures Points() == WithoutServer(old(Points()), node) && forall k :: k in Points() ==> Points()[k] != node
    {
      hide Wired, Points, Owned, HashesOf, Removed;
      FlagBits(node.flag);
      node.flag := node.flag & !FLAG_IN;
      RemovedOwned(hash, Points(), members, node);
      DelReplicas(node);
      members := members - {node};
    }

    // ---------- Finding ----------

    /** conhash_lookup */
    method Lookup(key: string) returns (r: Server?)
      requires Valid()
      ensures r == null <==> |Points()| == 0
      ensures r != null ==> r in members && Serves(Points(), hash(key), r)
    {
      hide Order, Nodes, IsRing, RingOf, FirstFrom;
      RingSize(Order(tree.shape));
      if ivnodes == 0 {
        return null;
      }
      var h := hash(key);
      LookupServes(Order(tree.shape), h);
      var rbnode := tree.Lookup(h);
      var vnode := rbnode.data as VirtualNode;
      RingAt(Order(tree.shape), rbnode);
      r := vnode.node;
    }

    /** ivnodes counts the points */
    lemma CountsPoints()
      requires Valid()
      ensures ivnodes == |Points()|
    {
      RingSize(Order(tree.shape));
    }

    // conhash_fini: the tree is emptied root by root
    method Fini()
      requires Valid()
      modifies tree, tree.mem.Keys, tree.sentinel
      ensures tree.Valid() && tree.root == tree.sentinel && Order(tree.shape) == []
    {
      while tree.root != tree.sentinel
        invariant tree.Valid() && tree.mem.Keys <= old(tree.mem.Keys)
        decreases tree.size
      {
        tree.BinAtStart();
        tree.OneLess(tree.root);
        tree.Delete(tree.root);
      }
      tree.NilAtEnd(Top, tree.shape);
    }
  }
}
