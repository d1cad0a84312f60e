/**
  Consistent hashing as a map: points of a ring, each with the server it leads to.
 */
module HashRing {
  // long, 64 bits wide
  type Long = i: int | -0x8000_0000_0000_0000 <= i < 0x8000_0000_0000_0000

  // `k` is the point that serves `h`: the first one not below `h`, or else the least of all
  ghost predicate IsPoint<S>(ring: map<Long, S>, h: Long, k: Long) {
    && k in ring
    && if h <= k then forall j :: j in ring && h <= j ==> k <= j
       else forall j :: j in ring ==> k <= j < h
  }

  ghost predicate Serves<S>(ring: map<Long, S>, h: Long, s: S) {
    exists k :: IsPoint(ring, h, k) && ring[k] == s
  }

  lemma OnePoint<S>(ring: map<Long, S>, h: Long, k: Long, j: Long)
    requires IsPoint(ring, h, k) && IsPoint(ring, h, j)
    ensures k == j
  {
  }

  lemma OneServer<S>(ring: map<Long, S>, h: Long, s: S, t: S)
    requires Serves(ring, h, s) && Serves(ring, h, t)
    ensures s == t
  {
    var k :| IsPoint(ring, h, k) && ring[k] == s;
    var j :| IsPoint(ring, h, j) && ring[j] == t;
    OnePoint(ring, h, k, j);
  }

  lemma {:induction false} Least(points: set<Long>) returns (k: Long)
    requires points != {}
    ensures k in points && forall j :: j in points ==> k <= j
  {
    var x :| x in points;
    var rest := points - {x};
    k := x;
    if rest != {} {
      var l := Least(rest);
      k := if l < x then l else x;
    }
    forall j | j in points ensures k <= j {
      assert j == x || j in rest;
    }
  }

  // On a ring with any point at all, every hash value has its server
  lemma SomeServer<S>(ring: map<Long, S>, h: Long)
    requires |ring| > 0
    ensures exists s :: Serves(ring, h, s)
  {
    var above := set k | k in ring && h <= k;
    var points := if above == {} then ring.Keys else above;
    assert |ring.Keys| > 0;
    var k := Least(points);
    forall j | j in ring && h <= j ensures j in above {
    }
    if above == {} {
      forall j | j in ring ensures k <= j < h {
        assert j !in above;
      }
    }
    assert IsPoint(ring, h, k);
    assert Serves(ring, h, ring[k]);
  }

  // ---------- Adding and deleting the points of a server ----------

  // __conhash_add_replicas: a point that is taken is left alone
  function Added<S>(ring: map<Long, S>, points: seq<Long>, s: S): map<Long, S> {
    if points == [] then ring else
    var before := Added(ring, points[..|points| - 1], s);
    var h := points[|points| - 1];
    if h in before then before else before[h := s]
  }

  // __conhash_del_replicas: only points that lead to the server go
  function Removed<S(==)>(ring: map<Long, S>, points: seq<Long>, s: S): map<Long, S> {
    if points == [] then ring else
    var before := Removed(ring, points[..|points| - 1], s);
    var h := points[|points| - 1];
    if h in before && before[h] == s then before - {h} else before
  }

  lemma {:induction false} AddedPoints<S>(ring: map<Long, S>, points: seq<Long>, s: S)
    ensures var r := Added(ring, points, s);
      && (forall k :: k in r <==> k in ring || k in points)
      && forall k :: k in r ==> r[k] == if k in ring then ring[k] else s
  {
    if points != [] {
      var n := |points| - 1;
      AddedPoints(ring, points[..n], s);
      assert points == points[..n] + [points[n]];
    }
  }

  lemma {:induction false} RemovedPoints<S>(ring: map<Long, S>, points: seq<Long>, s: S)
    ensures var r := Removed(ring, points, s);
      && (forall k :: k in r <==> k in ring && !(k in points && ring[k] == s))
      && forall k :: k in r ==> r[k] == ring[k]
  {
    if points != [] {
      var n := |points| - 1;
      RemovedPoints(ring, points[..n], s);
      assert points == points[..n] + [points[n]];
    }
  }

  // ---------- Only necessary keys move ----------

  // `big` has more points than `small`, and they all lead to `s`
  ghost predicate Grown<S>(small: map<Long, S>, big: map<Long, S>, s: S) {
    && (forall k :: k in small ==> k in big && big[k] == small[k])
    && forall k :: k in big && k !in small ==> big[k] == s
  }

  // Between two such rings an object changes its server only from or to `s`
  lemma MovesOnly<S>(small: map<Long, S>, big: map<Long, S>, s: S, h: Long, a: S, b: S)
    requires Grown(small, big, s) && Serves(small, h, a) && Serves(big, h, b)
    ensures b == s || a == b
  {
    var k :| IsPoint(small, h, k) && small[k] == a;
    var j :| IsPoint(big, h, j) && big[j] == b;
    if b != s {
      assert j in small;
      assert IsPoint(small, h, j);
      OnePoint(small, h, k, j);
    }
  }

  // After a server has been added every object is where it was, or on the new server
  lemma AddMovesToNew<S>(ring: map<Long, S>, points: seq<Long>, s: S, h: Long, a: S, b: S)
    requires Serves(ring, h, a) && Serves(Added(ring, points, s), h, b)
    ensures b == s || a == b
  {
    AddedPoints(ring, points, s);
    MovesOnly(ring, Added(ring, points, s), s, h, a, b);
  }

  // After a server has been deleted only the objects it served have moved
  lemma DeleteMovesOwn<S>(ring: map<Long, S>, points: seq<Long>, s: S, h: Long, a: S, b: S)
    requires Serves(ring, h, a) && Serves(Removed(ring, points, s), h, b)
    ensures a == s || a == b
  {
    RemovedPoints(ring, points, s);
    MovesOnly(Removed(ring, points, s), ring, s, h, b, a);
  }

  // Whatever the hash value of an object, from one ring to the next it stays where it is or goes to `s`
  ghost predicate MovesTo<S>(before: map<Long, S>, after: map<Long, S>, s: S) {
    forall h: Long, k: Long, j: Long :: IsPoint(before, h, k) && IsPoint(after, h, j) ==>
      after[j] == s || before[k] == after[j]
  }

  lemma AddedMoves<S>(ring: map<Long, S>, points: seq<Long>, s: S)
    ensures MovesTo(ring, Added(ring, points, s), s)
  {
    var r := Added(ring, points, s);
    forall h: Long, k: Long, j: Long | IsPoint(ring, h, k) && IsPoint(r, h, j) ensures r[j] == s || ring[k] == r[j] {
      AddMovesToNew(ring, points, s, h, ring[k], r[j]);
    }
  }

  // Deleting is adding backwards: an object that moves comes from `s`
  lemma RemovedMoves<S>(ring: map<Long, S>, points: seq<Long>, s: S)
    ensures MovesTo(Removed(ring, points, s), ring, s)
  {
    var r := Removed(ring, points, s);
    forall h: Long, k: Long, j: Long | IsPoint(r, h, k) && IsPoint(ring, h, j) ensures ring[j] == s || r[k] == ring[j] {
      DeleteMovesOwn(ring, points, s, h, ring[j], r[k]);
    }
  }

  // No point leads to the deleted server, if all that did were its own
  lemma DeleteLeavesNone<S>(ring: map<Long, S>, points: seq<Long>, s: S)
    requires forall k :: k in ring && ring[k] == s ==> k in points
    ensures forall k :: k in Removed(ring, points, s) ==> Removed(ring, points, s)[k] != s
  {
    RemovedPoints(ring, points, s);
  }

  // Adding a server and deleting it again restores the ring, whatever points collided
  lemma AddThenDelete<S>(ring: map<Long, S>, points: seq<Long>, s: S)
    requires forall k :: k in ring ==> ring[k] != s
    ensures Removed(Added(ring, points, s), points, s) == ring
  {
    AddedPoints(ring, points, s);
    RemovedPoints(Added(ring, points, s), points, s);
  }

  // Deleting a server and adding it again restores the ring exactly when nobody waits for one of its points:
  // a point is left alone while it is taken, so a later server can only have what the first left
  lemma DeleteThenAdd<S>(ring: map<Long, S>, points: seq<Long>, s: S)
    requires forall k :: k in ring && ring[k] == s ==> k in points
    ensures Added(Removed(ring, points, s), points, s) == ring <==> forall h :: h in points ==> h in ring
  {
    RemovedPoints(ring, points, s);
    AddedPoints(Removed(ring, points, s), points, s);
    var r := Added(Removed(ring, points, s), points, s);
    if forall h :: h in points ==> h in ring {
      forall k | k in r.Keys ensures k in ring.Keys {
      }
      assert r.Keys == ring.Keys;
    } else {
      var h :| h in points && h !in ring;
      assert h in r;
    }
  }
}
