/**
  The texts that are hashed for the replicas of a server (libconhash/conhash_inter.c): no two of
  them are the same, whatever the names of the servers.
 */
module ReplicaNames {
  import opened Common
  import opened HashRing

  function Padded(s: string): string
    decreases 3 - |s|
  {
    if |s| < 3 then Padded("0" + s) else s
  }

  // __conhash_node2string: "%s-%03d"
  function ReplicaName(iden: string, i: nat): string {
    iden + "-" + Padded(Dec(i))
  }

  // The hash values of the first `n` replicas
  ghost function HashesOf(hash: string -> Long, iden: string, n: nat): (r: seq<Long>)
    ensures |r| == n
  {
    if n == 0 then [] else HashesOf(hash, iden, n - 1) + [hash(ReplicaName(iden, n - 1))]
  }

  lemma {:induction false} HashAt(hash: string -> Long, iden: string, n: nat, i: nat)
    requires i < n
    ensures HashesOf(hash, iden, n)[i] == hash(ReplicaName(iden, i))
  {
    if i < n - 1 {
      HashAt(hash, iden, n - 1, i);
    }
  }

  // ---------- What a name says ----------

  lemma {:induction false} ZeroInFront(s: string)
    ensures Denoted("0" + s) == Denoted(s)
  {
    var z := "0" + s;
    if s == "" {
      assert z[..0] == "";
    } else {
      ZeroInFront(s[..|s| - 1]);
      assert z[..|z| - 1] == "0" + s[..|s| - 1];
    }
  }

  lemma {:induction false} PaddedDenotes(s: string)
    requires AllDigits(s)
    ensures AllDigits(Padded(s)) && Denoted(Padded(s)) == Denoted(s)
    ensures |Padded(s)| == if |s| < 3 then 3 else |s|
    decreases 3 - |s|
  {
    if |s| < 3 {
      ZeroInFront(s);
      PaddedDenotes("0" + s);
    }
  }

  // The name, a dash, and at least three digits that denote the number of the replica
  lemma NameIs(iden: string, i: nat)
    ensures var r, d := ReplicaName(iden, i), ReplicaName(iden, i)[|iden| + 1..];
      && r == iden + "-" + d && |d| >= 3 && AllDigits(d) && Denoted(d) == i
      && (|d| > 3 ==> d[0] != '0')
  {
    DecDenotes(i);
    PaddedDenotes(Dec(i));
    DecNoZero(i);
    assert ReplicaName(iden, i)[|iden| + 1..] == Padded(Dec(i));
  }

  lemma {:induction false} DecNoZero(n: nat)
    ensures n > 0 ==> Dec(n)[0] != '0'
    ensures |Dec(n)| >= 4 ==> n > 0
  {
    if n >= 10 {
      DecNoZero(n / 10);
    }
  }

  // Servers with different names and replicas with different numbers have different texts
  lemma NamesDiffer(x: string, i: nat, y: string, j: nat)
    requires ReplicaName(x, i) == ReplicaName(y, j)
    ensures x == y && i == j
  {
    var r, d, e := ReplicaName(x, i), ReplicaName(x, i)[|x| + 1..], ReplicaName(y, j)[|y| + 1..];
    NameIs(x, i);
    NameIs(y, j);
    assert r[|x|] == '-' && r[|y|] == '-';
    if |x| < |y| {
      assert false;
    } else if |y| < |x| {
      assert false;
    }
    assert x == r[..|x|] && y == r[..|y|];
  }

  // ---------- Points of a server ----------

  // The hash function tells all such texts apart
  ghost predicate TellsApart(hash: string -> Long) {
    forall x: string, i: nat, y: string, j: nat :: hash(ReplicaName(x, i)) == hash(ReplicaName(y, j)) ==>
      x == y && i == j
  }

  // Different points, none of them taken, all become points of the server
  lemma {:induction false} AllAdded<S>(ring: map<Long, S>, points: seq<Long>, s: S)
    requires NoDup(points) && forall h :: h in points ==> h !in ring
    ensures |Added(ring, points, s)| == |ring| + |points|
  {
    if points != [] {
      var n := |points| - 1;
      AllAdded(ring, points[..n], s);
      AddedPoints(ring, points[..n], s);
      assert points[n] !in Added(ring, points[..n], s);
    }
  }

  // Under such a hash function a server gets as many points as it has replicas, if no other has its points
  lemma AllReplicas<S>(ring: map<Long, S>, hash: string -> Long, iden: string, n: nat, s: S)
    requires TellsApart(hash) && forall h :: h in HashesOf(hash, iden, n) ==> h !in ring
    ensures |Added(ring, HashesOf(hash, iden, n), s)| == |ring| + n
  {
    var points := HashesOf(hash, iden, n);
    forall i, j | 0 <= i < j < n ensures points[i] != points[j] {
      HashAt(hash, iden, n, i);
      HashAt(hash, iden, n, j);
    }
    AllAdded(ring, points, s);
  }

  // ... and servers with other names have other points
  lemma PointsDiffer(hash: string -> Long, x: string, m: nat, y: string, n: nat, h: Long)
    requires TellsApart(hash) && h in HashesOf(hash, x, m) && h in HashesOf(hash, y, n)
    ensures x == y
  {
    var i :| 0 <= i < m && HashesOf(hash, x, m)[i] == h;
    var j :| 0 <= j < n && HashesOf(hash, y, n)[j] == h;
    HashAt(hash, x, m, i);
    HashAt(hash, y, n, j);
  }
}
