/**
  Which order Value::operator< is: what decides it is the kind of the values, and within a kind their
  numbers, the first characters that differ, or the sizes and the first entries that differ.
 */
module JsonOrder {
  import opened JsonValue

  // ---------- Strings ----------

  // The strings agree up to place `k`; there `a` ends, or has the lesser character
  ghost predicate FirstDifference(a: string, b: string, k: nat) {
    k <= |a| && k < |b| && a[..k] == b[..k] && (k < |a| ==> a[k] < b[k])
  }

  // The order of keys: a proper prefix, or the lesser character at the first difference
  lemma {:induction false} StrLessIs(a: string, b: string)
    ensures StrLess(a, b) <==> exists k: nat :: FirstDifference(a, b, k)
  {
    if a == [] || b == [] {
      if b != [] {
        assert FirstDifference(a, b, 0);
      }
    } else if a[0] != b[0] {
      if a[0] < b[0] {
        assert FirstDifference(a, b, 0);
      }
      forall k: nat | FirstDifference(a, b, k) ensures k == 0 {
      }
    } else {
      StrLessIs(a[1..], b[1..]);
      if StrLess(a, b) {
        var k: nat :| FirstDifference(a[1..], b[1..], k);
        assert a[..k + 1] == [a[0]] + a[1..][..k] && b[..k + 1] == [b[0]] + b[1..][..k];
        assert FirstDifference(a, b, k + 1);
      }
      if k: nat :| FirstDifference(a, b, k) {
        assert k > 0;
        assert a[1..][..k - 1] == a[..k][1..] && b[1..][..k - 1] == b[..k][1..];
        assert FirstDifference(a[1..], b[1..], k - 1);
      }
    }
  }

  // ---------- Kinds ----------

  // Values of different kinds: null, ints, unsigned ints, strings, bools, arrays, objects
  lemma KindsAscend(a: Value, b: Value)
    requires NoReals(a) && NoReals(b)
    ensures a.Null? && !b.Null? ==> Less(a, b)
    ensures a.Int? && (b.UInt? || b.Str? || b.Bool? || b.Arr? || b.Obj?) ==> Less(a, b)
    ensures a.UInt? && (b.Str? || b.Bool? || b.Arr? || b.Obj?) ==> Less(a, b)
    ensures a.Str? && (b.Bool? || b.Arr? || b.Obj?) ==> Less(a, b)
    ensures a.Bool? && (b.Arr? || b.Obj?) ==> Less(a, b)
    ensures a.Arr? && b.Obj? ==> Less(a, b)
  {
  }

  // Values of the same kind that are no containers
  lemma ScalarsAscend(a: Value, b: Value)
    requires NoReals(a) && NoReals(b)
    ensures a.Null? && b.Null? ==> !Less(a, b)
    ensures a.Int? && b.Int? ==> (Less(a, b) <==> a.i < b.i)
    ensures a.UInt? && b.UInt? ==> (Less(a, b) <==> a.u < b.u)
    ensures a.Bool? && b.Bool? ==> (Less(a, b) <==> a == Bool(false) && b == Bool(true))
    ensures a.Str? && b.Str? ==> (Less(a, b) <==> exists k: nat :: FirstDifference(a.s, b.s, k))
  {
    if a.Str? && b.Str? {
      StrLessIs(a.s, b.s);
    }
  }

  // ---------- Containers ----------

  ghost predicate FirstElem(xs: seq<Value>, ys: seq<Value>, k: nat)
    requires forall i :: 0 <= i < |xs| ==> NoReals(xs[i])
    requires forall i :: 0 <= i < |ys| ==> NoReals(ys[i])
  {
    k < |xs| && k < |ys| && xs[..k] == ys[..k] && Less(xs[k], ys[k])
  }

  // A shorter array comes first; of two as long, the first element that differs decides
  lemma ArraysAscend(a: Value, b: Value)
    requires NoReals(a) && NoReals(b) && a.Arr? && b.Arr?
    ensures Less(a, b) <==>
      |a.elems| < |b.elems| || (|a.elems| == |b.elems| && exists k: nat :: FirstElem(a.elems, b.elems, k))
  {
    if |a.elems| == |b.elems| {
      ElemsAscend(a.elems, b.elems);
    }
  }

  lemma {:induction false} ElemsAscend(xs: seq<Value>, ys: seq<Value>)
    requires |xs| == |ys|
    requires forall i :: 0 <= i < |xs| ==> NoReals(xs[i]) && NoReals(ys[i])
    ensures LessElems(xs, ys) <==> exists k: nat :: FirstElem(xs, ys, k)
    decreases |xs|
  {
    if xs != [] {
      Trichotomy(xs[0], ys[0]);
      ElemsAscend(xs[1..], ys[1..]);
      if Less(xs[0], ys[0]) {
        assert FirstElem(xs, ys, 0);
      } else if xs[0] == ys[0] {
        if k: nat :| FirstElem(xs[1..], ys[1..], k) {
          assert xs[..k + 1] == [xs[0]] + xs[1..][..k] && ys[..k + 1] == [ys[0]] + ys[1..][..k];
          assert FirstElem(xs, ys, k + 1);
        }
        if k: nat :| FirstElem(xs, ys, k) {
          assert k > 0;
          assert xs[1..][..k - 1] == xs[..k][1..] && ys[1..][..k - 1] == ys[..k][1..];
          assert FirstElem(xs[1..], ys[1..], k - 1);
        }
      } else {
        forall k: nat | FirstElem(xs, ys, k) ensures k == 0 {
        }
      }
    }
  }

  // Of two members the name decides, and for one name the value
  ghost predicate MemberFirst(x: Member, y: Member)
    requires NoReals(x.val) && NoReals(y.val)
  {
    (exists k: nat :: FirstDifference(x.key, y.key, k)) || (x.key == y.key && Less(x.val, y.val))
  }

  ghost predicate FirstMember(xs: seq<Member>, ys: seq<Member>, k: nat)
    requires forall i :: 0 <= i < |xs| ==> NoReals(xs[i].val)
    requires forall i :: 0 <= i < |ys| ==> NoReals(ys[i].val)
  {
    k < |xs| && k < |ys| && xs[..k] == ys[..k] && MemberFirst(xs[k], ys[k])
  }

  // The same for objects, whose entries are their members in the order of the names
  lemma ObjectsAscend(a: Value, b: Value)
    requires NoReals(a) && NoReals(b) && a.Obj? && b.Obj?
    ensures Less(a, b) <==>
      |a.members| < |b.members| || (|a.members| == |b.members| && exists k: nat :: FirstMember(a.members, b.members, k))
  {
    if |a.members| == |b.members| {
      MembersAscend(a.members, b.members);
    }
  }

  lemma MemberFirstIs(x: Member, y: Member)
    requires NoReals(x.val) && NoReals(y.val)
    ensures LessMember(x, y) <==> MemberFirst(x, y)
  {
    StrLessIs(x.key, y.key);
    StrTrichotomy(x.key, y.key);
  }

  lemma {:induction false} MembersAscend(xs: seq<Member>, ys: seq<Member>)
    requires |xs| == |ys|
    requires forall i :: 0 <= i < |xs| ==> NoReals(xs[i].val) && NoReals(ys[i].val)
    ensures LessMembers(xs, ys) <==> exists k: nat :: FirstMember(xs, ys, k)
    decreases |xs|
  {
    hide MemberFirst, LessMember;
    if xs != [] {
      MemberTrichotomy(xs[0], ys[0]);
      MemberFirstIs(xs[0], ys[0]);
      MembersAscend(xs[1..], ys[1..]);
      if LessMember(xs[0], ys[0]) {
        assert FirstMember(xs, ys, 0);
      } else if xs[0] == ys[0] {
        if k: nat :| FirstMember(xs[1..], ys[1..], k) {
          assert xs[..k + 1] == [xs[0]] + xs[1..][..k] && ys[..k + 1] == [ys[0]] + ys[1..][..k];
          assert FirstMember(xs, ys, k + 1);
        }
        if k: nat :| FirstMember(xs, ys, k) {
          assert k > 0;
          assert xs[1..][..k - 1] == xs[..k][1..] && ys[1..][..k - 1] == ys[..k][1..];
          assert FirstMember(xs[1..], ys[1..], k - 1);
        }
      } else {
        forall k: nat | FirstMember(xs, ys, k) ensures k == 0 {
        }
      }
    }
  }
}
