/**
  The JSON value tree of http_codec/json/json_value.cpp and its total order.

  A character stands for one byte.  A double is known only by the text that prints it.
 */
module JsonValue {
  import opened Common

  datatype Value =
    | Null
    | Int(i: int)
    | UInt(u: int)
    | Real(text: string)
    | Str(s: string)
    | Bool(b: bool)
    | Arr(elems: seq<Value>)
    | Obj(members: seq<Member>)  // std::map: ascending keys

  datatype Member = Member(key: string, val: Value)

  const MIN_INT := -0x8000_0000
  const MAX_INT := 0x7FFF_FFFF
  const MAX_UINT := 0xFFFF_FFFF

  // strcmp(a, b) < 0
  predicate StrLess(a: string, b: string) {
    if a == [] || b == [] then a == [] && b != []
    else if a[0] != b[0] then a[0] < b[0]
    else StrLess(a[1..], b[1..])
  }

  lemma {:induction false} StrTrichotomy(a: string, b: string)
    ensures StrLess(a, b) ==> a != b && !StrLess(b, a)
    ensures StrLess(a, b) || a == b || StrLess(b, a)
  {
    if a != [] && b != [] && a[0] == b[0] {
      StrTrichotomy(a[1..], b[1..]);
      assert a == [a[0]] + a[1..] && b == [b[0]] + b[1..];
    }
  }

  lemma {:induction false} StrTransitive(a: string, b: string, c: string)
    requires StrLess(a, b) && StrLess(b, c)
    ensures StrLess(a, c)
  {
    if a != [] && b != [] && c != [] && a[0] == b[0] == c[0] {
      StrTransitive(a[1..], b[1..], c[1..]);
    }
  }

  // ---------- Objects ----------

  ghost predicate Ascending(ms: seq<Member>) {
    forall i, j :: 0 <= i < j < |ms| ==> StrLess(ms[i].key, ms[j].key)
  }

  // The member a key leads to; operator[] makes it null when there is none
  function Lookup(ms: seq<Member>, key: string): Value {
    if ms == [] then Null else if ms[0].key == key then ms[0].val else Lookup(ms[1..], key)
  }

  function Put(ms: seq<Member>, key: string, val: Value): seq<Member> {
    if ms == [] then [Member(key, val)]
    else if ms[0].key == key then [Member(key, val)] + ms[1..]
    else if StrLess(key, ms[0].key) then [Member(key, val)] + ms
    else [ms[0]] + Put(ms[1..], key, val)
  }

  lemma {:induction false} PutLast(ms: seq<Member>, key: string, val: Value)
    requires forall i :: 0 <= i < |ms| ==> StrLess(ms[i].key, key)
    ensures Put(ms, key, val) == ms + [Member(key, val)] && Lookup(ms, key) == Null
  {
    if ms != [] {
      StrTrichotomy(ms[0].key, key);
      PutLast(ms[1..], key, val);
      assert ms + [Member(key, val)] == [ms[0]] + (ms[1..] + [Member(key, val)]);
    }
  }

  lemma {:induction false} PutKeys(ms: seq<Member>, key: string, val: Value, k: string)
    ensures (exists m :: m in Put(ms, key, val) && m.key == k) <==> k == key || exists m :: m in ms && m.key == k
  {
    var r := Put(ms, key, val);
    if ms == [] {
      assert r[0] == Member(key, val);
    } else {
      PutKeys(ms[1..], key, val, k);
      assert ms == [ms[0]] + ms[1..];
      assert r == [Member(key, val)] + ms[1..] || r == [Member(key, val)] + ms || r == [ms[0]] + Put(ms[1..], key, val);
      if k == key {
        if ms[0].key == key || StrLess(key, ms[0].key) {
          assert r[0].key == k;
        } else {
          var m :| m in Put(ms[1..], key, val) && m.key == k;
          assert m in r;
        }
      }
    }
  }

  // std::map stays ordered, and finds what was put last under a key
  lemma {:induction false} PutAscending(ms: seq<Member>, key: string, val: Value)
    requires Ascending(ms)
    ensures Ascending(Put(ms, key, val)) && Lookup(Put(ms, key, val), key) == val
  {
    var r := Put(ms, key, val);
    if ms != [] {
      StrTrichotomy(ms[0].key, key);
      if ms[0].key == key {
        assert r == [Member(key, val)] + ms[1..];
      } else if StrLess(key, ms[0].key) {
        forall j | 0 <= j < |ms| ensures StrLess(key, ms[j].key) {
          if j > 0 {
            StrTransitive(key, ms[0].key, ms[j].key);
          }
        }
      } else {
        PutAscending(ms[1..], key, val);
        var u := Put(ms[1..], key, val);
        forall j | 0 <= j < |u| ensures StrLess(ms[0].key, u[j].key) {
          PutKeys(ms[1..], key, val, u[j].key);
          assert u[j] in u;
        }
      }
    }
  }

  // What was put is found under its key, and every other key leads where it led before
  lemma {:induction false} PutLookup(ms: seq<Member>, key: string, val: Value, k: string)
    ensures Lookup(Put(ms, key, val), k) == if k == key then val else Lookup(ms, k)
  {
    if ms != [] {
      PutLookup(ms[1..], key, val, k);
      assert ([Member(key, val)] + ms)[1..] == ms && ([Member(key, val)] + ms[1..])[1..] == ms[1..];
      assert ([ms[0]] + Put(ms[1..], key, val))[1..] == Put(ms[1..], key, val);
    }
  }

  ghost predicate HasKey(ms: seq<Member>, k: string) { exists m :: m in ms && m.key == k }

  // One member after the other
  function PutAll(before: seq<Member>, ms: seq<Member>): seq<Member>
    decreases |ms|
  {
    if ms == [] then before else PutAll(Put(before, ms[0].key, ms[0].val), ms[1..])
  }

  lemma {:induction false} PutAllAscending(before: seq<Member>, ms: seq<Member>)
    requires Ascending(before)
    ensures Ascending(PutAll(before, ms))
    decreases |ms|
  {
    if ms != [] {
      PutAscending(before, ms[0].key, ms[0].val);
      PutAllAscending(Put(before, ms[0].key, ms[0].val), ms[1..]);
    }
  }

  // Members in order stay as they are
  lemma {:induction false} PutAllInOrder(before: seq<Member>, ms: seq<Member>)
    requires Ascending(before + ms)
    ensures PutAll(before, ms) == before + ms
    decreases |ms|
  {
    if ms == [] {
      assert before + ms == before;
    } else {
      var x, all := ms[0], before + ms;
      assert all[|before|] == x;
      forall i | 0 <= i < |before| ensures StrLess(before[i].key, x.key) {
        assert all[i] == before[i];
      }
      PutLast(before, x.key, x.val);
      assert before + [x] + ms[1..] == all;
      PutAllInOrder(before + [x], ms[1..]);
    }
  }

  // Each key leads to the value that was put last under it
  lemma {:induction false} PutAllLookup(before: seq<Member>, ms: seq<Member>, k: string)
    ensures !HasKey(ms, k) ==> Lookup(PutAll(before, ms), k) == Lookup(before, k)
    ensures forall i :: 0 <= i < |ms| && ms[i].key == k && (forall j :: i < j < |ms| ==> ms[j].key != k) ==>
      Lookup(PutAll(before, ms), k) == ms[i].val
    ensures HasKey(PutAll(before, ms), k) <==> HasKey(before, k) || HasKey(ms, k)
    decreases |ms|
  {
    if ms != [] {
      var x, next := ms[0], Put(before, ms[0].key, ms[0].val);
      PutLookup(before, x.key, x.val, k);
      PutKeys(before, x.key, x.val, k);
      PutAllLookup(next, ms[1..], k);
      HasKeyCons(x, ms[1..], k);
      assert ms == [x] + ms[1..];
      forall i | 0 <= i < |ms| && ms[i].key == k && (forall j :: i < j < |ms| ==> ms[j].key != k)
        ensures Lookup(PutAll(before, ms), k) == ms[i].val
      {
        if i > 0 {
          assert ms[1..][i - 1] == ms[i];
          assert forall j :: i - 1 < j < |ms| - 1 ==> ms[1..][j] == ms[j + 1];
        } else {
          assert forall j :: 0 <= j < |ms| - 1 ==> ms[1..][j] == ms[j + 1];
        }
      }
    }
  }

  lemma HasKeyCons(x: Member, ms: seq<Member>, k: string)
    ensures HasKey([x] + ms, k) <==> x.key == k || HasKey(ms, k)
  {
    assert x in [x] + ms;
    assert forall m :: m in ms ==> m in [x] + ms;
  }

  // ---------- Order ----------

  function TypeOf(v: Value): nat {
    match v
    case Null => 0
    case Int(_) => 1
    case UInt(_) => 2
    case Real(_) => 3
    case Str(_) => 4
    case Bool(_) => 5
    case Arr(_) => 6
    case Obj(_) => 7
  }

  ghost predicate NoReals(v: Value) {
    match v
    case Real(_) => false
    case Arr(es) => forall i :: 0 <= i < |es| ==> NoReals(es[i])
    case Obj(ms) => forall i :: 0 <= i < |ms| ==> NoReals(ms[i].val)
    case _ => true
  }

  ghost function Size(v: Value): nat
    decreases v, 1
  {
    match v
    case Arr(es) => 1 + SizeElems(es)
    case Obj(ms) => 1 + SizeMembers(ms)
    case _ => 1
  }
  ghost function SizeElems(es: seq<Value>): nat
    decreases es, 0
  {
    if es == [] then 0 else 1 + Size(es[0]) + SizeElems(es[1..])
  }
  ghost function SizeMembers(ms: seq<Member>): nat
    decreases ms, 0
  {
    if ms == [] then 0 else 1 + Size(ms[0].val) + SizeMembers(ms[1..])
  }

  // Value::operator<: type, then content; containers by size, then entry by entry
  ghost predicate Less(a: Value, b: Value)
    requires NoReals(a) && NoReals(b)
    decreases Size(a) + Size(b), 0
  {
    if TypeOf(a) != TypeOf(b) then TypeOf(a) < TypeOf(b) else
    match a
    case Null => false
    case Int(i) => i < b.i
    case UInt(u) => u < b.u
    case Str(s) => StrLess(s, b.s)
    case Bool(x) => !x && b.b
    case Arr(es) => if |es| != |b.elems| then |es| < |b.elems| else LessElems(es, b.elems)
    case Obj(ms) => if |ms| != |b.members| then |ms| < |b.members| else LessMembers(ms, b.members)
  }

  // std::lexicographical_compare over the entries of two arrays, whose keys are the same indices
  ghost predicate LessElems(xs: seq<Value>, ys: seq<Value>)
    requires |xs| == |ys|
    requires forall i :: 0 <= i < |xs| ==> NoReals(xs[i]) && NoReals(ys[i])
    decreases SizeElems(xs) + SizeElems(ys)
  {
    if xs == [] then false
    else if Less(xs[0], ys[0]) then true
    else if Less(ys[0], xs[0]) then false
    else LessElems(xs[1..], ys[1..])
  }

  // operator< of std::pair
  ghost predicate LessMember(x: Member, y: Member)
    requires NoReals(x.val) && NoReals(y.val)
    decreases Size(x.val) + Size(y.val), 1
  {
    StrLess(x.key, y.key) || (!StrLess(y.key, x.key) && Less(x.val, y.val))
  }

  ghost predicate LessMembers(xs: seq<Member>, ys: seq<Member>)
    requires |xs| == |ys|
    requires forall i :: 0 <= i < |xs| ==> NoReals(xs[i].val) && NoReals(ys[i].val)
    decreases SizeMembers(xs) + SizeMembers(ys)
  {
    if xs == [] then false
    else if LessMember(xs[0], ys[0]) then true
    else if LessMember(ys[0], xs[0]) then false
    else LessMembers(xs[1..], ys[1..])
  }

  // Value::operator==
  ghost predicate Equal(a: Value, b: Value)
    requires NoReals(a) && NoReals(b)
    decreases a, 1
  {
    TypeOf(a) == TypeOf(b) &&
    match a
    case Null => true
    case Int(i) => i == b.i
    case UInt(u) => u == b.u
    case Str(s) => s == b.s
    case Bool(x) => x == b.b
    case Arr(es) => |es| == |b.elems| && EqualElems(es, b.elems)
    case Obj(ms) => |ms| == |b.members| && EqualMembers(ms, b.members)
  }
  ghost predicate EqualElems(xs: seq<Value>, ys: seq<Value>)
    requires |xs| == |ys|
    requires forall i :: 0 <= i < |xs| ==> NoReals(xs[i]) && NoReals(ys[i])
    decreases xs, 0
  {
    xs == [] || (Equal(xs[0], ys[0]) && EqualElems(xs[1..], ys[1..]))
  }
  ghost predicate EqualMembers(xs: seq<Member>, ys: seq<Member>)
    requires |xs| == |ys|
    requires forall i :: 0 <= i < |xs| ==> NoReals(xs[i].val) && NoReals(ys[i].val)
    decreases xs, 0
  {
    xs == [] || (xs[0].key == ys[0].key && Equal(xs[0].val, ys[0].val) && EqualMembers(xs[1..], ys[1..]))
  }

  // operator== is equality of the whole trees
  lemma {:induction false} EqualIsEquality(a: Value, b: Value)
    requires NoReals(a) && NoReals(b)
    ensures Equal(a, b) <==> a == b
    decreases a, 1
  {
    if TypeOf(a) == TypeOf(b) {
      match a
      case Arr(es) => if |es| == |b.elems| { EqualElemsIsEquality(es, b.elems); }
      case Obj(ms) => if |ms| == |b.members| { EqualMembersIsEquality(ms, b.members); }
      case _ =>
    }
  }
  lemma {:induction false} EqualElemsIsEquality(xs: seq<Value>, ys: seq<Value>)
    requires |xs| == |ys|
    requires forall i :: 0 <= i < |xs| ==> NoReals(xs[i]) && NoReals(ys[i])
    ensures EqualElems(xs, ys) <==> xs == ys
    decreases xs, 0
  {
    if xs != [] {
      EqualIsEquality(xs[0], ys[0]);
      EqualElemsIsEquality(xs[1..], ys[1..]);
      assert xs == [xs[0]] + xs[1..] && ys == [ys[0]] + ys[1..];
    }
  }
  lemma {:induction false} EqualMembersIsEquality(xs: seq<Member>, ys: seq<Member>)
    requires |xs| == |ys|
    requires forall i :: 0 <= i < |xs| ==> NoReals(xs[i].val) && NoReals(ys[i].val)
    ensures EqualMembers(xs, ys) <==> xs == ys
    decreases xs, 0
  {
    if xs != [] {
      EqualIsEquality(xs[0].val, ys[0].val);
      EqualMembersIsEquality(xs[1..], ys[1..]);
      assert xs == [xs[0]] + xs[1..] && ys == [ys[0]] + ys[1..];
    }
  }

  // Exactly one of a < b, a == b, b < a
  lemma {:induction false} Trichotomy(a: Value, b: Value)
    requires NoReals(a) && NoReals(b)
    ensures Less(a, b) ==> !Less(b, a) && a != b
    ensures Less(a, b) || a == b || Less(b, a)
    decreases a, 1
  {
    if TypeOf(a) == TypeOf(b) {
      match a
      case Str(s) => StrTrichotomy(s, b.s);
      case Arr(es) => if |es| == |b.elems| { TrichotomyElems(es, b.elems); }
      case Obj(ms) => if |ms| == |b.members| { TrichotomyMembers(ms, b.members); }
      case _ =>
    }
  }
  lemma {:induction false} TrichotomyElems(xs: seq<Value>, ys: seq<Value>)
    requires |xs| == |ys|
    requires forall i :: 0 <= i < |xs| ==> NoReals(xs[i]) && NoReals(ys[i])
    ensures LessElems(xs, ys) ==> !LessElems(ys, xs) && xs != ys
    ensures LessElems(xs, ys) || xs == ys || LessElems(ys, xs)
    decreases xs, 0
  {
    if xs != [] {
      Trichotomy(xs[0], ys[0]);
      TrichotomyElems(xs[1..], ys[1..]);
      assert xs == [xs[0]] + xs[1..] && ys == [ys[0]] + ys[1..];
    }
  }
  lemma {:induction false} TrichotomyMembers(xs: seq<Member>, ys: seq<Member>)
    requires |xs| == |ys|
    requires forall i :: 0 <= i < |xs| ==> NoReals(xs[i].val) && NoReals(ys[i].val)
    ensures LessMembers(xs, ys) ==> !LessMembers(ys, xs) && xs != ys
    ensures LessMembers(xs, ys) || xs == ys || LessMembers(ys, xs)
    decreases xs, 0
  {
    if xs != [] {
      MemberTrichotomy(xs[0], ys[0]);
      TrichotomyMembers(xs[1..], ys[1..]);
      assert xs == [xs[0]] + xs[1..] && ys == [ys[0]] + ys[1..];
    }
  }

  lemma {:induction false} Transitive(a: Value, b: Value, c: Value)
    requires NoReals(a) && NoReals(b) && NoReals(c) && Less(a, b) && Less(b, c)
    ensures Less(a, c)
    decreases a, 1
  {
    if TypeOf(a) == TypeOf(b) == TypeOf(c) {
      match a
      case Str(s) => StrTransitive(s, b.s, c.s);
      case Arr(es) =>
        if |es| == |b.elems| == |c.elems| {
          TransitiveElems(es, b.elems, c.elems);
        }
      case Obj(ms) =>
        if |ms| == |b.members| == |c.members| {
          TransitiveMembers(ms, b.members, c.members);
        }
      case _ =>
    }
  }
  lemma {:induction false} TransitiveElems(xs: seq<Value>, ys: seq<Value>, zs: seq<Value>)
    requires |xs| == |ys| == |zs|
    requires forall i :: 0 <= i < |xs| ==> NoReals(xs[i]) && NoReals(ys[i]) && NoReals(zs[i])
    requires LessElems(xs, ys) && LessElems(ys, zs)
    ensures LessElems(xs, zs)
    decreases xs, 0
  {
    var x, y, z := xs[0], ys[0], zs[0];
    Trichotomy(x, y);
    Trichotomy(y, z);
    Trichotomy(x, z);
    if Less(x, y) && Less(y, z) {
      Transitive(x, y, z);
    } else if x == y && y == z {
      TransitiveElems(xs[1..], ys[1..], zs[1..]);
    }
  }
  lemma {:induction false} TransitiveMembers(xs: seq<Member>, ys: seq<Member>, zs: seq<Member>)
    requires |xs| == |ys| == |zs|
    requires forall i :: 0 <= i < |xs| ==> NoReals(xs[i].val) && NoReals(ys[i].val) && NoReals(zs[i].val)
    requires LessMembers(xs, ys) && LessMembers(ys, zs)
    ensures LessMembers(xs, zs)
    decreases xs, 0
  {
    var x, y, z := xs[0], ys[0], zs[0];
    MemberTrichotomy(x, y);
    MemberTrichotomy(y, z);
    MemberTrichotomy(x, z);
    if LessMember(x, y) && LessMember(y, z) {
      StrTrichotomy(x.key, y.key);
      StrTrichotomy(y.key, z.key);
      if StrLess(x.key, y.key) && StrLess(y.key, z.key) {
        StrTransitive(x.key, y.key, z.key);
      } else if x.key == y.key == z.key {
        Transitive(x.val, y.val, z.val);
      }
    } else if x == y && y == z {
      TransitiveMembers(xs[1..], ys[1..], zs[1..]);
    }
  }
  lemma {:induction false} MemberTrichotomy(x: Member, y: Member)
    requires NoReals(x.val) && NoReals(y.val)
    ensures LessMember(x, y) ==> !LessMember(y, x) && x != y
    ensures LessMember(x, y) || x == y || LessMember(y, x)
    decreases x, 0
  {
    StrTrichotomy(x.key, y.key);
    Trichotomy(x.val, y.val);
  }
}
