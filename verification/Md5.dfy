/**
  The streaming part of libconhash/md5.c against one-shot padding and folding
  (sections 3.1 to 3.5 of RFC 1321).  The block function is any function.
 */
module Md5 {
  type Byte = b: int | 0 <= b < 256
  type Word = w: int | 0 <= w < 0x1_0000_0000

  const TWO_32 := 0x1_0000_0000
  const TWO_64 := 0x1_0000_0000_0000_0000
  const INT_MAX := 0x7FFF_FFFF

  datatype Registers = Registers(a: Word, b: Word, c: Word, d: Word)

  const START := Registers(0x67452301, 0xefcdab89, 0x98badcfe, 0x10325476)

  type Block = s: seq<Byte> | |s| == 64 witness seq(64, _ => 0)

  type Compress = (Registers, Block) -> Registers

  // ---------- The digest of a whole message ----------

  ghost function Fold(f: Compress, r: Registers, s: seq<Byte>): Registers
    requires |s| % 64 == 0
    decreases |s|
  {
    if s == [] then r else Fold(f, f(r, s[..64]), s[64..])
  }

  // Little-endian bytes
  function WordBytes(w: Word): (r: seq<Byte>)
    ensures |r| == 4
  {
    [w % 0x100, w / 0x100 % 0x100, w / 0x1_0000 % 0x100, w / 0x100_0000]
  }

  function Zeros(n: nat): (r: seq<Byte>)
    ensures |r| == n && forall i :: 0 <= i < n ==> r[i] == 0
  {
    if n == 0 then [] else Zeros(n - 1) + [0]
  }

  // A one bit, then zero bits up to 56 bytes modulo 64 (section 3.1)
  ghost function Padding(length: nat): (r: seq<Byte>)
    ensures 1 <= |r| <= 64 && (length + |r|) % 64 == 56
  {
    [0x80] + Zeros((55 - length) % 64)
  }

  // The length in bits, modulo 2^64 (section 3.2)
  ghost function LengthBytes(length: nat): (r: seq<Byte>)
    ensures |r| == 8
  {
    var bits := 8 * length % TWO_64;
    WordBytes(bits % TWO_32) + WordBytes(bits / TWO_32)
  }

  ghost function Padded(m: seq<Byte>): (r: seq<Byte>)
    ensures |r| % 64 == 0
  {
    Whole(|m| + |Padding(|m|)|, 8);
    m + Padding(|m|) + LengthBytes(|m|)
  }

  // What fills up the last block
  lemma Whole(n: nat, k: nat)
    requires n % 64 + k == 64
    ensures (n + k) % 64 == 0 && n + k == n - n % 64 + 64
  {
  }

  lemma NextBlock(k: nat)
    requires k % 64 == 0
    ensures (k + 64) % 64 == 0
  {
  }

  lemma LastBlock(k: nat, left: nat)
    requires k % 64 == 0 && left < 64
    ensures k + left - (k + left) % 64 == k
  {
  }

  function RegisterBytes(r: Registers): (s: seq<Byte>)
    ensures |s| == 16
  {
    WordBytes(r.a) + WordBytes(r.b) + WordBytes(r.c) + WordBytes(r.d)
  }

  ghost function Digest(f: Compress, m: seq<Byte>): seq<Byte> {
    RegisterBytes(Fold(f, START, Padded(m)))
  }

  lemma {:induction false} FoldLast(f: Compress, r: Registers, s: seq<Byte>, block: Block)
    requires |s| % 64 == 0
    ensures Fold(f, r, s + block) == f(Fold(f, r, s), block)
    decreases |s|
  {
    if s == [] {
      assert s + block == block;
      assert block[..64] == block && block[64..] == [];
    } else {
      assert (s + block)[..64] == s[..64] && (s + block)[64..] == s[64..] + block;
      FoldLast(f, f(r, s[..64]), s[64..], block);
    }
  }

  lemma {:induction false} WordBytesInjective(v: Word, w: Word)
    requires WordBytes(v) == WordBytes(w)
    ensures v == w
  {
    assert WordBytes(v)[0] == WordBytes(w)[0] && WordBytes(v)[1] == WordBytes(w)[1];
    assert WordBytes(v)[2] == WordBytes(w)[2] && WordBytes(v)[3] == WordBytes(w)[3];
    WordFromBytes(v);
    WordFromBytes(w);
  }

  lemma WordFromBytes(w: Word)
    ensures w == w % 0x100 + 0x100 * (w / 0x100 % 0x100) + 0x1_0000 * (w / 0x1_0000 % 0x100)
      + 0x100_0000 * (w / 0x100_0000)
  {
    var a, b, c := w / 0x100, w / 0x1_0000, w / 0x100_0000;
    assert a == 0x100 * b + a % 0x100;
    assert b == 0x100 * c + b % 0x100;
  }

  lemma LengthInjective(k: nat, n: nat)
    requires LengthBytes(k) == LengthBytes(n) && k < 0x2000_0000_0000_0000 && n < 0x2000_0000_0000_0000
    ensures k == n
  {
    var x, y := 8 * k % TWO_64, 8 * n % TWO_64;
    assert LengthBytes(k)[..4] == WordBytes(x % TWO_32) && LengthBytes(k)[4..] == WordBytes(x / TWO_32);
    assert LengthBytes(n)[..4] == WordBytes(y % TWO_32) && LengthBytes(n)[4..] == WordBytes(y / TWO_32);
    WordBytesInjective(x % TWO_32, y % TWO_32);
    WordBytesInjective(x / TWO_32, y / TWO_32);
  }

  // Different messages, below 2^61 bytes, are padded to different texts
  lemma PaddedInjective(m: seq<Byte>, n: seq<Byte>)
    requires |m| < 0x2000_0000_0000_0000 && |n| < 0x2000_0000_0000_0000
    requires Padded(m) == Padded(n)
    ensures m == n
  {
    var p, q := Padded(m), Padded(n);
    assert p[|p| - 8..] == LengthBytes(|m|) && q[|q| - 8..] == LengthBytes(|n|);
    LengthInjective(|m|, |n|);
    assert p[..|m|] == m && q[..|n|] == n;
  }

  // ---------- What the bytes denote ----------

  // The number that bytes denote, the low one first
  ghost function LittleEndian(s: seq<Byte>): nat {
    if s == [] then 0 else s[0] + 0x100 * LittleEndian(s[1..])
  }

  ghost function Pow256(k: nat): (p: nat)
    ensures p >= 1
  {
    if k == 0 then 1 else 0x100 * Pow256(k - 1)
  }

  lemma FarFromZero(d: int, k: int)
    requires d > 0 && k != 0
    ensures d * k >= d || d * k <= -d
  {
    assert d * k - d == d * (k - 1) && d * k + d == d * (k + 1);
    assert k >= 1 ==> d * (k - 1) >= 0;
    assert k <= -1 ==> d * (-1 - k) >= 0;
  }

  lemma SameQuotient(d: int, q: int, r: int, q': int, r': int)
    requires 0 <= r < d && 0 <= r' < d && d * q + r == d * q' + r'
    ensures q == q'
  {
    assert d * (q - q') == d * q - d * q';
    if q != q' {
      FarFromZero(d, q - q');
    }
  }

  lemma DivideTwice(x: nat, p: nat)
    requires p >= 1
    ensures x / 0x100 / p == x / (0x100 * p)
  {
    var a := x / 0x100;
    var q, r := a / p, a % p;
    var low := 0x100 * r + x % 0x100;
    assert x == 0x100 * (p * q + r) + x % 0x100 == 0x100 * p * q + low;
    var d := 0x100 * p;
    SameQuotient(d, q, low, x / d, x % d);
  }

  lemma {:induction false} LittleEndianAt(s: seq<Byte>, k: nat)
    requires k < |s|
    ensures s[k] == LittleEndian(s) / Pow256(k) % 0x100
  {
    if k > 0 {
      LittleEndianAt(s[1..], k - 1);
      assert LittleEndian(s) / 0x100 == LittleEndian(s[1..]);
      DivideTwice(LittleEndian(s), Pow256(k - 1));
    }
  }

  // The bytes of a word, low byte first, make up the word
  lemma WordBytesDenote(w: Word)
    ensures LittleEndian(WordBytes(w)) == w
  {
    var r := WordBytes(w);
    assert r[1..][1..] == r[2..] && r[2..][1..] == r[3..] && r[3..][1..] == [];
    assert LittleEndian(r[3..]) == r[3] && LittleEndian(r[2..]) == r[2] + 0x100 * LittleEndian(r[3..]);
    assert LittleEndian(r[1..]) == r[1] + 0x100 * LittleEndian(r[2..]);
    WordFromBytes(w);
  }

  lemma {:induction false} LittleEndianConcat(s: seq<Byte>, t: seq<Byte>)
    ensures LittleEndian(s + t) == LittleEndian(s) + Pow256(|s|) * LittleEndian(t)
  {
    if s == [] {
      assert s + t == t;
    } else {
      LittleEndianConcat(s[1..], t);
      assert (s + t)[1..] == s[1..] + t;
      assert Pow256(|s|) * LittleEndian(t) == 0x100 * (Pow256(|s| - 1) * LittleEndian(t));
    }
  }

  // The last eight bytes of the padded message: its length in bits modulo 2^64, low byte first
  lemma LengthBytesDenote(length: nat)
    ensures LittleEndian(LengthBytes(length)) == 8 * length % TWO_64
    ensures forall k :: 0 <= k < 8 ==> LengthBytes(length)[k] == 8 * length % TWO_64 / Pow256(k) % 0x100
  {
    var bits := 8 * length % TWO_64;
    WordBytesDenote(bits % TWO_32);
    WordBytesDenote(bits / TWO_32);
    LittleEndianConcat(WordBytes(bits % TWO_32), WordBytes(bits / TWO_32));
    assert Pow256(4) == TWO_32;
    assert LittleEndian(LengthBytes(length)) == bits;
    forall k | 0 <= k < 8 ensures LengthBytes(length)[k] == bits / Pow256(k) % 0x100 {
      LittleEndianAt(LengthBytes(length), k);
    }
  }

  // The message, a byte with its high bit set, as few zeros as fill a block, and the length
  lemma PaddedIs(m: seq<Byte>)
    ensures var p, n := Padded(m), |m|;
      && n + 9 <= |p| < n + 9 + 64 && |p| % 64 == 0
      && p[..n] == m && p[n] == 0x80 && (forall i :: n < i < |p| - 8 ==> p[i] == 0)
      && LittleEndian(p[|p| - 8..]) == 8 * n % TWO_64
  {
    var p, pad := Padded(m), Padding(|m|);
    LengthBytesDenote(|m|);
    assert p[|p| - 8..] == LengthBytes(|m|);
    assert forall i :: 0 <= i < |pad| ==> p[|m| + i] == pad[i];
    assert forall i :: |m| < i < |p| - 8 ==> p[i] == pad[i - |m|];
  }

  // The four registers one after the other, the low byte of each first
  lemma RegisterBytesDenote(r: Registers)
    ensures var s := RegisterBytes(r);
      && LittleEndian(s[..4]) == r.a && LittleEndian(s[4..8]) == r.b
      && LittleEndian(s[8..12]) == r.c && LittleEndian(s[12..]) == r.d
  {
    var s := RegisterBytes(r);
    assert s[..4] == WordBytes(r.a) && s[4..8] == WordBytes(r.b);
    assert s[8..12] == WordBytes(r.c) && s[12..] == WordBytes(r.d);
    WordBytesDenote(r.a);
    WordBytesDenote(r.b);
    WordBytesDenote(r.c);
    WordBytesDenote(r.d);
  }

  // The registers at the start, as section 3.3 of RFC 1321 writes them
  lemma StartBytes()
    ensures RegisterBytes(START) == [
      0x01, 0x23, 0x45, 0x67, 0x89, 0xab, 0xcd, 0xef, 0xfe, 0xdc, 0xba, 0x98, 0x76, 0x54, 0x32, 0x10]
  {
  }

  // ---------- The bit count in two words ----------

  lemma CountStep(length: nat, n: nat)
    ensures var c0, c1 := 8 * length % TWO_32, 8 * length / TWO_32 % TWO_32;
      var bits := 8 * n % TWO_32;
      var s0 := (c0 + bits) % TWO_32;
      && s0 == 8 * (length + n) % TWO_32
      && (c1 + n / 0x2000_0000 + if s0 < bits then 1 else 0) % TWO_32 == 8 * (length + n) / TWO_32 % TWO_32
  {
    var c0, bits := 8 * length % TWO_32, 8 * n % TWO_32;
    Carry(8 * length / TWO_32, c0, n / 0x2000_0000, bits);
    assert 8 * n == n / 0x2000_0000 * TWO_32 + bits;
  }

  // Two numbers of two words each, the upper words of any size
  lemma Carry(h: nat, l: Word, h': nat, l': Word)
    ensures var s := (h * TWO_32 + l) + (h' * TWO_32 + l');
      && s % TWO_32 == (l + l') % TWO_32
      && s / TWO_32 == h + h' + if (l + l') % TWO_32 < l' then 1 else 0
  {
  }

  lemma NextModulo(a: nat)
    ensures (a % TWO_32 + 1) % TWO_32 == (a + 1) % TWO_32
  {
  }

  lemma CountOffset(length: nat)
    ensures 8 * length % TWO_32 / 8 % 64 == length % 64
    ensures (55 - 8 * length % TWO_32 / 8) % 64 == (55 - length) % 64
  {
    Bytes(length);
    OffsetOf(length);
  }

  lemma Bytes(length: nat)
    ensures 8 * length % TWO_32 / 8 == length % 0x2000_0000
  {
    var q, r := length / 0x2000_0000, length % 0x2000_0000;
    assert 8 * length == TWO_32 * q + 8 * r;
  }

  lemma OffsetOf(length: nat)
    ensures length % 0x2000_0000 % 64 == length % 64
    ensures (55 - length % 0x2000_0000) % 64 == (55 - length) % 64
  {
    var q, r := length / 0x2000_0000, length % 0x2000_0000;
    var k := 0x80_0000 * q;
    assert length == 64 * k + r;
    Shifted(r, k);
    Shifted(55 - length, k);
  }

  lemma Shifted(x: int, k: int)
    ensures (64 * k + x) % 64 == x % 64
  {
  }

  lemma CountWords(length: nat)
    ensures 8 * length % TWO_64 % TWO_32 == 8 * length % TWO_32
    ensures 8 * length % TWO_64 / TWO_32 == 8 * length / TWO_32 % TWO_32
  {
  }

  // ---------- md5_state_t ----------

  class State {
    const process: Compress
    var count0: Word
    var count1: Word
    var abcd: Registers
    const buf: array<Byte>
    ghost var message: seq<Byte>  // everything appended so far

    // How much of the message has been folded in
    ghost function Folded(): nat
      reads this
    {
      |message| - |message| % 64
    }

    ghost predicate Valid()
      reads this, buf
    {
      && buf.Length == 64
      && count0 == 8 * |message| % TWO_32 && count1 == 8 * |message| / TWO_32 % TWO_32
      && abcd == Fold(process, START, message[..Folded()])
      && buf[..|message| % 64] == message[Folded()..]
    }

    // md5_init
    constructor (process: Compress)
      ensures Valid() && this.process == process && message == [] && fresh(buf)
    {
      this.process := process;
      count0, count1, abcd := 0, 0, START;
      buf := new Byte[64](_ => 0);
      message := [];
    }

    // `count` counts the bits of the message modulo 2^64
    lemma CountsBits()
      requires Valid()
      ensures count0 + TWO_32 * count1 == 8 * |message| % TWO_64
    {
      CountWords(|message|);
    }

    // memcpy
    method CopyIn(offset: nat, data: seq<Byte>)
      requires offset + |data| <= buf.Length
      modifies buf
      ensures buf[offset..offset + |data|] == data
      ensures buf[..offset] == old(buf[..offset])
    {
      var i := 0;
      while i < |data|
        invariant i <= |data| && buf[offset..offset + i] == data[..i] && buf[..offset] == old(buf[..offset])
      {
        buf[offset + i] := data[i];
        i := i + 1;
      }
    }

    method UpdateCount(n: nat)
      requires n <= INT_MAX && count0 == 8 * |message| % TWO_32 && count1 == 8 * |message| / TWO_32 % TWO_32
      modifies this`count0, this`count1
      ensures count0 == 8 * (|message| + n) % TWO_32 && count1 == 8 * (|message| + n) / TWO_32 % TWO_32
    {
      CountStep(|message|, n);
      NextModulo(count1 + n / 0x2000_0000);
      assert (count1 + n / 0x2000_0000 + 0) % TWO_32 == (count1 + n / 0x2000_0000) % TWO_32;
      var nbits := 8 * n % TWO_32;
      var carry := n / 0x2000_0000;
      count1 := (count1 + carry) % TWO_32;
      count0 := (count0 + nbits) % TWO_32;
      if count0 < nbits {
        count1 := (count1 + 1) % TWO_32;
      }
    }

    /** md5_append, where `nbytes` is an int and so is the sum of it and the offset */
    method Append(data: seq<Byte>)
      requires Valid() && |message| % 64 + |data| <= INT_MAX
      modifies this, buf
      ensures Valid() && message == old(message) + data
    {
      CountOffset(|message|);
      var offset := count0 / 8 % 64;
      if |data| == 0 {
        assert message + data == message;
        return;
      }
      UpdateCount(|data|);
      var p := 0;
      if offset != 0 {
        var full;
        p, full := FillBlock(data, offset);
        if !full {
          return;
        }
      } else {
        assert (message + data)[..|message|] == message == message[..Folded()];
      }
      AppendBlocks(data, p, message + data);
    }

    // `count` is ahead of the message by the length of the data
    ghost predicate Counted(data: seq<Byte>)
      reads this, buf
    {
      && buf.Length == 64
      && count0 == 8 * |message + data| % TWO_32 && count1 == 8 * |message + data| / TWO_32 % TWO_32
      && abcd == Fold(process, START, message[..Folded()])
      && buf[..|message| % 64] == message[Folded()..]
    }

    // An initial partial block: `p` bytes of the data go into it
    method FillBlock(data: seq<Byte>, offset: nat) returns (p: nat, full: bool)
      requires Counted(data) && offset == |message| % 64 && offset != 0 && data != []
      modifies this, buf
      ensures count0 == old(count0) && count1 == old(count1)
      ensures !full ==> Valid() && message == old(message) + data
      ensures full ==> message == old(message) && p <= |data| && (|message| + p) % 64 == 0
      ensures full ==> abcd == Fold(process, START, (message + data)[..|message| + p])
    {
      hide Fold, Valid, Counted;
      ghost var all, k := message + data, Folded();
      var copy := if offset + |data| > 64 then 64 - offset else |data|;
      FillIn(data, offset, copy);
      Unfolded(data);
      p, full := copy, offset + copy >= 64;
      if !full {
        assert all[k..|message| + copy] == all[k..];
        TakeAll(data);
        return;
      }
      Whole(|message|, copy);
      FoldBuffer(all, k);
    }

    // All of the data is in the buffer
    ghost method TakeAll(data: seq<Byte>)
      requires Counted(data) && |message| % 64 + |data| < 64
      requires buf[..|message| % 64 + |data|] == (message + data)[Folded()..]
      modifies this`message
      ensures Valid() && message == old(message) + data
    {
      hide Fold;
      StillPartial(message, data);
      assert (message + data)[..Folded()] == message[..Folded()];
      message := message + data;
    }

    // The full buffer is the next block of the message
    method FoldBuffer(ghost all: seq<Byte>, ghost k: nat)
      requires k % 64 == 0 && k + 64 <= |all| && buf.Length == 64 && buf[..] == all[k..k + 64]
      requires abcd == Fold(process, START, all[..k])
      modifies this`abcd
      ensures abcd == Fold(process, START, all[..k + 64])
    {
      FoldNext(all, k);
      abcd := process(abcd, buf[..]);
    }

    // Part of the data goes into the buffer, behind what is there
    method FillIn(data: seq<Byte>, offset: nat, copy: nat)
      requires Counted(data) && offset == |message| % 64 && 0 < copy <= |data| && offset + copy <= 64
      modifies buf
      ensures var all, k := message + data, Folded();
        all[..k] == message[..k] && buf[..offset + copy] == all[k..|message| + copy]
      ensures Counted(data)
      ensures offset + copy == 64 ==> buf[..] == (message + data)[Folded()..|message| + copy]
    {
      hide Fold;
      Filled(message, data, copy);
      CopyIn(offset, data[..copy]);
      assert buf[..offset + copy] == buf[..offset] + buf[offset..offset + copy];
      assert buf[..64] == buf[..];
      assert buf[..offset + copy][..offset] == buf[..offset];
    }

    lemma Unfolded(data: seq<Byte>)
      requires Counted(data)
      ensures buf.Length == 64 && abcd == Fold(process, START, message[..Folded()])
    {
    }

    lemma StillPartial(m: seq<Byte>, data: seq<Byte>)
      requires |m| % 64 + |data| < 64
      ensures |m + data| % 64 == |m| % 64 + |data| && |m + data| - |m + data| % 64 == |m| - |m| % 64
    {
    }

    // The bytes that complete the partial block, or lengthen it
    lemma Filled(m: seq<Byte>, data: seq<Byte>, copy: nat)
      requires 0 < copy <= |data| && |m| % 64 + copy <= 64
      ensures var k := |m| - |m| % 64; var all := m + data;
        all[..k] == m[..k] && all[k..|m| + copy] == m[k..] + data[..copy]
    {
    }

    lemma FoldNext(all: seq<Byte>, k: nat)
      requires k % 64 == 0 && k + 64 <= |all|
      ensures (k + 64) % 64 == 0 && Fold(process, START, all[..k + 64])
        == process(Fold(process, START, all[..k]), all[k..k + 64])
    {
      NextBlock(k);
      FoldLast(process, START, all[..k], all[k..k + 64]);
      assert all[..k] + all[k..k + 64] == all[..k + 64];
    }

    lemma Behind(m: seq<Byte>, data: seq<Byte>, i: nat, j: nat)
      requires i <= j <= |data|
      ensures (m + data)[|m| + i..|m| + j] == data[i..j]
    {
    }

    // Full blocks straight from the data, then what is left over
    method AppendBlocks(data: seq<Byte>, start: nat, ghost all: seq<Byte>)
      requires buf.Length == 64 && start <= |data| && all == message + data && (|message| + start) % 64 == 0
      requires count0 == 8 * |all| % TWO_32 && count1 == 8 * |all| / TWO_32 % TWO_32
      requires abcd == Fold(process, START, all[..|message| + start])
      modifies this, buf
      ensures Valid() && message == all
    {
      hide Fold;
      var p, left := start, |data| - start;
      ghost var n := |message|;
      while left >= 64
        invariant 0 <= p && 0 <= left && p + left == |data| && (n + p) % 64 == 0 && message == old(message)
        invariant count0 == 8 * |all| % TWO_32 && count1 == 8 * |all| / TWO_32 % TWO_32
        invariant abcd == Fold(process, START, all[..n + p])
      {
        FoldNext(all, n + p);
        NextBlock(n + p);
        Behind(message, data, p, p + 64);
        abcd := process(abcd, data[p..p + 64]);
        p, left := p + 64, left - 64;
      }
      Behind(message, data, p, |data|);
      assert all[n + p..] == data[p..];
      if left != 0 {
        CopyIn(0, data[p..]);
      }
      LastBlock(n + p, left);
      message := all;
      assert Folded() == n + p;
    }

    /** md5_finish */
    method Finish() returns (digest: seq<Byte>)
      requires Valid()
      modifies this, buf
      ensures digest == Digest(process, old(message))
    {
      ghost var m := message;
      CountOffset(|m|);
      CountWords(|m|);
      var data := WordBytes(count0) + WordBytes(count1);
      var pad := [0x80] + Zeros(63);
      var padLength := (55 - count0 / 8) % 64 + 1;
      ZerosPrefix(63, padLength - 1);
      assert pad[..padLength] == Padding(|m|);
      Append(pad[..padLength]);
      Append(data);
      assert message == Padded(m);
      assert message[..Folded()] == message;
      digest := RegisterBytes(abcd);
    }

    lemma ZerosPrefix(n: nat, k: nat)
      requires k <= n
      ensures Zeros(n)[..k] == Zeros(k)
    {
    }
  }

  // conhash_md5_digest
  method DigestOf(process: Compress, instr: seq<Byte>) returns (digest: seq<Byte>)
    requires |instr| <= INT_MAX
    ensures digest == Digest(process, instr)
  {
    var md5state := new State(process);
    md5state.Append(instr);
    assert [] + instr == instr;
    digest := md5state.Finish();
  }
}
