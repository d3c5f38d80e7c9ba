/** Bitcoin's variable-length integers (c++/utils.cpp) and the bounds check behind every read. */
module Varint {
  import opened Basics

  /** A read that ran past the end, or a value and the position behind it. */
  datatype Read = Short | Got(value: nat, next: nat)

  /** The number a little-endian field stands for. */
  function FromLE(s: Bytes): (r: nat)
  {
    if s == [] then 0 else s[0] + 0x100 * FromLE(s[1..])
  }

  function LE(n: nat, width: nat): (r: Bytes)
    ensures |r| == width
  {
    if width == 0 then [] else [n % 0x100] + LE(n / 0x100, width - 1)
  }

  function Pow256(k: nat): (r: nat)
    ensures r >= 1
  {
    if k == 0 then 1 else 0x100 * Pow256(k - 1)
  }

  lemma {:induction false} LERoundTrip(n: nat, width: nat)
    requires n < Pow256(width)
    ensures FromLE(LE(n, width)) == n
  {
    if width > 0 {
      LERoundTrip(n / 0x100, width - 1);
      ConsAppend(n % 0x100, LE(n / 0x100, width - 1), []);
    }
  }

  /** move_forward, as a mathematical bounds check. */
  function Advance(s: Bytes, p: nat, n: nat): (r: Option<nat>)
    ensures r.Some? ==> r.value == p + n <= |s|
  {
    if p + n <= |s| then Some(p + n) else None
  }

  /** The 4-byte case goes through a 32-bit int, so a set top bit is sign-extended to 64 bits. */
  function SignExtended(n: nat): (r: nat)
  {
    if n < 0x8000_0000 then n else n + 0x1_0000_0000_0000_0000 - 0x1_0000_0000
  }

  function ReadField(s: Bytes, p: nat, width: nat): (r: Read)
    ensures r.Got? ==> p <= r.next <= |s|
  {
    match Advance(s, p, width)
    case None => Short
    case Some(q) => Got(FromLE(s[p..q]), q)
  }

  function ReadVarint(s: Bytes, p: nat): (r: Read)
    ensures r.Got? ==> p < r.next <= |s|
  {
    if p >= |s| then Short
    else if s[p] < 0xfd then Got(s[p], p + 1)
    else if s[p] == 0xfd then ReadField(s, p + 1, 2)
    else if s[p] == 0xfe then
      match ReadField(s, p + 1, 4)
      case Short => Short
      case Got(v, q) => Got(SignExtended(v), q)
    else ReadField(s, p + 1, 8)
  }

  /** varint takes a 32-bit size, so its 8-byte case is never used. */
  function Encode(n: nat): (r: Bytes)
    requires n < 0x1_0000_0000
    ensures 1 <= |r| <= 5
  {
    if n < 0xfd then [n]
    else if n <= 0xffff then [0xfd] + LE(n, 2)
    else [0xfe] + LE(n, 4)
  }

  /** Reading depends only on the bytes read: the same bytes elsewhere read the same. */
  lemma ReadVarintMoves(s: Bytes, p: nat, a: Bytes, b: Bytes)
    requires ReadVarint(s, p).Got?
    ensures ReadVarint(a + s + b, |a| + p) == Got(ReadVarint(s, p).value, |a| + ReadVarint(s, p).next)
  {
    var t, q := a + s + b, ReadVarint(s, p).next;
    assert t[|a| + p] == s[p];
    assert t[|a| + p + 1..|a| + q] == s[p + 1..q];
  }

  /** Reading back an encoded number gives the number exactly when it is below 2^31. */
  lemma RoundTrip(n: nat, rest: Bytes)
    requires n < 0x1_0000_0000
    ensures ReadVarint(Encode(n) + rest, 0) == Got(SignExtended(n), |Encode(n)|)
    ensures ReadVarint(Encode(n) + rest, 0).value == n <==> n < 0x8000_0000
  {
    var s := Encode(n) + rest;
    if n >= 0xfd {
      var w := if n <= 0xffff then 2 else 4;
      assert Pow256(2) == 0x1_0000 && Pow256(4) == 0x1_0000_0000;
      LERoundTrip(n, w);
      assert s[1..1 + w] == LE(n, w);
    }
  }

  /** A number has no shorter reading than its encoding. */
  lemma EncodeIsShortest(s: Bytes, p: nat)
    requires ReadVarint(s, p).Got? && ReadVarint(s, p).value <= 100000
    ensures |Encode(ReadVarint(s, p).value)| <= ReadVarint(s, p).next - p
  {
    var q := ReadVarint(s, p).next;
    if q - p == 3 {
      FromLEBound(s[p + 1..q]);
      assert Pow256(2) == 0x1_0000;
    }
  }

  lemma {:induction false} FromLEBound(s: Bytes)
    ensures FromLE(s) < Pow256(|s|)
  {
    if s != [] {
      FromLEBound(s[1..]);
    }
  }

  /** The other spellings that are read: any marker, whatever the number; eight bytes are read whole. */
  lemma ReadsLong(a: Bytes, n: nat, b: Bytes)
    requires n < U64
    ensures ReadVarint(a + ([0xff] + LE(n, 8)) + b, |a|) == Got(n, |a| + 9)
    ensures n < 0x1_0000_0000 ==> ReadVarint(a + ([0xfe] + LE(n, 4)) + b, |a|) == Got(SignExtended(n), |a| + 5)
    ensures n < 0x1_0000 ==> ReadVarint(a + ([0xfd] + LE(n, 2)) + b, |a|) == Got(n, |a| + 3)
  {
    Powers();
    ReadsSpelled(a, 0xff, n, 8, b);
    if n < 0x1_0000_0000 {
      ReadsSpelled(a, 0xfe, n, 4, b);
    }
    if n < 0x1_0000 {
      ReadsSpelled(a, 0xfd, n, 2, b);
    }
  }

  lemma Powers()
    ensures Pow256(2) == 0x1_0000 && Pow256(4) == 0x1_0000_0000 && Pow256(8) == U64
  {
    assert Pow256(6) == 0x1_0000_0000_0000;
  }

  lemma ReadsSpelled(a: Bytes, marker: byte, n: nat, width: nat, b: Bytes)
    requires n < Pow256(width)
    ensures var s := a + ([marker] + LE(n, width)) + b;
            |a| < |s| && s[|a|] == marker && ReadField(s, |a| + 1, width) == Got(n, |a| + 1 + width)
  {
    LERoundTrip(n, width);
    hide LE, FromLE;
    var s := a + ([marker] + LE(n, width)) + b;
    assert s[|a| + 1..|a| + 1 + width] == LE(n, width);
  }
}
