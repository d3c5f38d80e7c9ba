/** Bytes, digests and sequence operations shared by every other module. */
module Basics {

  type byte = x: int | 0 <= x < 0x100
  type Bytes = seq<byte>

  /** The number of values of a 64-bit integer. */
  const U64: nat := 0x1_0000_0000_0000_0000

  /** A 32-byte digest. */
  type Hash = h: Bytes | |h| == 32 witness seq(32, _ => 0)

  datatype Option<+T> = None | Some(value: T)

  /** The list with position i taken out; the list itself when i is past its end. */
  function RemoveAt<T>(s: seq<T>, i: nat): (r: seq<T>)
  {
    if i < |s| then s[..i] + s[i + 1..] else s
  }

  lemma Uncons<T>(s: seq<T>)
    requires s != []
    ensures s == [s[0]] + s[1..]
  {
  }

  lemma ConsAppend<T>(x: T, a: seq<T>, b: seq<T>)
    ensures ([x] + a) + b == [x] + (a + b)
    ensures ([x] + a)[0] == x && ([x] + a)[1..] == a
  {
  }

  lemma Assoc<T>(a: seq<T>, b: seq<T>, c: seq<T>)
    ensures a + (b + c) == (a + b) + c
  {
  }

  lemma TailStep<T>(s: seq<T>, i: nat, x: T, t: seq<T>)
    requires i <= |s| && s[i..] == [x] + t
    ensures i < |s| && s[i] == x && s[i + 1..] == t
  {
  }

  lemma SliceSplit<T>(s: seq<T>, p: nat, q: nat, e: nat)
    requires p <= q <= e <= |s|
    ensures s[p..q] + s[q..e] == s[p..e]
  {
  }

  lemma SliceAppend<T>(s: seq<T>, more: seq<T>, p: nat, q: nat)
    requires p <= q <= |s|
    ensures (s + more)[p..q] == s[p..q]
    ensures (s + more)[q..] == s[q..] + more
  {
  }

  lemma MoveOver<T>(a: seq<T>, x: T, y: T, b: seq<T>)
    ensures a + ([x] + b) == (a + [x]) + b
    ensures (a + ([x] + b))[|a| := y] == (a + [y]) + b
  {
  }

  function Zeros(n: nat): (r: Bytes)
    ensures |r| == n
  {
    seq<byte>(n, _ => 0)
  }

  function Flatten(parts: seq<Bytes>): (r: Bytes)
  {
    if parts == [] then [] else parts[0] + Flatten(parts[1..])
  }

  /** Big-endian 16-, 24- and 32-bit fields, as htons and htonl lay them out. */
  function BE16(n: nat): (r: Bytes)
  {
    [n / 0x100 % 0x100, n % 0x100]
  }

  function BE24(n: nat): (r: Bytes)
  {
    [n / 0x1_0000 % 0x100, n / 0x100 % 0x100, n % 0x100]
  }

  function BE32(n: nat): (r: Bytes)
  {
    [n / 0x100_0000 % 0x100, n / 0x1_0000 % 0x100, n / 0x100 % 0x100, n % 0x100]
  }

  /** The number a big-endian field stands for. */
  function FromBE(s: Bytes): (r: nat)
  {
    if s == [] then 0 else 0x100 * FromBE(s[..|s| - 1]) + s[|s| - 1]
  }

  lemma BE16RoundTrip(n: nat)
    requires n < 0x1_0000
    ensures FromBE(BE16(n)) == n
  {
    var s := BE16(n);
    assert s[..1][..0] == [];
    assert FromBE(s[..1]) == s[0];
  }

  lemma BE24RoundTrip(n: nat)
    requires n < 0x100_0000
    ensures FromBE(BE24(n)) == n
  {
    var s := BE24(n);
    assert s[..2] == BE16(n / 0x100);
    BE16RoundTrip(n / 0x100);
  }

  lemma BE32RoundTrip(n: nat)
    requires n < 0x1_0000_0000
    ensures FromBE(BE32(n)) == n
  {
    var s := BE32(n);
    assert s[..3] == BE24(n / 0x100);
    BE24RoundTrip(n / 0x100);
  }

  /** The value of a big-endian field is that of its front, moved up by the bytes behind it. */
  lemma {:induction false} FromBEAppend(a: Bytes, b: Bytes)
    requires |b| == 4
    ensures FromBE(a + b) == 0x1_0000_0000 * FromBE(a) + FromBE(b)
  {
    var s := a + b;
    assert s[..|s| - 1] == a + b[..3] && (a + b[..3])[..|a| + 2] == a + b[..2];
    assert (a + b[..2])[..|a| + 1] == a + b[..1] && (a + b[..1])[..|a|] == a;
    assert FromBE(a + b[..1]) == 0x100 * FromBE(a) + b[0] as int;
    assert FromBE(a + b[..2]) == 0x100 * FromBE(a + b[..1]) + b[1] as int;
    assert FromBE(a + b[..3]) == 0x100 * FromBE(a + b[..2]) + b[2] as int;
    FromBE4(b);
  }

  /** The first byte is the most significant one. */
  lemma FromBE4(b: Bytes)
    requires |b| == 4
    ensures FromBE(b) == 0x100_0000 * (b[0] as int) + 0x1_0000 * (b[1] as int) + 0x100 * (b[2] as int) + b[3] as int
  {
    assert b[..3][..2] == b[..2] && b[..2][..1] == b[..1] && b[..1][..0] == [];
    assert FromBE(b[..1]) == b[0] as int;
    assert FromBE(b[..2]) == 0x100 * (b[0] as int) + b[1] as int;
  }
}
