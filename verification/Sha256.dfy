/** Streaming SHA-256 (c++/crypto/sha2.cpp) and the double hashes built on it (c++/utils.cpp), over
    an uninterpreted compression function. */
module Sha256 {
  import opened Basics

  /** The eight words of the hash state. */
  type Words = w: seq<nat> | |w| == 8 witness [0, 0, 0, 0, 0, 0, 0, 0]

  /** sha256::Transform on a 64-byte chunk. */
  type Transform = (Words, Bytes) -> Words

  const INIT: Words := [0x6a09e667, 0xbb67ae85, 0x3c6ef372, 0xa54ff53a, 0x510e527f, 0x9b05688c, 0x1f83d9ab, 0x5be0cd19]

  function BE64(n: nat): (r: Bytes)
    ensures |r| == 8
  {
    BE32(n / 0x1_0000_0000) + BE32(n % 0x1_0000_0000)
  }

  /** The state as 32 big-endian bytes. */
  function Out(w: Words): (r: Bytes)
    ensures |r| == 32
  {
    BE32(w[0]) + BE32(w[1]) + BE32(w[2]) + BE32(w[3]) + BE32(w[4]) + BE32(w[5]) + BE32(w[6]) + BE32(w[7])
  }

  // ---- The definition ----

  /** The compression function folded over 64-byte blocks. */
  function Fold(t: Transform, w: Words, m: Bytes): (r: Words)
    decreases |m|
  {
    if |m| < 64 then w else Fold(t, t(w, m[..64]), m[64..])
  }

  function ZeroCount(n: nat): (r: nat)
  {
    (119 - n % 64) % 64
  }

  /** The padding of section 5.1.1 of FIPS 180-4 for a message of n bytes: a one bit, the fewest
      zero bits that fit, the length in bits as a 64-bit number. */
  function Padding(n: nat): (r: Bytes)
  {
    [0x80] + Zeros(ZeroCount(n)) + BE64(8 * n % U64)
  }

  function Digest(t: Transform, m: Bytes): (r: Bytes)
    ensures |r| == 32
  {
    Out(Fold(t, INIT, m + Padding(|m|)))
  }

  function DoubleDigest(t: Transform, m: Bytes): (r: Bytes)
    ensures |r| == 32
  {
    Digest(t, Digest(t, m))
  }

  /** The padded length is a multiple of 64. */
  lemma PaddedLength(n: nat)
    ensures (n + |Padding(n)|) % 64 == 0
  {
    hide BE64;
    assert |Padding(n)| == 1 + ZeroCount(n) + 8;
    Mod64(n + |Padding(n)|, n / 64 + (if n % 64 <= 55 then 1 else 2), 0);
  }

  /** With fewer zeros it would not be. */
  lemma FewestZeros(n: nat, k: nat)
    requires k < ZeroCount(n)
    ensures (n + 1 + k + 8) % 64 != 0
  {
    var r := n % 64;
    if r <= 55 {
      Mod64(n + 1 + k + 8, n / 64, r + 9 + k);
    } else {
      Mod64(n + 1 + k + 8, n / 64 + 1, r + 9 + k - 64);
    }
  }

  lemma Mod64(x: nat, q: nat, r: nat)
    requires x == 64 * q + r && r < 64
    ensures x % 64 == r
  {
  }

  /** The bytes of the padding: a one bit, zeros, and the bit length as one big-endian number. */
  lemma PaddingBytes(n: nat)
    ensures var p := Padding(n);
            && 9 <= |p| <= 72 && p[0] == 0x80
            && (forall i :: 1 <= i < |p| - 8 ==> p[i] == 0)
            && FromBE(p[|p| - 8..]) == 8 * n % U64
  {
    var p, b := Padding(n), BE64(8 * n % U64);
    BE64RoundTrip(8 * n % U64);
    hide BE64;
    assert p[|p| - 8..] == b;
  }

  lemma BE64RoundTrip(n: nat)
    requires n < U64
    ensures FromBE(BE64(n)) == n
  {
    var h, l := n / 0x1_0000_0000, n % 0x1_0000_0000;
    BE32RoundTrip(h);
    BE32RoundTrip(l);
    hide BE32;
    FromBEAppend(BE32(h), BE32(l));
  }

  /** A digest is the eight words of the state, each as a big-endian number of four bytes. */
  lemma OutWords(w: Words, i: nat)
    requires i < 8 && w[i] < 0x1_0000_0000
    ensures FromBE(Out(w)[4 * i..4 * i + 4]) == w[i]
  {
    BE32RoundTrip(w[i]);
    OutPart(w, i);
  }

  lemma OutPart(w: Words, i: nat)
    requires i < 8
    ensures Out(w)[4 * i..4 * i + 4] == BE32(w[i])
  {
    assert forall k :: 0 <= k < 8 ==> |BE32(w[k])| == 4;
    hide BE32;
    if i < 4 {
      var r := BE32(w[4]) + BE32(w[5]) + BE32(w[6]) + BE32(w[7]);
      assert Out(w) == BE32(w[0]) + BE32(w[1]) + BE32(w[2]) + BE32(w[3]) + r;
    }
  }

  /** The initial state, as section 5.3.3 of FIPS 180-4 defines it: each word is the first 32 bits of the
      fractional part of the square root of one of the first eight primes. */
  lemma InitialWords()
    ensures RootWord(2, 1, INIT[0]) && RootWord(3, 1, INIT[1]) && RootWord(5, 2, INIT[2]) && RootWord(7, 2, INIT[3])
    ensures RootWord(11, 3, INIT[4]) && RootWord(13, 3, INIT[5]) && RootWord(17, 4, INIT[6]) && RootWord(19, 4, INIT[7])
  {
  }

  /** whole and word are the integer part and the first 32 fractional bits of the square root of n. */
  predicate RootWord(n: nat, whole: nat, word: nat)
  {
    var x := whole * 0x1_0000_0000 + word;
    word < 0x1_0000_0000 && x * x <= n * U64 < (x + 1) * (x + 1)
  }

  // ---- Streaming ----

  /** The state after all full blocks, and the bytes left over. */
  function Sponge(t: Transform, w: Words, m: Bytes): (r: (Words, Bytes))
    decreases |m|
  {
    if |m| < 64 then (w, m) else Sponge(t, t(w, m[..64]), m[64..])
  }

  lemma {:induction false} SpongeFacts(t: Transform, w: Words, m: Bytes)
    ensures |Sponge(t, w, m).1| == |m| % 64
    ensures Sponge(t, w, m).0 == Fold(t, w, m)
    decreases |m|
  {
    if |m| >= 64 {
      SpongeFacts(t, t(w, m[..64]), m[64..]);
    }
  }

  /** Bytes that fill the buffer up to at most one block. */
  lemma {:induction false} SpongeStep(t: Transform, w: Words, m: Bytes, x: Bytes)
    requires |Sponge(t, w, m).1| + |x| <= 64
    ensures var (st, tail) := Sponge(t, w, m);
            Sponge(t, w, m + x) == if |tail| + |x| == 64 then (t(st, tail + x), []) else (st, tail + x)
    decreases |m|
  {
    if |m| < 64 {
      if |m| + |x| == 64 {
        assert (m + x)[..64] == m + x && (m + x)[64..] == [];
      }
    } else {
      SliceAppend(m, x, 0, 64);
      assert (m + x)[..64] == (m + x)[0..64];
      SpongeStep(t, t(w, m[..64]), m[64..], x);
    }
  }

  lemma ModU64(x: nat, q: nat, r: nat)
    requires x == U64 * q + r && r < U64
    ensures x % U64 == r
  {
  }

  /** Counting modulo 2^64 loses nothing the buffering or the padding looks at. */
  lemma CountMod(n: nat)
    ensures n % U64 % 64 == n % 64
    ensures (n % U64) * 8 % U64 == 8 * n % U64
  {
    var q, r := n / U64, n % U64;
    Mod64(n, q * (U64 / 64) + r / 64, r % 64);
    ModU64(8 * n, 8 * q + 8 * r / U64, 8 * r % U64);
  }

  /** The count advances with the bytes, both modulo 2^64. */
  lemma Count(n: nat, k: nat)
    requires k <= 64
    ensures (n % U64 + k) % U64 == (n + k) % U64
  {
    var r := n % U64;
    if r + k < U64 {
      ModU64(n + k, n / U64, r + k);
    } else {
      ModU64(n + k, n / U64 + 1, r + k - U64);
    }
  }

  lemma Extend(m: Bytes, data: Bytes, p: nat, q: nat)
    requires p <= q <= |data|
    ensures (m + data[..p]) + data[p..q] == m + data[..q]
  {
    SliceSplit(data, 0, p, q);
    assert data[0..p] == data[..p] && data[0..q] == data[..q];
  }

  class CSHA256 {
    const transform: Transform
    const buf: array<byte>
    var s: Words
    var bytes: nat

    /** The object has been started from state w and written the bytes of m. */
    ghost predicate Absorbed(w: Words, m: Bytes)
      reads this, buf
    {
      && buf.Length == 64 && |Sponge(transform, w, m).1| == |m| % 64
      && bytes == |m| % U64
      && (s, buf[..|m| % 64]) == Sponge(transform, w, m)
    }

    constructor (transform: Transform)
      ensures Absorbed(INIT, []) && fresh(buf) && this.transform == transform
    {
      this.transform := transform;
      buf := new byte[64](_ => 0);
      s, bytes := INIT, 0;
    }

    method Reset()
      requires buf.Length == 64
      modifies this
      ensures Absorbed(INIT, [])
    {
      s, bytes := INIT, 0;
    }

    /** Starts over from a given state and byte count, as double_sha256_step and _done do. */
    method Resume(w: Words, count: nat, ghost init: Words, ghost m: Bytes)
      requires buf.Length == 64 && |m| % 64 == 0 && count == |m| % U64 && w == Fold(transform, init, m)
      modifies this
      ensures Absorbed(init, m)
    {
      s, bytes := w, count;
      SpongeFacts(transform, init, m);
    }

    /** memcpy to the end of the buffered bytes. */
    method Fill(x: Bytes, at: nat)
      requires buf.Length == 64 && at + |x| <= 64
      modifies buf
      ensures buf[..at + |x|] == old(buf[..at]) + x
    {
      forall i | at <= i < at + |x| {
        buf[i] := x[i - at];
      }
    }

    /** Fills the buffer and processes it. */
    method Complete(x: Bytes, at: nat, ghost w: Words, ghost m: Bytes)
      requires Absorbed(w, m) && at == |m| % 64 && at + |x| == 64
      modifies this, buf
      ensures Absorbed(w, m + x)
    {
      hide Sponge;
      SpongeStep(transform, w, m, x);
      SpongeFacts(transform, w, m + x);
      Count(|m|, |x|);
      Fill(x, at);
      assert buf[..] == buf[..64];
      bytes := (bytes + |x|) % U64;
      s := transform(s, buf[..]);
    }

    /** Processes a full chunk directly from the source. */
    method Process(chunk: Bytes, ghost w: Words, ghost m: Bytes)
      requires Absorbed(w, m) && |m| % 64 == 0 && |chunk| == 64
      modifies this
      ensures Absorbed(w, m + chunk)
    {
      hide Sponge;
      SpongeStep(transform, w, m, chunk);
      SpongeFacts(transform, w, m + chunk);
      Count(|m|, 64);
      assert [] + chunk == chunk;
      s := transform(s, chunk);
      bytes := (bytes + 64) % U64;
    }

    /** Buffers what remains. */
    method Keep(x: Bytes, at: nat, ghost w: Words, ghost m: Bytes)
      requires Absorbed(w, m) && at == |m| % 64 && at + |x| < 64
      modifies this, buf
      ensures Absorbed(w, m + x)
    {
      hide Sponge;
      SpongeStep(transform, w, m, x);
      SpongeFacts(transform, w, m + x);
      Count(|m|, |x|);
      Fill(x, at);
      bytes := (bytes + |x|) % U64;
    }

    method Write(data: Bytes, ghost w: Words, ghost m: Bytes)
      requires Absorbed(w, m)
      modifies this, buf
      ensures Absorbed(w, m + data)
    {
      CountMod(|m|);
      assert bytes == |m| % U64;
      var bufsize, pos: nat := bytes % 64, 0;
      hide Absorbed;
      ghost var done := m;
      assert m + [] == m && data[..0] == [];
      if bufsize != 0 && bufsize + |data| >= 64 {
        pos := 64 - bufsize;
        Complete(data[..pos], bufsize, w, m);
        done := m + data[..pos];
        Mod64(|done|, |m| / 64 + 1, 0);
        bufsize := 0;
      }
      while |data| - pos >= 64
        invariant pos <= |data| && done == m + data[..pos]
        invariant Absorbed(w, done) && bufsize == |done| % 64
        invariant bufsize != 0 ==> pos == 0 && bufsize + |data| < 64
      {
        var chunk := data[pos..pos + 64];
        Process(chunk, w, done);
        Extend(m, data, pos, pos + 64);
        Mod64(|done| + 64, |done| / 64 + 1, 0);
        pos := pos + 64;
        done := done + chunk;
      }
      Extend(m, data, pos, |data|);
      assert data[..|data|] == data;
      if |data| > pos {
        Keep(data[pos..], bufsize, w, done);
        assert data[pos..] == data[pos..|data|];
      }
    }

    method Finalize(ghost m: Bytes) returns (hash: Bytes)
      requires Absorbed(INIT, m)
      modifies this, buf
      ensures hash == Digest(transform, m)
    {
      hide Sponge, Fold, BE64, Out;
      CountMod(|m|);
      var sizedesc := BE64(bytes * 8 % U64);
      var pad := [0x80] + Zeros((119 - bytes % 64) % 64);
      Write(pad, INIT, m);
      Write(sizedesc, INIT, m + pad);
      SpongeFacts(transform, INIT, m + pad + sizedesc);
      Assoc(m, pad, sizedesc);
      hash := Out(s);
    }
  }

  // ---- The double hashes, over CSHA256 ----

  method DoubleSha256(t: Transform, input: Bytes) returns (res: Bytes)
    ensures res == DoubleDigest(t, input)
  {
    hide Digest;
    var hash := new CSHA256(t);
    ghost var m: Bytes := [];
    if |input| != 0 {
      hash.Write(input, INIT, []);
      m := [] + input;
    }
    assert m == input;
    res := hash.Finalize(m);
    hash.Reset();
    assert [] + res == res;
    hash.Write(res, INIT, []);
    res := hash.Finalize(res);
  }

  method DoubleSha256Two32(t: Transform, a: Hash, b: Hash) returns (res: Bytes)
    ensures res == DoubleDigest(t, a + b)
  {
    hide Digest;
    var hash := new CSHA256(t);
    assert [] + a == a;
    hash.Write(a, INIT, []);
    hash.Write(b, INIT, a);
    res := hash.Finalize(a + b);
    hash.Reset();
    assert [] + res == res;
    hash.Write(res, INIT, []);
    res := hash.Finalize(res);
  }

  /** double_sha256_step: from the state after m to the state after m + input. */
  method DoubleSha256Step(t: Transform, input: Bytes, state: Words, ghost m: Bytes) returns (state': Words)
    requires |input| % 64 == 0 && |m| % 64 == 0 && state == Fold(t, INIT, m)
    ensures state' == Fold(t, INIT, m + input)
  {
    state' := state;
    assert |input| == 0 ==> m + input == m;
    if |input| != 0 {
      var hash := new CSHA256(t);
      SpongeFacts(t, state, []);
      hash.Resume(state, 0, state, []);
      hash.Write(input, state, []);
      assert [] + input == input;
      SpongeFacts(t, state, input);
      FoldAppend(t, INIT, m, input);
      state' := hash.s;
    }
  }

  lemma {:induction false} FoldAppend(t: Transform, w: Words, a: Bytes, b: Bytes)
    requires |a| % 64 == 0
    ensures Fold(t, w, a + b) == Fold(t, Fold(t, w, a), b)
    decreases |a|
  {
    if |a| < 64 {
      assert a + b == b;
    } else {
      SliceAppend(a, b, 0, 64);
      assert (a + b)[..64] == (a + b)[0..64] == a[..64];
      FoldAppend(t, t(w, a[..64]), a[64..], b);
    }
  }

  /** double_sha256_done: the rest of a message whose first part m is in the state. */
  method DoubleSha256Done(t: Transform, input: Bytes, total: nat, state: Words, ghost m: Bytes) returns (res: Bytes)
    requires |m| % 64 == 0 && state == Fold(t, INIT, m) && total == |m| + |input|
    ensures res == DoubleDigest(t, m + input)
  {
    hide Digest;
    var hash := new CSHA256(t);
    if total - |input| != 0 {
      hash.Resume(state, (total - |input|) % U64, INIT, m);
    }
    ghost var all := m;
    if |input| != 0 {
      hash.Write(input, INIT, m);
      all := m + input;
    }
    assert all == m + input;
    res := hash.Finalize(all);
    hash.Reset();
    assert [] + res == res;
    hash.Write(res, INIT, []);
    res := hash.Finalize(res);
  }

  /** A message hashed as it is read: init, step on each full block, done on the tail. */
  method HashWhileReading(t: Transform, msg: Bytes) returns (res: Bytes)
    ensures res == DoubleDigest(t, msg)
  {
    var state, i := INIT, 0;
    var steps := |msg| / 64;
    while i < steps
      invariant 0 <= i <= steps
      invariant state == Fold(t, INIT, msg[..64 * i])
    {
      Extend([], msg, 64 * i, 64 * (i + 1));
      assert [] + msg[..64 * i] == msg[..64 * i] && [] + msg[..64 * (i + 1)] == msg[..64 * (i + 1)];
      state := DoubleSha256Step(t, msg[64 * i..64 * (i + 1)], state, msg[..64 * i]);
      i := i + 1;
    }
    assert msg[..64 * steps] + msg[64 * steps..] == msg;
    res := DoubleSha256Done(t, msg[64 * steps..], |msg|, state, msg[..64 * steps]);
  }

  // ---- The hand-padded branches ----

  /** The assembly routine: n blocks of data into the state. */
  method Sha256Blocks(t: Transform, data: Bytes, state: Words, n: nat) returns (state': Words)
    requires 64 * n <= |data|
    ensures state' == Fold(t, state, data[..64 * n])
  {
    state' := state;
    var i := 0;
    while i < n
      invariant 0 <= i <= n
      invariant state' == Fold(t, state, data[..64 * i])
    {
      Extend([], data, 64 * i, 64 * i + 64);
      var block := data[64 * i..64 * i + 64];
      assert [] + data[..64 * i] == data[..64 * i] && [] + data[..64 * i + 64] == data[..64 * i + 64];
      FoldAppend(t, state, data[..64 * i], block);
      assert block[..64] == block && Fold(t, state', block) == t(state', block);
      state' := t(state', block);
      i := i + 1;
    }
  }

  /** The tail of a message, padded by hand for its whole length, and hashed on from a state; then
      the digest hashed again in the same buffer.  With the initial state and the whole message this
      is the other branch of double_sha256, with a later state that of double_sha256_done. */
  method HandPadded(t: Transform, input: Bytes, total: nat, state: Words, ghost m: Bytes) returns (res: Bytes)
    requires |m| % 64 == 0 && state == Fold(t, INIT, m) && total == |m| + |input|
    ensures res == DoubleDigest(t, m + input)
  {
    hide Fold, Out, BE64;
    var padCount := 1 + (119 - total % 64) % 64;
    PaddedLength(total);
    var size := |input| + padCount + 8;
    var data := input + [0x80] + Zeros(padCount - 1) + BE64(total * 8 % U64);
    assert data == input + Padding(total);
    Mod64(size, (|m| + size) / 64 - |m| / 64, 0);
    var st := Sha256Blocks(t, data, state, size / 64);
    assert data[..64 * (size / 64)] == data;
    FoldAppend(t, INIT, m, data);
    Assoc(m, input, Padding(total));
    var first := Out(st);
    var again := first + [0x80] + Zeros(32 - 8 - 1) + BE64(32 * 8);
    assert again == first + Padding(32);
    st := Sha256Blocks(t, again, INIT, 1);
    assert again[..64] == again;
    res := Out(st);
  }
}
