/** Bitcoin transactions by their parts, and that the compressor's walk (c++/relayprocess.cpp) steps over
    exactly the bytes of one. */
module Transactions {
  import opened Basics
  import opened BlockFormat
  import V = Varint

  datatype TxIn = TxIn(outpoint: Bytes, script: Bytes, sequence: Bytes)

  datatype TxOut = TxOut(value: Bytes, script: Bytes)

  datatype Transaction = Transaction(version: Bytes, ins: seq<TxIn>, outs: seq<TxOut>, lockTime: Bytes)

  /** A length that a canonical count can carry and read_varint reads back. */
  predicate Fits(n: nat)
  {
    n < 0x8000_0000
  }

  /** The fixed fields have their widths. */
  predicate Proper(t: Transaction)
  {
    && |t.version| == 4 && |t.lockTime| == 4 && Fits(|t.ins|) && Fits(|t.outs|)
    && (forall i :: 0 <= i < |t.ins| ==> ProperIn(t.ins[i]))
    && (forall i :: 0 <= i < |t.outs| ==> ProperOut(t.outs[i]))
  }

  predicate ProperIn(i: TxIn)
  {
    |i.outpoint| == 36 && Fits(|i.script|) && |i.sequence| == 4
  }

  predicate ProperOut(o: TxOut)
  {
    |o.value| == 8 && Fits(|o.script|)
  }

  function InBytes(i: TxIn): (r: Bytes)
    requires ProperIn(i)
  {
    i.outpoint + V.Encode(|i.script|) + i.script + i.sequence
  }

  function OutBytes(o: TxOut): (r: Bytes)
    requires ProperOut(o)
  {
    o.value + V.Encode(|o.script|) + o.script
  }

  function InsBytes(ins: seq<TxIn>): (r: Bytes)
    requires forall i :: 0 <= i < |ins| ==> ProperIn(ins[i])
  {
    if ins == [] then [] else InBytes(ins[0]) + InsBytes(ins[1..])
  }

  function OutsBytes(outs: seq<TxOut>): (r: Bytes)
    requires forall i :: 0 <= i < |outs| ==> ProperOut(outs[i])
  {
    if outs == [] then [] else OutBytes(outs[0]) + OutsBytes(outs[1..])
  }

  /** A transaction as it stands in a block. */
  function Ser(t: Transaction): (r: Bytes)
    requires Proper(t)
  {
    t.version + (V.Encode(|t.ins|) + (InsBytes(t.ins) + (V.Encode(|t.outs|) + (OutsBytes(t.outs) + t.lockTime))))
  }

  function Sers(ts: seq<Transaction>): (r: seq<Bytes>)
    requires forall i :: 0 <= i < |ts| ==> Proper(ts[i])
    ensures |r| == |ts| && forall i :: 0 <= i < |ts| ==> r[i] == Ser(ts[i])
  {
    seq(|ts|, i requires 0 <= i < |ts| => Ser(ts[i]))
  }

  /** A canonical count reads back wherever it stands. */
  lemma ReadsCount(a: Bytes, n: nat, b: Bytes)
    requires Fits(n)
    ensures V.ReadVarint(a + V.Encode(n) + b, |a|) == V.Got(n, |a| + |V.Encode(n)|)
  {
    V.RoundTrip(n, []);
    assert V.Encode(n) + [] == V.Encode(n);
    V.ReadVarintMoves(V.Encode(n), 0, a, b);
  }

  lemma OverIn(a: Bytes, i: TxIn, b: Bytes)
    requires ProperIn(i)
    ensures var s, q := a + InBytes(i) + b, |a| + 36;
            && V.ReadVarint(s, q).Got? && V.ReadVarint(s, q).value == |i.script|
            && V.ReadVarint(s, q).next + |i.script| + 4 == |a| + |InBytes(i)|
  {
    ReadsCount(a + i.outpoint, |i.script|, i.script + i.sequence + b);
    assert a + InBytes(i) + b == (a + i.outpoint) + V.Encode(|i.script|) + (i.script + i.sequence + b);
  }

  lemma OverOut(a: Bytes, o: TxOut, b: Bytes)
    requires ProperOut(o)
    ensures var s, q := a + OutBytes(o) + b, |a| + 8;
            && V.ReadVarint(s, q).Got? && V.ReadVarint(s, q).value == |o.script|
            && V.ReadVarint(s, q).next + |o.script| == |a| + |OutBytes(o)|
  {
    ReadsCount(a + o.value, |o.script|, o.script + b);
    assert a + OutBytes(o) + b == (a + o.value) + V.Encode(|o.script|) + (o.script + b);
  }

  lemma {:induction false} OverIns(a: Bytes, ins: seq<TxIn>, b: Bytes)
    requires forall i :: 0 <= i < |ins| ==> ProperIn(ins[i])
    ensures SkipInputs(a + InsBytes(ins) + b, |a|, |ins|) == Some(|a| + |InsBytes(ins)|)
    decreases |ins|
  {
    hide V.ReadVarint, InBytes, ProperIn;
    if ins != [] {
      var x, rest := InBytes(ins[0]), InsBytes(ins[1..]);
      hide InsBytes;
      assert a + (x + rest) + b == a + x + (rest + b);
      assert a + x + (rest + b) == (a + x) + rest + b;
      InWidth(ins[0]);
      OverIn(a, ins[0], rest + b);
      OverIns(a + x, ins[1..], b);
    }
  }

  lemma InWidth(i: TxIn)
    requires ProperIn(i)
    ensures |InBytes(i)| >= 40 && (|i.script| + 4) % U64 == |i.script| + 4
  {
  }

  lemma {:induction false} OverOuts(a: Bytes, outs: seq<TxOut>, b: Bytes)
    requires forall i :: 0 <= i < |outs| ==> ProperOut(outs[i])
    ensures SkipOutputs(a + OutsBytes(outs) + b, |a|, |outs|) == Some(|a| + |OutsBytes(outs)|)
    decreases |outs|
  {
    hide V.ReadVarint, OutBytes, ProperOut;
    if outs != [] {
      var x, rest := OutBytes(outs[0]), OutsBytes(outs[1..]);
      hide OutsBytes;
      assert a + (x + rest) + b == a + x + (rest + b);
      assert a + x + (rest + b) == (a + x) + rest + b;
      OverOut(a, outs[0], rest + b);
      OutWidth(outs[0]);
      OverOuts(a + x, outs[1..], b);
    }
  }

  lemma OutWidth(o: TxOut)
    requires ProperOut(o)
    ensures |OutBytes(o)| >= 8
  {
  }

  /** What surrounds the second to the fifth of six parts. */
  lemma SixParts(a: Bytes, w: Bytes, v: Bytes, i: Bytes, n: Bytes, o: Bytes, l: Bytes, b: Bytes)
    returns (front: seq<Bytes>, back: seq<Bytes>)
    ensures var s := a + (w + (v + (i + (n + (o + l))))) + b;
            && |front| == |back| == 4 && |s| == |a| + |w| + |v| + |i| + |n| + |o| + |l| + |b|
            && s == front[0] + v + back[0] && |front[0]| == |a| + |w|
            && s == front[1] + i + back[1] && |front[1]| == |a| + |w| + |v|
            && s == front[2] + n + back[2] && |front[2]| == |a| + |w| + |v| + |i|
            && s == front[3] + o + back[3] && |front[3]| == |a| + |w| + |v| + |i| + |n|
  {
    Shift(a, w, v + (i + (n + (o + l))), b);
    Shift(a + w, v, i + (n + (o + l)), b);
    Shift(a + w + v, i, n + (o + l), b);
    Shift(a + w + v + i, n, o + l, b);
    Shift(a + w + v + i + n, o, l, b);
    front := [a + w, a + w + v, a + w + v + i, a + w + v + i + n];
    back := [i + (n + (o + l)) + b, n + (o + l) + b, o + l + b, l + b];
  }

  /** The walk, step by step. */
  lemma EndsAt(s: Bytes, p: nat, ins: nat, q1: nat, q2: nat, outs: nat, q3: nat, q4: nat)
    requires V.ReadVarint(s, p + 4) == V.Got(ins, q1) && SkipInputs(s, q1, ins) == Some(q2)
    requires V.ReadVarint(s, q2) == V.Got(outs, q3) && SkipOutputs(s, q3, outs) == Some(q4)
    requires p + 4 <= |s| && q4 + 4 <= |s|
    ensures TxEnd(s, p) == Some(q4 + 4)
  {
    hide V.ReadVarint, SkipInputs, SkipOutputs;
  }

  /** Whatever surrounds a transaction, the walk ends right behind it. */
  lemma SerEnds(a: Bytes, t: Transaction, b: Bytes)
    requires Proper(t)
    ensures TxEnd(a + Ser(t) + b, |a|) == Some(|a| + |Ser(t)|)
  {
    hide V.ReadVarint, V.Encode, InsBytes, OutsBytes, SkipInputs, SkipOutputs, ProperIn, ProperOut, TxEnd;
    var v, i, n, o := V.Encode(|t.ins|), InsBytes(t.ins), V.Encode(|t.outs|), OutsBytes(t.outs);
    var front, back := SixParts(a, t.version, v, i, n, o, t.lockTime, b);
    SerWalk(a + Ser(t) + b, |a|, t, front, back);
  }

  lemma SerWalk(s: Bytes, p: nat, t: Transaction, front: seq<Bytes>, back: seq<Bytes>)
    requires Proper(t) && |front| == |back| == 4
    requires var v, i, n, o := V.Encode(|t.ins|), InsBytes(t.ins), V.Encode(|t.outs|), OutsBytes(t.outs);
             && s == front[0] + v + back[0] && |front[0]| == p + 4
             && s == front[1] + i + back[1] && |front[1]| == p + 4 + |v|
             && s == front[2] + n + back[2] && |front[2]| == p + 4 + |v| + |i|
             && s == front[3] + o + back[3] && |front[3]| == p + 4 + |v| + |i| + |n|
             && p + |Ser(t)| <= |s|
    ensures TxEnd(s, p) == Some(p + |Ser(t)|)
  {
    hide V.ReadVarint, V.Encode, InsBytes, OutsBytes, SkipInputs, SkipOutputs, ProperIn, ProperOut, TxEnd;
    ReadsCount(front[0], |t.ins|, back[0]);
    OverIns(front[1], t.ins, back[1]);
    ReadsCount(front[2], |t.outs|, back[2]);
    OverOuts(front[3], t.outs, back[3]);
    EndsAt(s, p, |t.ins|, |front[1]|, |front[2]|, |t.outs|, |front[3]|, |front[3]| + |OutsBytes(t.outs)|);
  }

  lemma Shift(a: Bytes, x: Bytes, y: Bytes, b: Bytes)
    ensures a + (x + y) + b == (a + x) + y + b
    ensures (a + x) + y + b == (a + x) + (y + b)
  {
  }

  /** So a list of serialised transactions is a list of transactions the walk accepts. */
  lemma SersEnd(ts: seq<Transaction>)
    requires forall i :: 0 <= i < |ts| ==> Proper(ts[i])
    ensures forall i :: 0 <= i < |ts| ==> TxEnd(Sers(ts)[i], 0) == Some(|Sers(ts)[i]|)
  {
    hide TxEnd, Ser;
    forall i | 0 <= i < |ts|
      ensures TxEnd(Sers(ts)[i], 0) == Some(|Sers(ts)[i]|)
    {
      SerEnds([], ts[i], []);
      assert [] + Ser(ts[i]) + [] == Ser(ts[i]);
    }
  }

  /** An input whose script length plus 4 wraps: the walk goes on right behind the length. */
  lemma WrappedLength(a: Bytes, outpoint: Bytes, extra: nat, b: Bytes)
    requires |outpoint| == 36 && extra < 4
    ensures var length := [0xff] + V.LE(U64 - 4 + extra, 8);
            SkipInputs(a + outpoint + length + b, |a|, 1) ==
              if extra <= |b| then Some(|a| + 36 + 9 + extra) else None
  {
    var n := U64 - 4 + extra;
    var length := [0xff] + V.LE(n, 8);
    V.ReadsLong(a + outpoint, n, b);
    hide V.ReadVarint, V.LE;
    var s := a + outpoint + length + b;
    assert (n + 4) % U64 == extra;
    if extra <= |b| {
      assert SkipInputs(s, |a| + 45 + extra, 0) == Some(|a| + 45 + extra);
    }
  }
}
