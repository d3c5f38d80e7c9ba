/** Concrete inputs for what the code does not promise: for each promise that holds only under a
    condition, an input that fails it. */
module Witnesses {
  import opened Basics
  import opened TxCache
  import opened BlockFormat
  import opened Merkle
  import opened Compression
  import opened TxRelay
  import opened RelayRuns
  import V = Varint

  /** One input with a script of n zero bytes, one output with an empty script. */
  function TxWithScript(n: nat): (r: Bytes)
    requires n < 0x1_0000_0000
    ensures |r| == 59 + |V.Encode(n)| + n
  {
    [1, 0, 0, 0, 1] + Zeros(36) + V.Encode(n) + Zeros(n + 4) + [1] + Zeros(8) + [0] + Zeros(4)
  }

  /** Of 60 bytes. */
  function SmallTx(): (r: Bytes)
    ensures |r| == 60
  {
    TxWithScript(0)
  }

  /** Of 1000064 bytes. */
  function BigTx(): (r: Bytes)
    ensures |r| == 1000064
  {
    TxWithScript(1000000)
  }

  function VersionFour(): (r: Bytes)
    ensures |r| == BLOCK_HEADER
  {
    [4] + Zeros(79)
  }

  function Block(count: Bytes, body: Bytes): (r: Bytes)
  {
    Zeros(MSG_HEADER) + VersionFour() + count + body
  }

  /** Where its lengths and counts are read. */
  lemma TxWithScriptReads(n: nat)
    requires n < 0x8000_0000
    ensures var tx, k := TxWithScript(n), |V.Encode(n)|;
            var q := 45 + k + n;
            && |tx| == q + 14
            && V.ReadVarint(tx, 4) == V.Got(1, 5) && V.ReadVarint(tx, 41) == V.Got(n, 41 + k)
            && V.ReadVarint(tx, q) == V.Got(1, q + 1) && V.ReadVarint(tx, q + 9) == V.Got(0, q + 10)
  {
    var tx, e := TxWithScript(n), V.Encode(n);
    var front, back := [1, 0, 0, 0, 1] + Zeros(36), Zeros(n + 4) + [1] + Zeros(8) + [0] + Zeros(4);
    V.RoundTrip(n, []);
    hide V.Encode;
    assert e + [] == e;
    assert tx == front + e + back;
    V.ReadVarintMoves(e, 0, front, back);
    var q := 45 + |e| + n;
    assert tx[4] == 1 && tx[q] == 1 && tx[q + 9] == 0;
  }

  lemma TxWithScriptEnds(n: nat)
    requires n < 0x8000_0000
    ensures TxEnd(TxWithScript(n), 0) == Some(|TxWithScript(n)|)
  {
    TxWithScriptReads(n);
    var tx, k := TxWithScript(n), |V.Encode(n)|;
    var q := 45 + k + n;
    hide V.ReadVarint, V.Encode, TxWithScript;
    assert SkipInputs(tx, 5, 1) == SkipInputs(tx, q, 0) == Some(q);
    assert SkipOutputs(tx, q + 1, 1) == SkipOutputs(tx, q + 10, 0) == Some(q + 10);
  }

  /** A block of version 4 with a short count passes the early checks. */
  lemma Starts(count: Bytes, body: Bytes, seen: set<Hash>, hash: Hash, n: nat)
    requires V.ReadVarint(count, 0) == V.Got(n, |count|) && 1 <= n <= MAX_TXS && hash !in seen
    ensures var block := Block(count, body);
            && |block| == 104 + |count| + |body| && Header(block) == VersionFour() && VersionOk(VersionFour())
            && V.ReadVarint(block, 104) == V.Got(n, 104 + |count|)
            && EarlyRefusal(seen, hash, block, false) == None
  {
    var block := Block(count, body);
    V.ReadVarintMoves(count, 0, Zeros(MSG_HEADER) + VersionFour(), body);
    assert block[MSG_HEADER..][..4] == [4, 0, 0, 0] && VersionFour()[..4] == [4, 0, 0, 0];
    assert [4, 0, 0, 0][1..] == [0, 0, 0] && [0, 0, 0][1..] == [0, 0] && [0, 0][1..] == [0];
    assert V.FromLE([4, 0, 0, 0]) == 4;
    hide V.ReadVarint, V.FromLE;
    assert Header(block) == VersionFour();
  }

  /** A block that holds one transaction, announced as n. */
  lemma OneTx(count: Bytes, tx: Bytes, rest: Bytes, n: nat)
    requires TxEnd(tx, 0) == Some(|tx|) && n >= 1
    ensures var block, p := Block(count, tx + rest), 104 + |count|;
            && TxEnd(block, p) == Some(p + |tx|)
            && ParseTxs(block, p, n).txs == [tx] + ParseTxs(block, p + |tx|, n - 1).txs
            && ParseTxs(block, p, n).ok == ParseTxs(block, p + |tx|, n - 1).ok
            && ParseTxs(block, p, n).end == ParseTxs(block, p + |tx|, n - 1).end
  {
    hide TxEnd;
    var block, p, front := Block(count, tx + rest), 104 + |count|, Zeros(MSG_HEADER) + VersionFour() + count;
    TxEndMoves(tx, front, rest);
    assert block == front + tx + rest;
    assert block[p..p + |tx|] == tx;
  }

  // ---- The block delivered is not the block given ----

  /** A block with a byte behind its only transaction: sent, and delivered without it. */
  lemma TrailingByteIsDropped(hp: Hashes, c: Cache, hash: Hash)
    ensures var block := Block([1], SmallTx() + [0]);
            && Compress(hp, c, {}, hash, block, false).out.Sent?
            && Walk(block).ok && Walk(block).txs == [SmallTx()] && Walk(block).end == 165 < |block|
            && Payload(Header(block), Walk(block).txs) != Given(block)
  {
    hide TxEnd, V.FromLE;
    var block := Block([1], SmallTx() + [0]);
    Starts([1], SmallTx() + [0], {}, hash, 1);
    TxWithScriptEnds(0);
    OneTx([1], SmallTx(), [0], 1);
    assert ParseTxs(block, 165, 0) == Parsed([], true, 165);
    assert [SmallTx()] + [] == [SmallTx()];
    DeliveredIsGiven(block);
  }

  /** A block whose count of one takes three bytes: sent, and delivered with a count of one byte. */
  lemma LongCountIsRespelled(hp: Hashes, c: Cache, hash: Hash)
    ensures var block := Block([0xfd, 1, 0], SmallTx() + []);
            && Compress(hp, c, {}, hash, block, false).out.Sent?
            && Walk(block).ok && Walk(block).txs == [SmallTx()] && Walk(block).end == |block|
            && Payload(Header(block), Walk(block).txs) != Given(block)
  {
    hide TxEnd;
    var count: Bytes := [0xfd, 1, 0];
    var block := Block(count, SmallTx() + []);
    assert count[1..3] == [1, 0] && [1, 0][1..] == [0];
    assert V.FromLE([1, 0]) == 1;
    assert V.ReadVarint(count, 0) == V.Got(1, 3);
    hide V.FromLE;
    Starts(count, SmallTx() + [], {}, hash, 1);
    TxWithScriptEnds(0);
    OneTx(count, SmallTx(), [], 1);
    assert ParseTxs(block, 167, 0) == Parsed([], true, 167);
    assert [SmallTx()] + [] == [SmallTx()];
    assert block[104..107] == count;
    DeliveredIsGiven(block);
  }

  /** A block with a transaction of 1000064 bytes: sent, and refused with the same, empty cache. */
  lemma BigTxIsRefused(hp: Hashes, hash: Hash, seen: set<Hash>, more: Bytes)
    ensures var block := Block([1], BigTx() + []);
            var out := Compress(hp, [], {}, hash, block, false).out;
            && TxEnd(BigTx(), 0) == Some(|BigTx()|)
            && out == Sent(Frame(Header(block), ItemsFor([], [BigTx()])))
            && Decompress(hp, [], seen, 1, out.frame[12..] + more, false)
               == Failed("got unreasonably large tx", [], seen + {hp.bytes(Header(block))})
  {
    hide TxEnd, V.FromLE, Code, BigTx, Decompress;
    var block, txs := Block([1], BigTx() + []), [BigTx()];
    Starts([1], BigTx() + [], {}, hash, 1);
    BigTxEnds();
    OneTx([1], BigTx(), [], 1);
    assert [BigTx()] + [] == txs;
    assert ParseTxs(block, 105 + |BigTx()|, 0).ok;
    assert IndexOf([], BigTx()) < 0;
    BigTxSize();
    OversizeFrameRefused(hp, [], seen, Header(block), txs, false, more);
  }

  lemma BigTxEnds()
    ensures TxEnd(BigTx(), 0) == Some(|BigTx()|)
  {
    TxWithScriptEnds(1000000);
  }

  lemma BigTxSize()
    ensures |BigTx()| == 1000064
  {
  }

  // ---- A number that is not read back ----

  lemma SignIsExtended()
    ensures V.ReadVarint(V.Encode(0x8000_0000), 0) == V.Got(0xffff_ffff_8000_0000, 5)
  {
    V.RoundTrip(0x8000_0000, []);
    assert V.Encode(0x8000_0000) + [] == V.Encode(0x8000_0000);
  }

  // ---- A block message without transactions ----

  /** A hash under which every header has the work. */
  function EasyHashes(): (r: Hashes)
  {
    Hashes(_ => Zeros(32), (_, _) => Zeros(32))
  }

  /** A block message of length 0 to a checking receiver. */
  lemma EmptyBlockIsUndefined(useOldFlags: bool, r: Receiver, more: Bytes)
    ensures Receive(Setup(EasyHashes(), useOldFlags), true, r, FrameHeader(BLOCK_TYPE, 0) + (VersionFour() + more))
            == Stuck("undefined")
    ensures Decompress(EasyHashes(), r.cache, r.seen, 0, VersionFour() + more, true).Undefined?
  {
    hide FrameHeader, FromBE, Decompress;
    var s := VersionFour() + more;
    ReadsHeader(BLOCK_TYPE, 0, s);
    assert VersionFour()[..4] == [4, 0, 0, 0] && s[..4] == [4, 0, 0, 0];
    assert [4, 0, 0, 0][1..] == [0, 0, 0] && [0, 0, 0][1..] == [0, 0] && [0, 0][1..] == [0];
    assert V.FromLE([4, 0, 0, 0]) == 4;
    EmptyBlockUndefined(EasyHashes(), r.cache, r.seen, 0, s, true);
  }

  // ---- A refused compression that loses a link ----

  /** A block that announces two transactions and holds one. */
  function Truncated(): (r: Bytes)
  {
    Block([2], SmallTx() + [])
  }

  lemma TruncatedWalk(hash: Hash)
    ensures var block := Truncated();
            && EarlyRefusal({}, hash, block, false) == None
            && |block| >= 104 && V.ReadVarint(block, 104).Got?
            && Walk(block).txs == [SmallTx()] && !Walk(block).ok
  {
    Starts([2], SmallTx() + [], {}, hash, 2);
    TxWithScriptEnds(0);
    OneTx([2], SmallTx(), [], 2);
    var block := Truncated();
    assert TxEnd(block, 165) == None;
    hide TxEnd;
    assert ParseTxs(block, 165, 1) == Parsed([], false, 165);
    assert [SmallTx()] + [] == [SmallTx()];
  }

  /** The cache that holds just the small transaction. */
  function SmallCache(useOldFlags: bool): (r: Cache)
  {
    [Entry(SmallTx(), FlagOf(useOldFlags, 60))]
  }

  lemma SmallTxCached(useOldFlags: bool)
    ensures SendTx(useOldFlags, [], SmallTx()) == (Some(TxFrame(SmallTx())), SmallCache(useOldFlags))
  {
    hide SmallTx, TxFrame;
    SmallTxSize();
    var e := Entry(SmallTx(), FlagOf(useOldFlags, 60));
    assert [] + [e] == [e];
    assert FlagSum([e]) == e.flag;
  }

  lemma SmallTxSize()
    ensures |SmallTx()| == 60
  {
  }

  /** A client joins, the small transaction is relayed, and the truncated block is refused: nothing was
      sent, the sender's cache is empty and the link, in step before, is so no more. */
  lemma RefusalCanLoseSync(su: Setup, hash: Hash) returns (states: seq<State>, acts: seq<Action>)
    ensures Run(su, states, acts) && acts == [AJoin(false), ATx(SmallTx())]
    ensures states[2].cache == SmallCache(su.useOldFlags) && states[2].seen == {} && |states[2].links| == 1
    ensures Compress(su.hp, states[2].cache, {}, hash, Truncated(), false) == Compressed(Refused("INVALID_SIZE"), [], {})
    ensures InSync(su, states[2].cache, states[2].links[0]) && !InSync(su, [], states[2].links[0])
  {
    hide SmallTx, TxFrame, SendTx, Drain;
    var l := Link(false, Receiver([], {}), [], [], []);
    var s1 := State([], {}, [l]);
    var s2 := State(SmallCache(su.useOldFlags), {}, Broadcast([l], TxFrame(SmallTx()), GotTx(SmallTx())));
    states, acts := [Start, s1, s2], [AJoin(false), ATx(SmallTx())];
    SmallTxCached(su.useOldFlags);
    assert Next(su, Start, s1, AJoin(false));
    assert Next(su, s1, s2, ATx(SmallTx()));
    RunsStayInSync(su, states, acts, 2);
    assert InSync(su, s2.cache, s2.links[0]);
    TruncatedWalk(hash);
    hide Walk, Truncated;
    assert IndexOf(s2.cache, SmallTx()) == 0;
    assert WithoutAll(s2.cache, [SmallTx()]) == [];
  }
}
