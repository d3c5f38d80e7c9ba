/** What maybe_compress_block and decompress_relay_block compute, as functions of the cache, and
    that the second undoes the first (c++/relayprocess.cpp). */
module Compression {
  import opened Basics
  import opened TxCache
  import opened TweakSort
  import opened BlockFormat
  import opened Merkle
  import opened Transactions
  import V = Varint

  /** The double hash of a byte string and of a pair of nodes, left uninterpreted. */
  datatype Hashes = Hashes(bytes: Bytes -> Hash, pair: PairHash)

  const MSG_HEADER: nat := 24
  const BLOCK_HEADER: nat := 80
  const MAX_TXS: nat := 100000
  const RELAY_MAGIC: nat := 0xF2BEEF42
  const BLOCK_TYPE: nat := 1

  /** relay_msg_header */
  function FrameHeader(kind: nat, length: nat): (r: Bytes)
    ensures |r| == 12
  {
    BE32(RELAY_MAGIC) + BE32(kind) + BE32(length)
  }

  /** The version is read as a signed 32-bit number and must be at least 4. */
  predicate VersionOk(header: Bytes)
    requires |header| >= 4
  {
    4 <= V.FromLE(header[..4]) < 0x8000_0000
  }

  /** The minimum difficulty test: the last seven bytes of the hash are zero. */
  predicate HasWork(hash: Hash)
  {
    hash[25..] == [0, 0, 0, 0, 0, 0, 0]
  }

  function Leaves(hp: Hashes, txs: seq<Bytes>): (r: seq<Hash>)
    ensures |r| == |txs| && forall i :: 0 <= i < |txs| ==> r[i] == hp.bytes(txs[i])
  {
    seq<Hash>(|txs|, i requires 0 <= i < |txs| => hp.bytes(txs[i]))
  }

  /** The Merkle test against the root in the block header. */
  predicate MerkleOk(hp: Hashes, header: Bytes, txs: seq<Bytes>)
    requires |header| == BLOCK_HEADER && txs != []
  {
    Accepts(hp.pair, Leaves(hp, txs), header[36..68])
  }

  // ---- Compressing ----

  datatype Outcome = Refused(reason: string) | Sent(frame: Bytes)
  datatype Compressed = Compressed(out: Outcome, cache: Cache, seen: set<Hash>)

  /** Everything checked before the transaction loop, in order: the reason to refuse, if any. */
  function EarlyRefusal(seen: set<Hash>, hash: Hash, block: Bytes, check: bool): (r: Option<string>)
  {
    if check && !HasWork(hash) then Some("BAD_WORK")
    else if hash in seen then Some("SEEN")
    else if |block| < MSG_HEADER + 4 then Some("INVALID_SIZE")
    else if !VersionOk(block[MSG_HEADER..]) then Some("SMALL_VERSION")
    else if |block| < MSG_HEADER + BLOCK_HEADER then Some("INVALID_SIZE")
    else match V.ReadVarint(block, MSG_HEADER + BLOCK_HEADER)
      case Short => Some("INVALID_SIZE")
      case Got(count, _) => if count < 1 || count > MAX_TXS then Some("TXCOUNT_RANGE") else None
  }

  function Header(block: Bytes): (r: Bytes)
    requires |block| >= MSG_HEADER + BLOCK_HEADER
    ensures |r| == BLOCK_HEADER
  {
    block[MSG_HEADER..MSG_HEADER + BLOCK_HEADER]
  }

  /** The walk over a block whose early checks passed. */
  function Walk(block: Bytes): (r: Parsed)
    requires |block| >= MSG_HEADER + BLOCK_HEADER && V.ReadVarint(block, MSG_HEADER + BLOCK_HEADER).Got?
  {
    var Got(count, p) := V.ReadVarint(block, MSG_HEADER + BLOCK_HEADER);
    ParseTxs(block, p, count)
  }

  function Frame(header: Bytes, items: seq<Item>): (r: Bytes)
  {
    FrameHeader(BLOCK_TYPE, |items|) + header + Codes(items)
  }

  /** Transactions are taken out of the cache as the walk finds them, also when it then fails. */
  function Compress(hp: Hashes, c: Cache, seen: set<Hash>, hash: Hash, block: Bytes, check: bool): (r: Compressed)
  {
    match EarlyRefusal(seen, hash, block, check)
    case Some(reason) => Compressed(Refused(reason), c, seen)
    case None =>
      var w := Walk(block);
      var c' := WithoutAll(c, w.txs);
      if !w.ok then Compressed(Refused("INVALID_SIZE"), c', seen)
      else if check && !MerkleOk(hp, Header(block), w.txs) then Compressed(Refused("INVALID_MERKLE"), c', seen)
      else Compressed(Sent(Frame(Header(block), ItemsFor(c, w.txs))), c', seen + {hash})
  }

  // ---- Decompressing ----

  datatype Decompressed =
    | Failed(reason: string, cache: Cache, seen: set<Hash>)
    | Delivered(payload: Bytes, hash: Hash, wireBytes: nat, cache: Cache, seen: set<Hash>, rest: Bytes)
    | Undefined(cache: Cache, seen: set<Hash>)  // a read outside the empty list of Merkle leaves

  /** The wire bytes the receiver counts: the frame without the block header. */
  function WireBytes(items: seq<Item>): (r: nat)
  {
    if items == [] then 12
    else WireBytes(items[1..]) + match items[0] case Ref(_) => 2 case Raw(data) => 5 + |data|
  }

  function Payload(header: Bytes, txs: seq<Bytes>): (r: Bytes)
    requires |txs| <= MAX_TXS
  {
    header + V.Encode(|txs|) + Flatten(txs)
  }

  /** s is what the connection still has to deliver. */
  function Decompress(hp: Hashes, c: Cache, seen: set<Hash>, count: nat, s: Bytes, check: bool): (r: Decompressed)
  {
    if count > MAX_TXS then Failed("got a BLOCK message with far too many transactions", c, seen)
    else if |s| < BLOCK_HEADER then Failed("failed to read block header", c, seen)
    else if !VersionOk(s) then Failed("block had version < 4", c, seen)
    else
      var header := s[..BLOCK_HEADER];
      var hash := hp.bytes(header);
      var seen' := seen + {hash};
      if check && !HasWork(hash) then Failed("block hash did not meet minimum difficulty target", c, seen')
      else match ReadItems(s[BLOCK_HEADER..], count)
        case Bad(reason) => Failed(reason, c, seen')
        case Items(items, rest) =>
          var r := Remove(c, Tweak(Ops(items, 0)));
          var txs := Fill(RawData(items), r.taken);
          if !r.ok then Failed("failed to find referenced transaction", r.rest, seen')
          else if check && txs == [] then Undefined(r.rest, seen')
          else if check && !MerkleOk(hp, header, txs) then Failed("merkle tree root did not match", r.rest, seen')
          else Delivered(Payload(header, txs), hash, WireBytes(items), r.rest, seen', rest)
  }

  // ---- The round trip ----

  /** What a receiver that checks demands of a block. */
  predicate Acceptable(hp: Hashes, header: Bytes, txs: seq<Bytes>)
    requires |header| == BLOCK_HEADER && txs != []
  {
    HasWork(hp.bytes(header)) && MerkleOk(hp, header, txs)
  }

  lemma SentWalk(hp: Hashes, c: Cache, seen: set<Hash>, hash: Hash, block: Bytes, check: bool)
    requires Compress(hp, c, seen, hash, block, check).out.Sent?
    ensures EarlyRefusal(seen, hash, block, check) == None
    ensures |block| >= MSG_HEADER + BLOCK_HEADER && V.ReadVarint(block, MSG_HEADER + BLOCK_HEADER).Got?
    ensures VersionOk(Header(block))
    ensures var w := Walk(block);
            && w.ok && 1 <= |w.txs| <= MAX_TXS && |w.txs| == V.ReadVarint(block, MSG_HEADER + BLOCK_HEADER).value
            && Compress(hp, c, seen, hash, block, check)
               == Compressed(Sent(Frame(Header(block), ItemsFor(c, w.txs))), WithoutAll(c, w.txs), seen + {hash})
            && (check && hash == hp.bytes(Header(block)) ==> Acceptable(hp, Header(block), w.txs))
  {
    assert block[MSG_HEADER..][..4] == Header(block)[..4];
  }

  /** Decompressing a frame made with the same cache.  The receiver refuses it only when it checks
      and the block is not acceptable; otherwise it delivers the header, the canonical count and the
      transactions, leaves the sender's new cache and reads exactly the frame. */
  lemma FrameRoundTrip(hp: Hashes, c: Cache, seen: set<Hash>, header: Bytes, txs: seq<Bytes>, check: bool, more: Bytes)
    requires |header| == BLOCK_HEADER && VersionOk(header) && 1 <= |txs| <= MAX_TXS
    requires |c| <= 65000 && RawFits(c, txs)
    ensures Decompress(hp, c, seen, |txs|, Frame(header, ItemsFor(c, txs))[12..] + more, check)
            == var seen', c' := seen + {hp.bytes(header)}, WithoutAll(c, txs);
               if check && !HasWork(hp.bytes(header)) then
                 Failed("block hash did not meet minimum difficulty target", c, seen')
               else if check && !MerkleOk(hp, header, txs) then
                 Failed("merkle tree root did not match", c', seen')
               else
                 Delivered(Payload(header, txs), hp.bytes(header), WireBytes(ItemsFor(c, txs)), c', seen', more)
  {
    hide ItemsFor, Ops, Remove, Tweak, Fill, RawData, ReadItems, Codes, Carried, MerkleOk, HasWork, V.FromLE, FrameHeader;
    var items := ItemsFor(c, txs);
    FrameBody(header, items, more);
    ItemsCarried(c, txs);
    ItemsRoundTrip(items, more);
    ReceiverRebuilds(c, txs);
  }

  /** The same when a transaction is spelled out that the receiver does not take: it refuses, and its
      cache is no longer the sender's if the sender found any of the block in its own. */
  lemma OversizeFrameRefused(hp: Hashes, c: Cache, seen: set<Hash>, header: Bytes, txs: seq<Bytes>, check: bool, more: Bytes)
    requires |header| == BLOCK_HEADER && VersionOk(header) && 1 <= |txs| <= MAX_TXS
    requires |c| <= 65000 && LengthsFit(txs) && !RawFits(c, txs)
    ensures Decompress(hp, c, seen, |txs|, Frame(header, ItemsFor(c, txs))[12..] + more, check)
            == Failed(if check && !HasWork(hp.bytes(header)) then "block hash did not meet minimum difficulty target"
                      else "got unreasonably large tx", c, seen + {hp.bytes(header)})
  {
    hide ItemsFor, ReadItems, Codes, RawFits, HasWork, V.FromLE, FrameHeader;
    FrameBody(header, ItemsFor(c, txs), more);
    ReadsBackIffFits(c, txs, more);
  }

  lemma FrameBody(header: Bytes, items: seq<Item>, more: Bytes)
    requires |header| == BLOCK_HEADER
    ensures var s := Frame(header, items)[12..] + more;
            |s| >= BLOCK_HEADER && s[..BLOCK_HEADER] == header && s[..4] == header[..4]
            && s[BLOCK_HEADER..] == Codes(items) + more
  {
    var h, cs := FrameHeader(BLOCK_TYPE, |items|), Codes(items);
    hide FrameHeader, Codes;
    Behind(h, header, cs);
    Assoc(header, cs, more);
    Front(header, cs + more);
  }

  lemma Behind(h: Bytes, a: Bytes, b: Bytes)
    ensures (h + a + b)[|h|..] == a + b
  {
  }

  lemma Front(a: Bytes, b: Bytes)
    ensures (a + b)[..|a|] == a && (a + b)[|a|..] == b
    ensures |a| >= 4 ==> (a + b)[..4] == a[..4]
  {
  }

  /** The counted bytes and the block header make up the frame. */
  lemma {:induction false} WireBytesAreFrameBytes(header: Bytes, items: seq<Item>)
    ensures WireBytes(items) + |header| == |Frame(header, items)|
  {
    if items != [] {
      WireBytesAreFrameBytes(header, items[1..]);
    }
  }

  /** The payload as the sender was given it, behind the message header. */
  function Given(block: Bytes): (r: Bytes)
    requires |block| >= MSG_HEADER
  {
    block[MSG_HEADER..]
  }

  /** The walk cuts a block into its header, the bytes of the count, the transactions and what
      follows the last of them. */
  lemma WalkedPayload(block: Bytes)
    requires |block| >= MSG_HEADER + BLOCK_HEADER
    requires V.ReadVarint(block, MSG_HEADER + BLOCK_HEADER).Got? && Walk(block).ok
    ensures var p, w := V.ReadVarint(block, MSG_HEADER + BLOCK_HEADER).next, Walk(block);
            && p <= w.end <= |block|
            && Given(block) == Header(block) + (block[MSG_HEADER + BLOCK_HEADER..p] + (Flatten(w.txs) + block[w.end..]))
  {
    hide ParseTxs, Flatten;
    var n := MSG_HEADER + BLOCK_HEADER;
    var Got(count, p) := V.ReadVarint(block, n);
    ParsedBytes(block, p, count);
    var e := Walk(block).end;
    SliceSplit(block, p, e, |block|);
    SliceSplit(block, n, p, |block|);
    SliceSplit(block, MSG_HEADER, n, |block|);
    assert block[e..|block|] == block[e..] && block[MSG_HEADER..|block|] == block[MSG_HEADER..];
  }

  /** A block whose count is spelled as short as it can be and that ends with its last transaction. */
  predicate WellFormed(block: Bytes)
    requires |block| >= MSG_HEADER + BLOCK_HEADER && V.ReadVarint(block, MSG_HEADER + BLOCK_HEADER).Got?
    requires Walk(block).ok && |Walk(block).txs| <= MAX_TXS
  {
    && block[MSG_HEADER + BLOCK_HEADER..V.ReadVarint(block, MSG_HEADER + BLOCK_HEADER).next] == V.Encode(|Walk(block).txs|)
    && Walk(block).end == |block|
  }

  /** What is delivered is what was given exactly for the well-formed blocks. */
  lemma DeliveredIsGiven(block: Bytes)
    requires |block| >= MSG_HEADER + BLOCK_HEADER && V.ReadVarint(block, MSG_HEADER + BLOCK_HEADER).Got?
    requires Walk(block).ok && |Walk(block).txs| <= MAX_TXS
    ensures Payload(Header(block), Walk(block).txs) == Given(block) <==> WellFormed(block)
  {
    hide ParseTxs, V.ReadVarint, Flatten, V.Encode;
    var n := MSG_HEADER + BLOCK_HEADER;
    var p, w := V.ReadVarint(block, n).next, Walk(block);
    WalkedPayload(block);
    V.EncodeIsShortest(block, n);
    SameTail(Header(block), V.Encode(|w.txs|), block[n..p], Flatten(w.txs), block[w.end..]);
  }

  lemma SameTail(h: Bytes, a: Bytes, b: Bytes, f: Bytes, t: Bytes)
    requires |a| <= |b|
    ensures h + a + f == h + (b + (f + t)) <==> a == b && t == []
  {
    var l, r := h + a + f, h + (b + (f + t));
    if l == r {
      assert |l| == |h| + |a| + |f| && |r| == |h| + |b| + |f| + |t|;
      assert l[|h|..|h| + |a|] == a && r[|h|..|h| + |b|] == b;
    } else if t == [] {
      assert f + t == f && h + a + f == h + (a + f);
    }
  }

  /** The round trip in one: with an equal cache, decompressing what was sent for a well-formed block
      delivers the block as it was given and leaves the sender's new cache. */
  lemma GivenRoundTrip(hp: Hashes, c: Cache, seen: set<Hash>, hash: Hash, block: Bytes, check: bool,
                       seen': set<Hash>, strict: bool, more: Bytes)
    requires Compress(hp, c, seen, hash, block, check).out.Sent?
    requires |block| >= MSG_HEADER + BLOCK_HEADER && V.ReadVarint(block, MSG_HEADER + BLOCK_HEADER).Got?
    requires Walk(block).ok && 1 <= |Walk(block).txs| <= MAX_TXS && WellFormed(block)
    requires |c| <= 65000 && RawFits(c, Walk(block).txs)
    requires strict ==> Acceptable(hp, Header(block), Walk(block).txs)
    ensures var k, h := Compress(hp, c, seen, hash, block, check), hp.bytes(Header(block));
            Decompress(hp, c, seen', |Walk(block).txs|, k.out.frame[12..] + more, strict)
            == Delivered(Given(block), h, |k.out.frame| - BLOCK_HEADER, k.cache, seen' + {h}, more)
  {
    hide Compress, Decompress, Walk, WellFormed, Payload, Frame, RawFits, ItemsFor, WithoutAll, WireBytes, VersionOk, Acceptable;
    SentWalk(hp, c, seen, hash, block, check);
    var header, txs := Header(block), Walk(block).txs;
    AcceptableIs(hp, header, txs);
    FrameRoundTrip(hp, c, seen', header, txs, strict, more);
    WireBytesAreFrameBytes(header, ItemsFor(c, txs));
    DeliveredIsGiven(block);
  }

  lemma AcceptableIs(hp: Hashes, header: Bytes, txs: seq<Bytes>)
    requires |header| == BLOCK_HEADER && txs != []
    ensures Acceptable(hp, header, txs) == (HasWork(hp.bytes(header)) && MerkleOk(hp, header, txs))
  {
  }

  // ---- Payloads made of transactions ----

  lemma {:induction false} ParseBuilt(a: Bytes, txs: seq<Bytes>)
    requires forall i :: 0 <= i < |txs| ==> TxEnd(txs[i], 0) == Some(|txs[i]|)
    ensures ParseTxs(a + Flatten(txs), |a|, |txs|) == Parsed(txs, true, |a| + |Flatten(txs)|)
    decreases |txs|
  {
    hide TxEnd;
    if txs != [] {
      var x, rest := txs[0], Flatten(txs[1..]);
      TxEndMoves(x, a, rest);
      ParseBuilt(a + x, txs[1..]);
      assert a + Flatten(txs) == a + x + rest;
      assert (a + x + rest)[|a|..|a| + |x|] == x;
      Uncons(txs);
    } else {
      assert a + Flatten(txs) == a;
    }
  }

  /** Every block made of a header, a canonical count and byte strings that are walked to their ends is
      walked back into them, and is well-formed. */
  lemma WalkedBlock(msgHeader: Bytes, header: Bytes, txs: seq<Bytes>)
    requires |msgHeader| == MSG_HEADER && |header| == BLOCK_HEADER && 1 <= |txs| <= MAX_TXS
    requires forall i :: 0 <= i < |txs| ==> TxEnd(txs[i], 0) == Some(|txs[i]|)
    ensures var block := msgHeader + Payload(header, txs);
            && Header(block) == header && Given(block) == Payload(header, txs)
            && V.ReadVarint(block, MSG_HEADER + BLOCK_HEADER).Got?
            && V.ReadVarint(block, MSG_HEADER + BLOCK_HEADER).value == |txs|
            && Walk(block).ok && Walk(block).txs == txs && WellFormed(block)
  {
    hide TxEnd, ParseTxs, Flatten, V.Encode, V.ReadVarint;
    var count, f := V.Encode(|txs|), Flatten(txs);
    var block, front := msgHeader + Payload(header, txs), msgHeader + header;
    assert block == front + count + f;
    V.RoundTrip(|txs|, []);
    assert count + [] == count;
    V.ReadVarintMoves(count, 0, front, f);
    ParseBuilt(front + count, txs);
    assert Header(block) == header;
    assert Given(block) == Payload(header, txs);
    DeliveredIsGiven(block);
  }

  /** A payload of byte strings that are walked to their ends is sent when its hash is new and passes the
      sender's checks, and delivered byte for byte. */
  lemma WalkedRoundTrip(hp: Hashes, c: Cache, seen: set<Hash>, hash: Hash, msgHeader: Bytes, header: Bytes, txs: seq<Bytes>,
                         check: bool, seen': set<Hash>, strict: bool, more: Bytes)
    requires |msgHeader| == MSG_HEADER && |header| == BLOCK_HEADER && 1 <= |txs| <= MAX_TXS
    requires forall i :: 0 <= i < |txs| ==> TxEnd(txs[i], 0) == Some(|txs[i]|)
    requires VersionOk(header) && hash !in seen && |c| <= 65000 && RawFits(c, txs)
    requires check ==> HasWork(hash) && MerkleOk(hp, header, txs)
    requires strict ==> Acceptable(hp, header, txs)
    ensures var k := Compress(hp, c, seen, hash, msgHeader + Payload(header, txs), check);
            && k == Compressed(Sent(Frame(header, ItemsFor(c, txs))), WithoutAll(c, txs), seen + {hash})
            && Decompress(hp, c, seen', |txs|, k.out.frame[12..] + more, strict)
               == Delivered(Payload(header, txs), hp.bytes(header), |k.out.frame| - BLOCK_HEADER, k.cache,
                            seen' + {hp.bytes(header)}, more)
  {
    hide Decompress, Walk, WellFormed, Payload, Frame, RawFits, ItemsFor, WithoutAll, Acceptable, TxEnd, HasWork, MerkleOk, V.FromLE;
    var block := msgHeader + Payload(header, txs);
    WalkedBlock(msgHeader, header, txs);
    assert block[MSG_HEADER..][..4] == Header(block)[..4];
    assert EarlyRefusal(seen, hash, block, check) == None;
    GivenRoundTrip(hp, c, seen, hash, block, check, seen', strict, more);
  }

  /** Every block made of a header, a canonical count and transactions is walked back into them, and is
      well-formed. */
  lemma BuiltBlock(msgHeader: Bytes, header: Bytes, ts: seq<Transaction>)
    requires |msgHeader| == MSG_HEADER && |header| == BLOCK_HEADER && 1 <= |ts| <= MAX_TXS
    requires forall i :: 0 <= i < |ts| ==> Proper(ts[i])
    ensures var block := msgHeader + Payload(header, Sers(ts));
            && Header(block) == header && Given(block) == Payload(header, Sers(ts))
            && V.ReadVarint(block, MSG_HEADER + BLOCK_HEADER).Got?
            && V.ReadVarint(block, MSG_HEADER + BLOCK_HEADER).value == |ts|
            && Walk(block).ok && Walk(block).txs == Sers(ts) && WellFormed(block)
  {
    SersEnd(ts);
    hide Proper, Sers;
    WalkedBlock(msgHeader, header, Sers(ts));
  }

  /** Every payload made of a header of version 4 or more, a canonical count and transactions is sent when
      its hash is new and passes the sender's checks, and delivered byte for byte. */
  lemma PayloadRoundTrip(hp: Hashes, c: Cache, seen: set<Hash>, hash: Hash, msgHeader: Bytes, header: Bytes,
                         ts: seq<Transaction>, check: bool, seen': set<Hash>, strict: bool, more: Bytes)
    requires |msgHeader| == MSG_HEADER && |header| == BLOCK_HEADER && 1 <= |ts| <= MAX_TXS
    requires forall i :: 0 <= i < |ts| ==> Proper(ts[i])
    requires VersionOk(header) && hash !in seen && |c| <= 65000 && RawFits(c, Sers(ts))
    requires check ==> HasWork(hash) && MerkleOk(hp, header, Sers(ts))
    requires strict ==> Acceptable(hp, header, Sers(ts))
    ensures var k := Compress(hp, c, seen, hash, msgHeader + Payload(header, Sers(ts)), check);
            && k == Compressed(Sent(Frame(header, ItemsFor(c, Sers(ts)))), WithoutAll(c, Sers(ts)), seen + {hash})
            && Decompress(hp, c, seen', |ts|, k.out.frame[12..] + more, strict)
               == Delivered(Payload(header, Sers(ts)), hp.bytes(header), |k.out.frame| - BLOCK_HEADER, k.cache,
                            seen' + {hp.bytes(header)}, more)
  {
    SersEnd(ts);
    hide Proper, Sers;
    WalkedRoundTrip(hp, c, seen, hash, msgHeader, header, Sers(ts), check, seen', strict, more);
  }

  // ---- What is sent and what is refused, in terms of the bytes ----

  /** The version bytes as a signed little-endian number of at least 4. */
  predicate VersionBytes(s: Bytes)
    requires |s| >= 4
  {
    s[3] < 0x80 && (s[3] > 0 || s[2] > 0 || s[1] > 0 || s[0] >= 4)
  }

  predicate WorkBytes(hash: Hash)
  {
    forall i :: 25 <= i < 32 ==> hash[i] == 0
  }

  lemma VersionIs(s: Bytes)
    requires |s| >= 4
    ensures VersionOk(s) == VersionBytes(s)
  {
    var f := s[..4];
    assert f[1..][1..] == f[2..] && f[2..][1..] == f[3..] && f[3..][1..] == [];
    assert V.FromLE(f[3..]) == s[3] as int;
    assert V.FromLE(f[2..]) == s[2] as int + 0x100 * V.FromLE(f[3..]);
    assert V.FromLE(f[1..]) == s[1] as int + 0x100 * V.FromLE(f[2..]);
  }

  lemma WorkIs(hash: Hash)
    ensures HasWork(hash) == WorkBytes(hash)
  {
    var tail := hash[25..];
    assert |tail| == 7 && forall i :: 25 <= i < 32 ==> hash[i] == tail[i - 25];
    if WorkBytes(hash) {
      assert tail == [0, 0, 0, 0, 0, 0, 0];
    }
  }

  /** The Merkle root sits in the header behind the version and the previous block's hash. */
  lemma RootField(hp: Hashes, version: Bytes, previous: Hash, root: Hash, rest: Bytes, txs: seq<Bytes>)
    requires |version| == 4 && |rest| == 12 && txs != []
    ensures MerkleOk(hp, version + previous + root + rest, txs) <==>
              NoTwinTail(hp.pair, Leaves(hp, txs)) && Root(hp.pair, Leaves(hp, txs)) == root
  {
    assert (version + previous + root + rest)[36..68] == root;
  }

  /** A block is sent exactly when its hash is new, its header is complete and of version 4 or more, its
      count is 1 to 100000, its transactions are complete, and, if that is checked, its hash ends in
      seven zero bytes and its leaves have the root at bytes 60 to 92. */
  lemma SentExactly(hp: Hashes, c: Cache, seen: set<Hash>, hash: Hash, block: Bytes, check: bool)
    ensures Compress(hp, c, seen, hash, block, check).out.Sent? <==>
              && hash !in seen && (check ==> WorkBytes(hash))
              && |block| >= 104 && VersionBytes(block[24..28])
              && V.ReadVarint(block, 104).Got? && 1 <= V.ReadVarint(block, 104).value <= 100000
              && Walk(block).ok
              && (check ==>
                    var leaves := Leaves(hp, Walk(block).txs);
                    NoTwinTail(hp.pair, leaves) && Root(hp.pair, leaves) == block[60..92])
  {
    EarlyWhen(seen, hash, block, check);
    hide EarlyRefusal, WorkBytes, V.ReadVarint, ParseTxs, VersionBytes, Leaves, NoTwinTail, Root, MerkleOk, ItemsFor, WithoutAll;
    if EarlyRefusal(seen, hash, block, check) == None && Walk(block).ok {
      MerkleAt(hp, block, Walk(block).txs);
    }
  }

  lemma MerkleAt(hp: Hashes, block: Bytes, txs: seq<Bytes>)
    requires |block| >= 104 && txs != []
    ensures MerkleOk(hp, Header(block), txs) <==>
              NoTwinTail(hp.pair, Leaves(hp, txs)) && Root(hp.pair, Leaves(hp, txs)) == block[60..92]
  {
    assert Header(block)[36..68] == block[60..92];
  }

  /** When nothing speaks against a block before its transactions are walked. */
  lemma EarlyWhen(seen: set<Hash>, hash: Hash, block: Bytes, check: bool)
    ensures EarlyRefusal(seen, hash, block, check) == None <==>
              && hash !in seen && (check ==> WorkBytes(hash))
              && |block| >= 104 && VersionBytes(block[24..28])
              && V.ReadVarint(block, 104).Got? && 1 <= V.ReadVarint(block, 104).value <= 100000
  {
    WorkIs(hash);
    hide HasWork, WorkBytes, V.FromLE, V.ReadVarint, VersionBytes, VersionOk;
    if |block| >= 28 {
      VersionAt(block);
    }
  }

  lemma VersionAt(block: Bytes)
    requires |block| >= 28
    ensures VersionOk(block[24..]) == VersionBytes(block[24..28])
  {
    VersionIs(block[24..]);
  }

  /** Why a block is refused: the first of these that applies. */
  lemma RefusedBecause(hp: Hashes, c: Cache, seen: set<Hash>, hash: Hash, block: Bytes, check: bool)
    ensures var out := Compress(hp, c, seen, hash, block, check).out;
            if check && !WorkBytes(hash) then out == Refused("BAD_WORK")
            else if hash in seen then out == Refused("SEEN")
            else if |block| >= 28 && !VersionBytes(block[24..28]) then out == Refused("SMALL_VERSION")
            else if |block| < 104 || V.ReadVarint(block, 104).Short? then out == Refused("INVALID_SIZE")
            else if !(1 <= V.ReadVarint(block, 104).value <= 100000) then out == Refused("TXCOUNT_RANGE")
            else if !Walk(block).ok then out == Refused("INVALID_SIZE")
            else out == Refused("INVALID_MERKLE") || out.Sent?
  {
    WorkIs(hash);
    hide HasWork, WorkBytes, V.FromLE, V.ReadVarint, ParseTxs, VersionBytes, MerkleOk;
    if |block| >= 28 {
      VersionAt(block);
    }
  }

  /** A frame header: the magic number, the type and the length, each in network order. */
  lemma WireHeader(kind: nat, length: nat)
    requires kind < 0x100 && length < 0x1_0000_0000
    ensures FrameHeader(kind, length)[..8] == [0xF2, 0xBE, 0xEF, 0x42, 0, 0, 0, kind]
    ensures var h := FrameHeader(kind, length);
            0x100_0000 * (h[8] as int) + 0x1_0000 * (h[9] as int) + 0x100 * (h[10] as int) + h[11] as int == length
  {
    var h := FrameHeader(kind, length);
    BE32RoundTrip(length);
    assert BE32(RELAY_MAGIC) == [0xF2, 0xBE, 0xEF, 0x42] && BE32(kind) == [0, 0, 0, kind];
    hide BE32;
    assert h[8..] == BE32(length);
    FromBE4(h[8..]);
  }

  /** What any delivered message, honest or not, guarantees: the tests were passed by what is delivered;
      every transaction was spelled out, with at most 1000000 bytes, or is in the receiver's cache; and
      the cache loses one entry for each reference, nothing else. */
  lemma DeliveredSound(hp: Hashes, c: Cache, seen: set<Hash>, count: nat, s: Bytes, check: bool)
    returns (txs: seq<Bytes>, used: seq<Entry>)
    requires Decompress(hp, c, seen, count, s, check).Delivered?
    ensures var d := Decompress(hp, c, seen, count, s, check);
            && |txs| == count <= 100000 && |s| >= 80 && VersionBytes(s[..4])
            && d.payload == s[..80] + V.Encode(count) + Flatten(txs)
            && d.hash == hp.bytes(s[..80]) && d.seen == seen + {d.hash}
            && (check ==> WorkBytes(d.hash) && count >= 1 && NoTwinTail(hp.pair, Leaves(hp, txs))
                          && Root(hp.pair, Leaves(hp, txs)) == s[36..68])
            && (forall p :: 0 <= p < count ==>
                  |txs[p]| <= 1000000 || exists k :: 0 <= k < |c| && c[k].elem == txs[p])
            && multiset(c) == multiset(d.cache) + multiset(used)
            && |d.rest| < |s| && |used| <= count
  {
    hide Tweak, Remove, Fill, RawData, Ops, ReadItems, HasWork, WorkBytes, V.FromLE, VersionBytes, Flatten, V.Encode, Leaves, NoTwinTail, Root, WireBytes;
    var header := s[..BLOCK_HEADER];
    var read := ReadItems(s[BLOCK_HEADER..], count);
    var ops := Tweak(Ops(read.items, 0));
    var r := Remove(c, ops);
    txs, used := Fill(RawData(read.items), r.taken), Seconds(r.taken);
    VersionIs(s);
    assert VersionBytes(s) == VersionBytes(s[..4]) by {
      VersionFront(s);
    }
    WorkIs(hp.bytes(header));
    RemoveConserves(c, ops);
    TakenAt(c, ops);
    TweakAscending(Ops(read.items, 0));
    OpsFew(read.items, 0);
    assert header[36..68] == s[36..68];
    forall p | 0 <= p < count
      ensures |txs[p]| <= 1000000 || exists k :: 0 <= k < |c| && c[k].elem == txs[p]
    {
      DeliveredFrom(c, read.items, p);
      ReadSizes(s[BLOCK_HEADER..], count, p);
    }
  }

  lemma VersionFront(s: Bytes)
    requires |s| >= 4
    ensures VersionBytes(s) == VersionBytes(s[..4])
  {
  }

  // ---- A block message without transactions ----

  /** A checking receiver that is sent a count of 0 has no defined outcome exactly when the header that
      follows is complete, of version 4 or more and has the work: any mined block header. */
  lemma EmptyBlockUndefined(hp: Hashes, c: Cache, seen: set<Hash>, count: nat, s: Bytes, check: bool)
    ensures Decompress(hp, c, seen, count, s, check).Undefined? <==>
              && check && count == 0
              && |s| >= BLOCK_HEADER && VersionOk(s) && HasWork(hp.bytes(s[..BLOCK_HEADER]))
  {
    hide VersionOk, HasWork, MerkleOk;
    if count == 0 && |s| >= BLOCK_HEADER {
      assert ReadItems(s[BLOCK_HEADER..], 0) == Items([], s[BLOCK_HEADER..]);
      assert Remove(c, Tweak(Ops([], 0))) == Removal(true, c, []);
    }
  }

  // ---- A compression that fails after it began ----

  lemma {:induction false} WithoutAllShrinks(c: Cache, txs: seq<Bytes>)
    ensures |WithoutAll(c, txs)| <= |c|
    ensures WithoutAll(c, txs) == c <==> forall i :: 0 <= i < |txs| ==> IndexOf(c, txs[i]) < 0
    decreases |txs|
  {
    if txs != [] {
      WithoutAllShrinks(Without(c, txs[0]), txs[1..]);
      Uncons(txs);
      assert forall i :: 1 <= i < |txs| ==> txs[i] == txs[1..][i - 1];
    }
  }

  /** A refused compression leaves the cache alone exactly when the refusal came before the walk or
      the walk met no cached transaction before it ended. */
  lemma RefusalKeepsCache(hp: Hashes, c: Cache, seen: set<Hash>, hash: Hash, block: Bytes, check: bool)
    requires Compress(hp, c, seen, hash, block, check).out.Refused?
    ensures Compress(hp, c, seen, hash, block, check).cache == c <==>
            || EarlyRefusal(seen, hash, block, check).Some?
            || forall i :: 0 <= i < |Walk(block).txs| ==> IndexOf(c, Walk(block).txs[i]) < 0
  {
    if EarlyRefusal(seen, hash, block, check) == None {
      WithoutAllShrinks(c, Walk(block).txs);
    }
  }
}
