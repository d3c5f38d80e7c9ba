/** RelayNodeCompressor itself (c++/relayprocess.cpp, c++/relayprocess.h): its methods over two
    FlaggedArraySets compute what Compression and TxRelay say. */
module Compressors {
  import opened Basics
  import opened TxCache
  import opened TweakSort
  import opened BlockFormat
  import opened Merkle
  import opened Compression
  import opened TxRelay
  import opened FlaggedArraySets
  import V = Varint

  /** Stands for the outcome of a read outside a vector. */
  const UNDEFINED: string := "undefined"

  /** The bytes a connection still delivers; a read is complete or fails. */
  class Reader {
    var pending: Bytes

    constructor (pending: Bytes)
      ensures this.pending == pending
    {
      this.pending := pending;
    }

    method ReadAll(n: nat) returns (r: Option<Bytes>)
      modifies this
      ensures n <= |old(pending)| ==> r == Some(old(pending)[..n]) && pending == old(pending)[n..]
      ensures n > |old(pending)| ==> r == None && pending == []
    {
      if n <= |pending| {
        r := Some(pending[..n]);
        pending := pending[n..];
      } else {
        r, pending := None, [];
      }
    }
  }

  method WalkInputs(s: Bytes, p: nat, n: nat) returns (r: Option<nat>)
    requires p <= |s|
    ensures r == SkipInputs(s, p, n)
  {
    hide V.ReadVarint;
    var q: nat, j: nat := p, 0;
    while j < n
      invariant 0 <= j <= n && q <= |s|
      invariant SkipInputs(s, q, n - j) == SkipInputs(s, p, n)
    {
      if q + 36 > |s| {
        return None;
      }
      var len := V.ReadVarint(s, q + 36);
      if len.Short? || len.next + (len.value + 4) % U64 > |s| {
        return None;
      }
      q, j := len.next + (len.value + 4) % U64, j + 1;
    }
    r := Some(q);
  }

  method WalkOutputs(s: Bytes, p: nat, n: nat) returns (r: Option<nat>)
    requires p <= |s|
    ensures r == SkipOutputs(s, p, n)
  {
    hide V.ReadVarint;
    var q: nat, j: nat := p, 0;
    while j < n
      invariant 0 <= j <= n && q <= |s|
      invariant SkipOutputs(s, q, n - j) == SkipOutputs(s, p, n)
    {
      if q + 8 > |s| {
        return None;
      }
      var len := V.ReadVarint(s, q + 8);
      if len.Short? || len.next + len.value > |s| {
        return None;
      }
      q, j := len.next + len.value, j + 1;
    }
    r := Some(q);
  }

  /** Walks one transaction. */
  method WalkTx(s: Bytes, p: nat) returns (r: Option<nat>)
    ensures r == TxEnd(s, p)
  {
    hide V.ReadVarint, SkipInputs, SkipOutputs;
    if p + 4 > |s| {
      return None;
    }
    var ins := V.ReadVarint(s, p + 4);
    if ins.Short? {
      return None;
    }
    var q := WalkInputs(s, ins.next, ins.value);
    if q == None {
      return None;
    }
    var outs := V.ReadVarint(s, q.value);
    if outs.Short? {
      return None;
    }
    q := WalkOutputs(s, outs.next, outs.value);
    r := if q.Some? && q.value + 4 <= |s| then Some(q.value + 4) else None;
  }

  method ReadOne(input: Reader) returns (err: Option<string>, item: Item)
    modifies input
    ensures match ReadItem(old(input.pending))
            case Bad(reason) => err == Some(reason)
            case Items(one, rest) => err == None && one == [item] && input.pending == rest
  {
    ghost var s := input.pending;
    item := Raw([]);
    var two := input.ReadAll(2);
    if two == None {
      return Some("failed to read tx index"), item;
    }
    var index := FromBE(two.value);
    if index != 0xffff {
      return None, Ref(index);
    }
    var three := input.ReadAll(3);
    if three == None {
      return Some("failed to read tx length"), item;
    }
    assert three.value == s[2..5];
    var size := FromBE(three.value);
    if size > 1000000 {
      return Some("got unreasonably large tx"), item;
    }
    var tx := input.ReadAll(size);
    if tx == None {
      return Some("failed to read transaction data"), item;
    }
    assert tx.value == s[5..5 + size] && input.pending == s[5 + size..];
    return None, Raw(tx.value);
  }

  /** With i items read and s still to read: what the whole run of reads comes to. */
  ghost predicate SoFar(all: ItemsRead, s: Bytes, n: nat, i: nat, ptrs: seq<IndexPtr>, wire: nat)
  {
    var r := ReadItems(s, n);
    && (all.Bad? ==> r == all)
    && (all.Items? ==>
          && r.Items? && r.rest == all.rest && i <= |all.items| && r.items == all.items[i..]
          && ptrs + Ops(r.items, i) == Ops(all.items, 0)
          && wire + WireBytes(r.items) == WireBytes(all.items) + 12)
  }

  lemma SoFarStart(s: Bytes, n: nat)
    ensures SoFar(ReadItems(s, n), s, n, 0, [], 12)
  {
  }

  lemma SoFarEnd(all: ItemsRead, s: Bytes, i: nat, ptrs: seq<IndexPtr>, wire: nat)
    requires SoFar(all, s, 0, i, ptrs, wire)
    ensures all.Items? && all.rest == s && |all.items| == i && ptrs == Ops(all.items, 0) && wire == WireBytes(all.items)
  {
  }

  /** One round of the read loop. */
  lemma SoFarStep(all: ItemsRead, s: Bytes, n: nat, i: nat, ptrs: seq<IndexPtr>, wire: nat)
    requires n > 0 && SoFar(all, s, n, i, ptrs, wire)
    ensures ReadItem(s).Bad? ==> all == ReadItem(s)
    ensures ReadItem(s).Items? ==>
            var it, rest := ReadItem(s).items[0], ReadItem(s).rest;
            && (all.Items? ==> i < |all.items| && all.items[i] == it)
            && (it.Ref? ==> SoFar(all, rest, n - 1, i + 1, ptrs + [IndexPtr(it.index, i)], wire + 2))
            && (it.Raw? ==> SoFar(all, rest, n - 1, i + 1, ptrs, wire + 5 + |it.data|))
  {
    hide ReadItem;
    if ReadItem(s).Items? && ReadItems(ReadItem(s).rest, n - 1).Items? {
      var one, items := ReadItem(s).items, ReadItems(ReadItem(s).rest, n - 1).items;
      Uncons(one);
      assert one[1..] == [];
      ConsAppend(one[0], items, []);
      if all.Items? {
        TailStep(all.items, i, one[0], items);
        if one[0].Ref? {
          MoveOver(ptrs, IndexPtr(one[0].index, i), IndexPtr(one[0].index, i), Ops(items, i + 1));
        } else {
          assert [] + Ops(items, i + 1) == Ops(items, i + 1);
        }
      }
    }
  }

  /** One round of the removal loop, in the words of the specification. */
  lemma RemoveStep(c: Cache, ops: seq<IndexPtr>, data: seq<Bytes>)
    requires forall k :: 0 <= k < |ops| ==> ops[k].pos < |data|
    ensures ops == [] ==> Remove(c, ops) == Removal(true, c, []) && Fill(data, []) == data
    ensures ops != [] && ops[0].index >= |c| ==> Remove(c, ops) == Removal(false, c, [])
    ensures ops != [] && ops[0].index < |c| ==>
            var r, e := Remove(RemoveAt(c, ops[0].index), ops[1..]), c[ops[0].index];
            && Remove(c, ops).ok == r.ok && Remove(c, ops).rest == r.rest
            && Fill(data, Remove(c, ops).taken) == Fill(data[ops[0].pos := e.elem], r.taken)
  {
  }

  lemma FlattenStep(parts: seq<Bytes>)
    ensures Flatten(parts) == if parts == [] then [] else parts[0] + Flatten(parts[1..])
  {
  }

  lemma WholeRange(ops: seq<IndexPtr>)
    ensures TweakedRange(ops, 0, |ops|) == Tweak(ops)
  {
    hide Tweak;
    TweakAscending(ops);
    assert ops[0..|ops|] == ops && ops[..0] == [] && ops[|ops|..] == [];
  }

  class RelayNodeCompressor {
    const useOldFlags: bool
    const hp: Hashes
    const sendCache: FlaggedArraySet
    const recvCache: FlaggedArraySet
    var blocksAlreadySeen: set<Hash>

    ghost predicate Valid()
      reads this, sendCache, recvCache
    {
      && sendCache != recvCache && sendCache.Valid() && recvCache.Valid()
      && sendCache.lim == recvCache.lim == LimitsOf(useOldFlags)
      && sendCache.hash == recvCache.hash == hp.bytes
    }

    constructor (useOldFlags: bool, hp: Hashes)
      ensures Valid() && fresh(sendCache) && fresh(recvCache)
      ensures this.useOldFlags == useOldFlags && this.hp == hp && blocksAlreadySeen == {}
      ensures sendCache.Contents() == recvCache.Contents() == []
    {
      this.useOldFlags, this.hp, blocksAlreadySeen := useOldFlags, hp, {};
      sendCache := new FlaggedArraySet(LimitsOf(useOldFlags), hp.bytes);
      recvCache := new FlaggedArraySet(LimitsOf(useOldFlags), hp.bytes);
    }

    method GetRelayTransaction(tx: Bytes) returns (msg: Option<Bytes>)
      requires Valid()
      modifies sendCache
      ensures Valid()
      ensures (msg, sendCache.Contents()) == SendTx(useOldFlags, old(sendCache.Contents()), tx)
    {
      var cached := sendCache.Contains(tx);
      sendCache.Views();
      if cached {
        return None;
      }
      if !useOldFlags {
        if |tx| > MAX_RELAY_TRANSACTION_BYTES {
          return None;
        }
        sendCache.Add(tx, |tx|);
      }
      if useOldFlags {
        if |tx| > OLD_MAX_RELAY_TRANSACTION_BYTES &&
           (sendCache.FlagCount() >= OLD_MAX_EXTRA_OVERSIZE_TRANSACTIONS || |tx| > OLD_MAX_RELAY_OVERSIZE_TRANSACTION_BYTES)
        {
          return None;
        }
        sendCache.Add(tx, if |tx| > OLD_MAX_RELAY_TRANSACTION_BYTES then 1 else 0);
      }
      msg := Some(TxFrame(tx));
    }

    /** recv_tx; its assertion is the caller's duty, discharged by maybe_recv_tx_of_size. */
    method RecvTx(tx: Bytes)
      requires Valid() && MayReceive(useOldFlags, FlagSum(recvCache.Contents()), |tx|)
      modifies recvCache
      ensures Valid()
      ensures recvCache.Contents() == Admit(useOldFlags, old(recvCache.Contents()), tx)
    {
      recvCache.Add(tx, FlagOf(useOldFlags, |tx|));
    }

    method ForEachSentTx() returns (txs: seq<Bytes>)
      requires Valid()
      modifies sendCache
      ensures Valid() && sendCache.Contents() == old(sendCache.Contents())
      ensures txs == Elems(sendCache.Contents())
    {
      txs := sendCache.ForAll();
    }

    method Reset()
      requires Valid()
      modifies sendCache, recvCache
      ensures Valid() && sendCache.Contents() == recvCache.Contents() == []
    {
      recvCache.Clear();
      sendCache.Clear();
    }

    /** One transaction of the loop: takes it out of the cache and appends its code. */
    method CompressTx(tx: Bytes, frame: Bytes) returns (frame': Bytes)
      requires Valid()
      modifies sendCache
      ensures Valid() && sendCache.Contents() == Without(old(sendCache.Contents()), tx)
      ensures frame' == frame + Code(ItemFor(old(sendCache.Contents()), tx))
    {
      var index := sendCache.RemoveValue(tx);
      if index < 0 {
        frame' := frame + ([0xff, 0xff] + BE24(|tx|) + tx);
      } else {
        frame' := frame + BE16(index);
      }
    }

    /** The transaction loop of maybe_compress_block. */
    method CompressTxs(block: Bytes, start: nat, count: nat, prefix: Bytes, check: bool, tree: MerkleTreeBuilder)
      returns (ok: bool, frame: Bytes)
      requires Valid()
      requires check ==> tree.hashlist.Length == count
      modifies sendCache, tree.hashlist
      ensures Valid()
      ensures var w, c := ParseTxs(block, start, count), old(sendCache.Contents());
              && ok == w.ok && sendCache.Contents() == WithoutAll(c, w.txs)
              && (ok ==> frame == prefix + Codes(ItemsFor(c, w.txs)))
              && (ok && check ==> tree.hashlist[..] == Leaves(hp, w.txs))
    {
      hide TxEnd, Codes, ItemsFor, ItemFor, WithoutAll, Without, ParseTxs, Code;
      hide TableList, Pending, PendingFlags, RemoveEach, FlagSum, LimitsOf;
      ghost var c0, w0 := sendCache.Contents(), ParseTxs(block, start, count);
      ghost var w := w0;
      ok, frame := true, prefix;
      var i: nat, p: nat := 0, start;
      while i < count
        invariant 0 <= i <= count
        invariant Valid()
        invariant w == ParseTxs(block, p, count - i)
        invariant w.ok == w0.ok && i <= |w0.txs| && w.txs == w0.txs[i..]
        invariant WithoutAll(sendCache.Contents(), w.txs) == WithoutAll(c0, w0.txs)
        invariant frame + Codes(ItemsFor(sendCache.Contents(), w.txs)) == prefix + Codes(ItemsFor(c0, w0.txs))
        invariant check ==> forall k :: 0 <= k < i ==> tree.hashlist[k] == hp.bytes(w0.txs[k])
      {
        ghost var c := sendCache.Contents();
        ParseStep(block, p, count - i, c);
        var next := WalkTx(block, p);
        if next == None {
          return false, [];
        }
        var tx := block[p..next.value];
        w := ParseTxs(block, next.value, count - i - 1);
        TailStep(w0.txs, i, tx, w.txs);
        Assoc(frame, Code(ItemFor(c, tx)), Codes(ItemsFor(Without(c, tx), w.txs)));
        frame := CompressTx(tx, frame);
        if check {
          tree.hashlist[i] := hp.bytes(tx);
        }
        i, p := i + 1, next.value;
      }
      ParseStep(block, p, 0, sendCache.Contents());
      assert frame + [] == frame;
    }

    method MaybeCompressBlock(hash: Hash, block: Bytes, check: bool) returns (out: Outcome)
      requires Valid()
      modifies this`blocksAlreadySeen, sendCache
      ensures Valid()
      ensures Compressed(out, sendCache.Contents(), blocksAlreadySeen)
              == Compress(hp, old(sendCache.Contents()), old(blocksAlreadySeen), hash, block, check)
    {
      hide WithoutAll, ItemsFor, Codes, ParseTxs, V.ReadVarint, V.FromLE, Accepts, HasWork, FrameHeader, Leaves;
      hide TableList, Pending, PendingFlags, RemoveEach, FlagSum, LimitsOf;
      if check && !HasWork(hash) {
        return Refused("BAD_WORK");
      }
      if hash in blocksAlreadySeen {
        return Refused("SEEN");
      }
      if |block| < MSG_HEADER + 4 {
        return Refused("INVALID_SIZE");
      }
      if !VersionOk(block[MSG_HEADER..]) {
        return Refused("SMALL_VERSION");
      }
      if |block| < MSG_HEADER + BLOCK_HEADER {
        return Refused("INVALID_SIZE");
      }
      var count := V.ReadVarint(block, MSG_HEADER + BLOCK_HEADER);
      if count.Short? {
        return Refused("INVALID_SIZE");
      }
      if count.value < 1 || count.value > MAX_TXS {
        return Refused("TXCOUNT_RANGE");
      }
      var header := Header(block);
      var tree := new MerkleTreeBuilder(if check then count.value else 0);
      var ok, frame := CompressTxs(block, count.next, count.value, FrameHeader(BLOCK_TYPE, count.value) + header, check, tree);
      if !ok {
        return Refused("INVALID_SIZE");
      }
      if check {
        var matches := tree.RootMatches(hp.pair, header[36..68]);
        if matches == Some(false) {
          return Refused("INVALID_MERKLE");
        }
      }
      blocksAlreadySeen := blocksAlreadySeen + {hash};
      out := Sent(frame);
    }

    /** The read loop of decompress_relay_block. */
    method ReadAllItems(input: Reader, count: nat, data: array<Bytes>, check: bool, tree: MerkleTreeBuilder)
      returns (err: Option<string>, ptrs: seq<IndexPtr>, wire: nat)
      requires data.Length == count && (check ==> tree.hashlist.Length == count)
      requires data as object != tree.hashlist
      requires forall k :: 0 <= k < count ==> data[k] == []
      modifies input, data, tree.hashlist
      ensures match ReadItems(old(input.pending), count)
              case Bad(reason) => err == Some(reason)
              case Items(items, rest) =>
                && err == None && input.pending == rest
                && ptrs == Ops(items, 0) && wire == WireBytes(items) && data[..] == RawData(items)
                && (check ==> forall k :: 0 <= k < count && items[k].Raw? ==> tree.hashlist[k] == hp.bytes(data[k]))
    {
      hide SoFar, ReadItem, ReadItems, Ops, WireBytes, RawData;
      ghost var all := ReadItems(input.pending, count);
      SoFarStart(input.pending, count);
      err, ptrs, wire := None, [], 12;
      var i: nat := 0;
      while i < count
        invariant 0 <= i <= count && err == None
        invariant SoFar(all, input.pending, count - i, i, ptrs, wire)
        invariant all.Items? ==> forall k :: 0 <= k < i ==>
          && data[k] == Spelled(all.items[k])
          && (check && all.items[k].Raw? ==> tree.hashlist[k] == hp.bytes(data[k]))
        invariant forall k :: i <= k < count ==> data[k] == []
      {
        SoFarStep(all, input.pending, count - i, i, ptrs, wire);
        var bad, item := ReadOne(input);
        if bad.Some? {
          err := bad;
          return;
        }
        if item.Raw? {
          data[i] := item.data;
          wire := wire + 5 + |item.data|;
          if check {
            tree.hashlist[i] := hp.bytes(item.data);
          }
        } else {
          ptrs := ptrs + [IndexPtr(item.index, i)];
          wire := wire + 2;
        }
        i := i + 1;
      }
      SoFarEnd(all, input.pending, i, ptrs, wire);
      SpelledOut(all.items);
      assert data[..] == RawData(all.items);
    }

    /** The removal loop: fetches the referenced transactions, in sorted order. */
    method FetchReferenced(ptrs: array<IndexPtr>, data: array<Bytes>, check: bool, tree: MerkleTreeBuilder)
      returns (ok: bool)
      requires Valid() && Ascending(ptrs[..])
      requires forall k :: 0 <= k < ptrs.Length ==> ptrs[k].pos < data.Length
      requires if check then tree.hashlist.Length == data.Length else tree.hashlist.Length == 1
      requires data as object != tree.hashlist && data as object != ptrs && tree.hashlist as object != ptrs
      requires check ==> forall p :: 0 <= p < data.Length && Unreferenced(ptrs[..], 0, p) ==> tree.hashlist[p] == hp.bytes(data[p])
      modifies recvCache, data, tree.hashlist
      ensures Valid()
      ensures var r := Remove(old(recvCache.Contents()), ptrs[..]);
              && ok == r.ok && recvCache.Contents() == r.rest
              && (ok ==> data[..] == Fill(old(data[..]), r.taken))
      ensures ok && check ==> tree.hashlist[..] == Leaves(hp, data[..])
    {
      hide Remove, Fill, Ascending;
      hide TableList, Pending, PendingFlags, RemoveEach, FlagSum, LimitsOf;
      ghost var ops, all := ptrs[..], Remove(recvCache.Contents(), ptrs[..]);
      ghost var r, filled := all, Fill(data[..], all.taken);
      assert ops[0..] == ops;
      ok := true;
      var i: nat := 0;
      while i < ptrs.Length
        invariant 0 <= i <= ptrs.Length && ptrs[..] == ops
        invariant Valid()
        invariant r == Remove(recvCache.Contents(), ops[i..])
        invariant r.ok == all.ok && r.rest == all.rest
        invariant Fill(data[..], r.taken) == filled
        invariant check ==> forall p :: 0 <= p < data.Length && Unreferenced(ops, i, p) ==> tree.hashlist[p] == hp.bytes(data[p])
      {
        if i > 0 {
          AscendingOrders(ops, i - 1, i);
          assert ptrs[i - 1].index <= ptrs[i].index;
        }
        var ptr := ptrs[i];
        ghost var c, before := recvCache.Contents(), data[..];
        RemoveStep(c, ops[i..], before);
        assert ops[i..][1..] == ops[i + 1..];
        var found, elem, elemHash := recvCache.RemoveIndex(ptr.index);
        if !found {
          return false;
        }
        data[ptr.pos] := elem;
        tree.hashlist[if check then ptr.pos else 0] := elemHash;
        assert data[..] == before[ptr.pos := elem];
        r := Remove(recvCache.Contents(), ops[i + 1..]);
        i := i + 1;
      }
      RemoveStep(recvCache.Contents(), [], data[..]);
      assert ops[i..] == [];
      if check {
        assert forall p :: 0 <= p < data.Length ==> Unreferenced(ops, i, p);
      }
    }

    /** The block as it is handed on: the transactions behind the header and the count. */
    method Assemble(front: Bytes, data: array<Bytes>) returns (block: Bytes)
      ensures block == front + Flatten(data[..])
    {
      hide Flatten;
      block := front;
      var i: nat := 0;
      assert data[0..] == data[..];
      while i < data.Length
        invariant 0 <= i <= data.Length
        invariant block + Flatten(data[i..]) == front + Flatten(data[..])
      {
        FlattenStep(data[i..]);
        assert data[i..][1..] == data[i + 1..];
        Assoc(block, data[i], Flatten(data[i + 1..]));
        block := block + data[i];
        i := i + 1;
      }
      assert data[i..] == [];
      FlattenStep(data[i..]);
      assert block + [] == block;
    }

    /** Reads the items, sorts the removals and fetches what they refer to. */
    method CollectTxs(input: Reader, count: nat, check: bool, tree: MerkleTreeBuilder)
      returns (err: Option<string>, wire: nat, data: array<Bytes>)
      requires Valid()
      requires if check then tree.hashlist.Length == count else tree.hashlist.Length == 1
      modifies recvCache, input, tree.hashlist
      ensures Valid() && fresh(data) && data.Length == count
      ensures match ReadItems(old(input.pending), count)
              case Bad(reason) => err == Some(reason) && recvCache.Contents() == old(recvCache.Contents())
              case Items(items, rest) =>
                var r := Remove(old(recvCache.Contents()), Tweak(Ops(items, 0)));
                && recvCache.Contents() == r.rest && wire == WireBytes(items) && input.pending == rest
                && (if r.ok then err == None && data[..] == Fill(RawData(items), r.taken)
                    else err == Some("failed to find referenced transaction"))
                && (check && r.ok ==> tree.hashlist[..] == Leaves(hp, data[..]))
    {
      hide Tweak, Ops, Remove, Fill, RawData, ReadItems, WireBytes, Leaves, Ascending, TweakedRange;
      hide TableList, Pending, PendingFlags, RemoveEach, FlagSum, LimitsOf;
      data := new Bytes[count](_ => []);
      ghost var read := ReadItems(input.pending, count);
      var ops;
      err, ops, wire := ReadAllItems(input, count, data, check, tree);
      if err.Some? {
        return;
      }
      SortedOps(read.items);
      var ptrs := new IndexPtr[|ops|](i requires 0 <= i < |ops| => ops[i]);
      assert ptrs[..] == ops;
      WholeRange(ops);
      Sort(ptrs, 0, ptrs.Length);
      assert forall k :: 0 <= k < ptrs.Length ==> ptrs[k] == ptrs[..][k];
      var found := FetchReferenced(ptrs, data, check, tree);
      if !found {
        err := Some("failed to find referenced transaction");
      }
    }

    method DecompressRelayBlock(input: Reader, count: nat, check: bool)
      returns (err: Option<string>, wire: nat, payload: Bytes, hash: Hash)
      requires Valid()
      modifies this`blocksAlreadySeen, recvCache, input
      ensures Valid()
      ensures match Decompress(hp, old(recvCache.Contents()), old(blocksAlreadySeen), count, old(input.pending), check)
              case Failed(reason, c, seen) =>
                err == Some(reason) && recvCache.Contents() == c && blocksAlreadySeen == seen
              case Undefined(c, seen) =>
                err == Some(UNDEFINED) && recvCache.Contents() == c && blocksAlreadySeen == seen
              case Delivered(p, h, w, c, seen, rest) =>
                && err == None && payload == p && hash == h && wire == w
                && recvCache.Contents() == c && blocksAlreadySeen == seen && input.pending == rest
    {
      hide Tweak, Ops, Remove, Fill, RawData, ReadItems, WireBytes, V.FromLE, V.Encode, Flatten, Accepts, HasWork, Leaves;
      hide TableList, Pending, PendingFlags, RemoveEach, FlagSum, LimitsOf;
      wire, payload, hash := 0, [], seq(32, _ => 0);
      if count > MAX_TXS {
        err := Some("got a BLOCK message with far too many transactions");
        return;
      }
      ghost var s := input.pending;
      var header := input.ReadAll(BLOCK_HEADER);
      if header == None {
        err := Some("failed to read block header");
        return;
      }
      assert header.value[..4] == s[..4];
      if !VersionOk(header.value) {
        err := Some("block had version < 4");
        return;
      }
      hash := hp.bytes(header.value);
      blocksAlreadySeen := blocksAlreadySeen + {hash};
      if check && !HasWork(hash) {
        err := Some("block hash did not meet minimum difficulty target");
        return;
      }
      var tree := new MerkleTreeBuilder(if check then count else 1);
      var data;
      err, wire, data := CollectTxs(input, count, check, tree);
      if err.Some? {
        return;
      }
      payload := Assemble(header.value + V.Encode(count), data);
      if check {
        var matches := tree.RootMatches(hp.pair, header.value[36..68]);
        if matches == None {
          err := Some(UNDEFINED);
        } else if matches == Some(false) {
          err := Some("merkle tree root did not match");
        }
      }
    }
  }

  /** One round of the loop, in the words of the specification. */
  lemma ParseStep(block: Bytes, p: nat, n: nat, c: Cache)
    ensures n == 0 ==>
              ParseTxs(block, p, n) == Parsed([], true, p) && WithoutAll(c, []) == c && Codes(ItemsFor(c, [])) == []
    ensures n > 0 ==>
            var w, q := ParseTxs(block, p, n), TxEnd(block, p);
            && (q == None ==> w.txs == [] && !w.ok && WithoutAll(c, w.txs) == c)
            && (q.Some? ==>
                  var tx, w' := block[p..q.value], ParseTxs(block, q.value, n - 1);
                  && w.ok == w'.ok && w.txs == [tx] + w'.txs
                  && WithoutAll(c, w.txs) == WithoutAll(Without(c, tx), w'.txs)
                  && Codes(ItemsFor(c, w.txs)) == Code(ItemFor(c, tx)) + Codes(ItemsFor(Without(c, tx), w'.txs)))
  {
  }
}
