/** Loose transactions: which are sent, which are accepted and what that does to the cache, in both
    flag modes (c++/relayprocess.cpp, c++/relayprocess.h, c++/utils.h). */
module TxRelay {
  import opened Basics
  import opened TxCache
  import opened TweakSort
  import opened BlockFormat
  import opened Compression

  const MAX_RELAY_TRANSACTION_BYTES: nat := 100000
  const MAX_FAS_TOTAL_SIZE: nat := 5000000
  const OLD_MAX_RELAY_TRANSACTION_BYTES: nat := 10000
  const OLD_MAX_RELAY_OVERSIZE_TRANSACTION_BYTES: nat := 200000
  const OLD_MAX_EXTRA_OVERSIZE_TRANSACTIONS: nat := 25
  const OLD_MAX_TXN_IN_FAS: nat := 5025
  const TRANSACTION_TYPE: nat := 2

  function LimitsOf(useOldFlags: bool): (r: Limits)
  {
    if useOldFlags then Limits(OLD_MAX_TXN_IN_FAS, 0xffff_ffff) else Limits(65000, MAX_FAS_TOTAL_SIZE)
  }

  /** The flag is the size, or in old mode whether the transaction is oversize. */
  function FlagOf(useOldFlags: bool, size: nat): (r: nat)
  {
    if useOldFlags then (if size > OLD_MAX_RELAY_TRANSACTION_BYTES then 1 else 0) else size
  }

  /** get_relay_transaction's tests on a transaction that is not cached. */
  predicate MaySend(useOldFlags: bool, flagCount: nat, size: nat)
  {
    if !useOldFlags then !(size > MAX_RELAY_TRANSACTION_BYTES)
    else !(size > OLD_MAX_RELAY_TRANSACTION_BYTES &&
           (flagCount >= OLD_MAX_EXTRA_OVERSIZE_TRANSACTIONS || size > OLD_MAX_RELAY_OVERSIZE_TRANSACTION_BYTES))
  }

  /** check_recv_tx */
  predicate MayReceive(useOldFlags: bool, flagCount: nat, size: nat)
  {
    || (!useOldFlags && size <= MAX_RELAY_TRANSACTION_BYTES)
    || (useOldFlags && (|| size <= OLD_MAX_RELAY_TRANSACTION_BYTES
                        || (flagCount < OLD_MAX_EXTRA_OVERSIZE_TRANSACTIONS
                            && size <= OLD_MAX_RELAY_OVERSIZE_TRANSACTION_BYTES)))
  }

  /** tx_to_msg */
  function TxFrame(tx: Bytes): (r: Bytes)
  {
    FrameHeader(TRANSACTION_TYPE, |tx|) + tx
  }

  function Admit(useOldFlags: bool, c: Cache, tx: Bytes): (r: Cache)
  {
    Insert(c, Entry(tx, FlagOf(useOldFlags, |tx|)), LimitsOf(useOldFlags))
  }

  /** get_relay_transaction: the message, if any, and the cache it leaves. */
  function SendTx(useOldFlags: bool, c: Cache, tx: Bytes): (r: (Option<Bytes>, Cache))
  {
    if IndexOf(c, tx) >= 0 || !MaySend(useOldFlags, FlagSum(c), |tx|) then (None, c)
    else (Some(TxFrame(tx)), Admit(useOldFlags, c, tx))
  }

  /** What holds of every cache these rules build: distinct entries within the limits, flagged by
      their size, none larger than may be sent, and in old mode at most 25 oversize ones. */
  ghost predicate Sound(useOldFlags: bool, c: Cache)
  {
    && Distinct(c) && Meets(c, LimitsOf(useOldFlags))
    && (forall i :: 0 <= i < |c| ==>
          && c[i].flag == FlagOf(useOldFlags, |c[i].elem|)
          && |c[i].elem| <= (if useOldFlags then OLD_MAX_RELAY_OVERSIZE_TRANSACTION_BYTES else MAX_RELAY_TRANSACTION_BYTES))
    && (useOldFlags ==> FlagSum(c) <= OLD_MAX_EXTRA_OVERSIZE_TRANSACTIONS)
  }

  lemma SendTxSound(useOldFlags: bool, c: Cache, tx: Bytes)
    requires Sound(useOldFlags, c)
    ensures Sound(useOldFlags, SendTx(useOldFlags, c, tx).1)
    ensures SendTx(useOldFlags, c, tx).0.Some? ==>
              MayReceive(useOldFlags, FlagSum(c), |tx|) && SendTx(useOldFlags, c, tx).1 == Admit(useOldFlags, c, tx)
  {
    hide FlagSum, IndexOf;
    if SendTx(useOldFlags, c, tx).0.Some? {
      var e := Entry(tx, FlagOf(useOldFlags, |tx|));
      var lim := LimitsOf(useOldFlags);
      InsertKeeps(c, e, lim);
      EvictIsLongestSuffix(c + [e], lim);
      var r := Evict(c + [e], lim);
      FlagSumOne(c, e);
      SuffixSum(c + [e], |c| + 1 - |r|);
    }
  }

  lemma FlagSumOne(c: Cache, e: Entry)
    ensures FlagSum(c + [e]) == FlagSum(c) + e.flag
  {
    FlagSumAppend(c, [e]);
  }

  lemma SuffixSum(c: Cache, k: nat)
    requires k <= |c|
    ensures FlagSum(c[k..]) <= FlagSum(c)
  {
    FlagSumAppend(c[..k], c[k..]);
    assert c[..k] + c[k..] == c;
  }

  lemma {:induction false} WithoutAllSound(useOldFlags: bool, c: Cache, txs: seq<Bytes>)
    requires Sound(useOldFlags, c)
    ensures Sound(useOldFlags, WithoutAll(c, txs))
    decreases |txs|
  {
    if txs != [] {
      WithoutSound(useOldFlags, c, txs[0]);
      WithoutAllSound(useOldFlags, Without(c, txs[0]), txs[1..]);
    }
  }

  lemma WithoutSound(useOldFlags: bool, c: Cache, tx: Bytes)
    requires Sound(useOldFlags, c)
    ensures Sound(useOldFlags, Without(c, tx))
  {
    hide Sound;
    var i := IndexOf(c, tx);
    if i >= 0 {
      RemoveOneSound(useOldFlags, c, i);
    }
  }

  /** While a sound cache is replayed in order, no transaction is refused. */
  lemma ReplayAccepted(useOldFlags: bool, c: Cache, k: nat)
    requires Sound(useOldFlags, c) && k < |c|
    ensures MayReceive(useOldFlags, FlagSum(c[..k]), |c[k].elem|)
  {
    FlagSumAppend(c[..k], [c[k]]);
    assert c[..k + 1] == c[..k] + [c[k]];
    FlagSumAppend(c[..k + 1], c[k + 1..]);
    assert c == c[..k + 1] + c[k + 1..];
  }

  // ---- The limits in terms of the transactions themselves ----

  /** How many elements are larger than 10000 bytes. */
  function Oversize(c: Cache): (r: nat)
  {
    if c == [] then 0 else (if |c[0].elem| > 10000 then 1 else 0) + Oversize(c[1..])
  }

  /** How many bytes the elements have in all. */
  function TotalBytes(c: Cache): (r: nat)
  {
    if c == [] then 0 else |c[0].elem| + TotalBytes(c[1..])
  }

  lemma {:induction false} FlagsCount(useOldFlags: bool, c: Cache)
    requires forall i :: 0 <= i < |c| ==> c[i].flag == FlagOf(useOldFlags, |c[i].elem|)
    ensures FlagSum(c) == if useOldFlags then Oversize(c) else TotalBytes(c)
  {
    if c != [] {
      FlagsCount(useOldFlags, c[1..]);
    }
  }

  /** In old mode at most 5025 transactions of at most 200000 bytes, at most 25 of them over 10000 bytes;
      in new mode at most 65000 of at most 100000 bytes, at most 5000000 bytes in all. */
  predicate WithinLimits(useOldFlags: bool, c: Cache)
  {
    if useOldFlags then
      |c| <= 5025 && Oversize(c) <= 25 && forall i :: 0 <= i < |c| ==> |c[i].elem| <= 200000
    else
      |c| <= 65000 && TotalBytes(c) <= 5000000 && forall i :: 0 <= i < |c| ==> |c[i].elem| <= 100000
  }

  /** What the cache rules come to. */
  lemma SoundMeans(useOldFlags: bool, c: Cache)
    requires Sound(useOldFlags, c)
    ensures WithinLimits(useOldFlags, c)
  {
    FlagsCount(useOldFlags, c);
  }

  /** Whether a transaction of a size may join a cache. */
  predicate MayJoin(useOldFlags: bool, c: Cache, size: nat)
  {
    if useOldFlags then size <= 10000 || (size <= 200000 && Oversize(c) < 25) else size <= 100000
  }

  ghost predicate Cached(c: Cache, tx: Bytes)
  {
    exists i :: 0 <= i < |c| && c[i].elem == tx
  }

  /** A transaction is sent exactly when it is not cached and its size, and in old mode the number of large
      ones cached, allow it. */
  lemma SentWhen(useOldFlags: bool, c: Cache, tx: Bytes)
    requires Sound(useOldFlags, c)
    ensures SendTx(useOldFlags, c, tx).0
            == if !Cached(c, tx) && MayJoin(useOldFlags, c, |tx|) then Some(TxFrame(tx)) else None
  {
    FlagsCount(useOldFlags, c);
    assert Cached(c, tx) == (IndexOf(c, tx) >= 0);
    hide FlagSum, Oversize, TotalBytes, Admit, IndexOf, TxFrame, Cached;
  }

  /** c' is what is left of c with tx behind it: as many of the last entries as fit. */
  predicate JoinedBy(useOldFlags: bool, c: Cache, c': Cache, tx: Bytes)
  {
    && 1 <= |c'| <= |c| + 1 && c'[|c'| - 1].elem == tx && c'[..|c'| - 1] == c[|c| + 1 - |c'|..]
    && (|c'| <= |c| ==> TooMuch(useOldFlags, c[|c| - |c'|..] + [c'[|c'| - 1]]))
  }

  lemma AdmitJoins(useOldFlags: bool, c: Cache, tx: Bytes)
    requires forall i :: 0 <= i < |c| ==> c[i].flag == FlagOf(useOldFlags, |c[i].elem|) && c[i].elem != tx
    requires !useOldFlags ==> |tx| <= 100000
    ensures JoinedBy(useOldFlags, c, Admit(useOldFlags, c, tx), tx)
  {
    hide FlagSum, Insert, IndexOf, Meets, TooMuch, Oversize, TotalBytes;
    var e, c' := Entry(tx, FlagOf(useOldFlags, |tx|)), Admit(useOldFlags, c, tx);
    InsertNew(c, e, LimitsOf(useOldFlags));
    var k: nat := |c| + 1 - |c'|;
    Snoc(c[k..], e);
    if k > 0 {
      FlaggedSuffix(useOldFlags, c, k - 1, e);
      TooMuchIs(useOldFlags, c[k - 1..] + [e]);
    }
  }

  lemma Snoc<X>(s: seq<X>, x: X)
    ensures |s + [x]| == |s| + 1 && (s + [x])[|s|] == x && (s + [x])[..|s|] == s
  {
  }

  lemma FlaggedSuffix(useOldFlags: bool, c: Cache, k: nat, e: Entry)
    requires forall i :: 0 <= i < |c| ==> c[i].flag == FlagOf(useOldFlags, |c[i].elem|)
    requires k <= |c| && e.flag == FlagOf(useOldFlags, |e.elem|)
    ensures var s := c[k..] + [e]; forall i :: 0 <= i < |s| ==> s[i].flag == FlagOf(useOldFlags, |s[i].elem|)
  {
  }

  /** Then the cache is joined by it; otherwise it stays as it is. */
  lemma SentThen(useOldFlags: bool, c: Cache, tx: Bytes)
    requires Sound(useOldFlags, c)
    ensures var (msg, c') := SendTx(useOldFlags, c, tx);
            if msg == None then c' == c else JoinedBy(useOldFlags, c, c', tx)
  {
    hide JoinedBy, Admit, TxFrame;
    if SendTx(useOldFlags, c, tx).0.Some? {
      AdmitJoins(useOldFlags, c, tx);
    }
  }

  /** More than the mode lets a cache hold. */
  predicate TooMuch(useOldFlags: bool, c: Cache)
  {
    if useOldFlags then |c| > 5025 || Oversize(c) > 0xffff_ffff else |c| > 65000 || TotalBytes(c) > 5000000
  }

  lemma TooMuchIs(useOldFlags: bool, c: Cache)
    requires forall i :: 0 <= i < |c| ==> c[i].flag == FlagOf(useOldFlags, |c[i].elem|)
    ensures TooMuch(useOldFlags, c) == !Meets(c, LimitsOf(useOldFlags))
  {
    FlagsCount(useOldFlags, c);
  }

  /** And a receiver lets a transaction join on the same terms. */
  lemma ReceivedWhen(useOldFlags: bool, c: Cache, size: nat)
    requires Sound(useOldFlags, c)
    ensures MayReceive(useOldFlags, FlagSum(c), size) <==> MayJoin(useOldFlags, c, size)
  {
    FlagsCount(useOldFlags, c);
  }

  /** A receiver that admits what passes its test keeps the rules, whoever sent it. */
  lemma AdmitSound(useOldFlags: bool, c: Cache, tx: Bytes)
    requires Sound(useOldFlags, c) && MayReceive(useOldFlags, FlagSum(c), |tx|)
    ensures Sound(useOldFlags, Admit(useOldFlags, c, tx))
  {
    hide FlagSum, IndexOf;
    if IndexOf(c, tx) < 0 {
      assert MaySend(useOldFlags, FlagSum(c), |tx|);
      SendTxSound(useOldFlags, c, tx);
    }
  }

  /** So does one that takes out entries, by whatever indices. */
  lemma {:induction false} RemoveSound(useOldFlags: bool, c: Cache, ops: seq<IndexPtr>)
    requires Sound(useOldFlags, c)
    ensures Sound(useOldFlags, Remove(c, ops).rest)
    decreases |ops|
  {
    hide Sound;
    if ops != [] && ops[0].index < |c| {
      RemoveOneSound(useOldFlags, c, ops[0].index);
      RemoveSound(useOldFlags, RemoveAt(c, ops[0].index), ops[1..]);
    }
  }

  lemma RemoveOneSound(useOldFlags: bool, c: Cache, i: nat)
    requires Sound(useOldFlags, c) && i < |c|
    ensures Sound(useOldFlags, RemoveAt(c, i))
  {
    hide FlagSum;
    FlagSumRemove(c, i);
    RemoveDistinct(c, i);
  }
}
