/** The two encodings of a block: Bitcoin's, which the compressor walks, and the relay protocol's,
    which carries cache indices (c++/relayprocess.cpp). */
module BlockFormat {
  import opened Basics
  import opened TxCache
  import opened TweakSort
  import V = Varint

  // ---- Bitcoin's encoding ----

  /** Behind n inputs: 36 bytes, a script with its length, 4 bytes.  The length plus 4 wraps. */
  function SkipInputs(s: Bytes, p: nat, n: nat): (r: Option<nat>)
    ensures r.Some? ==> p <= r.value <= |s| || (n == 0 && r.value == p)
    decreases n
  {
    if n == 0 then Some(p)
    else match V.Advance(s, p, 36)
      case None => None
      case Some(q) =>
        match V.ReadVarint(s, q)
        case Short => None
        case Got(len, q2) =>
          match V.Advance(s, q2, (len + 4) % U64)
          case None => None
          case Some(q3) => SkipInputs(s, q3, n - 1)
  }

  /** Behind n outputs: 8 bytes, a script with its length. */
  function SkipOutputs(s: Bytes, p: nat, n: nat): (r: Option<nat>)
    ensures r.Some? ==> p <= r.value <= |s| || (n == 0 && r.value == p)
    decreases n
  {
    if n == 0 then Some(p)
    else match V.Advance(s, p, 8)
      case None => None
      case Some(q) =>
        match V.ReadVarint(s, q)
        case Short => None
        case Got(len, q2) =>
          match V.Advance(s, q2, len)
          case None => None
          case Some(q3) => SkipOutputs(s, q3, n - 1)
  }

  /** The position behind the transaction at p. */
  function TxEnd(s: Bytes, p: nat): (r: Option<nat>)
    ensures r.Some? ==> p < r.value <= |s|
  {
    match V.Advance(s, p, 4)
    case None => None
    case Some(q) =>
      match V.ReadVarint(s, q)
      case Short => None
      case Got(txins, q1) =>
        match SkipInputs(s, q1, txins)
        case None => None
        case Some(q2) =>
          match V.ReadVarint(s, q2)
          case Short => None
          case Got(txouts, q3) =>
            match SkipOutputs(s, q3, txouts)
            case None => None
            case Some(q4) => V.Advance(s, q4, 4)
  }

  /** The transactions found before the walk ends or fails. */
  datatype Parsed = Parsed(txs: seq<Bytes>, ok: bool, end: nat)

  function ParseTxs(s: Bytes, p: nat, n: nat): (r: Parsed)
    ensures r.ok ==> |r.txs| == n
    ensures |r.txs| <= n
    decreases n
  {
    if n == 0 then Parsed([], true, p)
    else match TxEnd(s, p)
      case None => Parsed([], false, p)
      case Some(q) =>
        var r := ParseTxs(s, q, n - 1);
        Parsed([s[p..q]] + r.txs, r.ok, r.end)
  }

  // A transaction reads the same wherever it stands.

  lemma {:induction false} SkipInputsMoves(s: Bytes, p: nat, n: nat, a: Bytes, b: Bytes)
    requires SkipInputs(s, p, n).Some? && p <= |s|
    ensures SkipInputs(a + s + b, |a| + p, n) == Some(|a| + SkipInputs(s, p, n).value)
    decreases n
  {
    hide V.ReadVarint;
    if n > 0 {
      var q := p + 36;
      V.ReadVarintMoves(s, q, a, b);
      var Got(len, q2) := V.ReadVarint(s, q);
      SkipInputsMoves(s, q2 + (len + 4) % U64, n - 1, a, b);
    }
  }

  lemma {:induction false} SkipOutputsMoves(s: Bytes, p: nat, n: nat, a: Bytes, b: Bytes)
    requires SkipOutputs(s, p, n).Some? && p <= |s|
    ensures SkipOutputs(a + s + b, |a| + p, n) == Some(|a| + SkipOutputs(s, p, n).value)
    decreases n
  {
    hide V.ReadVarint;
    if n > 0 {
      var q := p + 8;
      V.ReadVarintMoves(s, q, a, b);
      var Got(len, q2) := V.ReadVarint(s, q);
      SkipOutputsMoves(s, q2 + len, n - 1, a, b);
    }
  }

  lemma TxEndMoves(tx: Bytes, a: Bytes, b: Bytes)
    requires TxEnd(tx, 0) == Some(|tx|)
    ensures TxEnd(a + tx + b, |a|) == Some(|a| + |tx|)
  {
    hide V.ReadVarint, SkipInputs, SkipOutputs;
    V.ReadVarintMoves(tx, 4, a, b);
    var Got(txins, q1) := V.ReadVarint(tx, 4);
    SkipInputsMoves(tx, q1, txins, a, b);
    var q2 := SkipInputs(tx, q1, txins).value;
    V.ReadVarintMoves(tx, q2, a, b);
    var Got(txouts, q3) := V.ReadVarint(tx, q2);
    SkipOutputsMoves(tx, q3, txouts, a, b);
  }

  /** What was walked is the concatenation of the transactions found. */
  lemma {:induction false} ParsedBytes(s: Bytes, p: nat, n: nat)
    requires p <= |s| && ParseTxs(s, p, n).ok
    ensures var r := ParseTxs(s, p, n); p <= r.end <= |s| && Flatten(r.txs) == s[p..r.end]
    decreases n
  {
    hide TxEnd;
    if n > 0 {
      var q := TxEnd(s, p).value;
      ParsedBytes(s, q, n - 1);
      var r := ParseTxs(s, q, n - 1);
      ConsAppend(s[p..q], r.txs, []);
      SliceSplit(s, p, q, r.end);
    }
  }

  // ---- The relay encoding ----

  datatype Item = Ref(index: nat) | Raw(data: Bytes)

  /** The escape 0xffff, a 24-bit length and the bytes, or a 16-bit cache index. */
  function Code(it: Item): (r: Bytes)
  {
    match it
    case Raw(data) => [0xff, 0xff] + BE24(|data|) + data
    case Ref(index) => BE16(index)
  }

  function Codes(items: seq<Item>): (r: Bytes)
  {
    if items == [] then [] else Code(items[0]) + Codes(items[1..])
  }

  datatype ItemsRead = Bad(reason: string) | Items(items: seq<Item>, rest: Bytes)

  /** The receiver's read loop over n items. */
  function ReadItems(s: Bytes, n: nat): (r: ItemsRead)
    ensures r.Items? ==> |r.items| == n && |r.rest| <= |s|
    decreases n
  {
    if n == 0 then Items([], s)
    else match ReadItem(s)
      case Bad(reason) => Bad(reason)
      case Items(one, rest) =>
        match ReadItems(rest, n - 1)
        case Bad(reason) => Bad(reason)
        case Items(items, rest') => Items(one + items, rest')
  }

  function ReadItem(s: Bytes): (r: ItemsRead)
    ensures r.Items? ==> |r.items| == 1 && |r.rest| < |s|
  {
    if |s| < 2 then Bad("failed to read tx index")
    else
      var index := FromBE(s[..2]);
      if index != 0xffff then Items([Ref(index)], s[2..])
      else if |s| < 5 then Bad("failed to read tx length")
      else
        var len := FromBE(s[2..5]);
        if len > 1000000 then Bad("got unreasonably large tx")
        else if |s| < 5 + len then Bad("failed to read transaction data")
        else Items([Raw(s[5..5 + len])], s[5 + len..])
  }

  /** The items the format can carry: an index below the escape, a transaction the receiver takes. */
  predicate Carried(it: Item)
  {
    match it
    case Raw(data) => |data| <= 1000000
    case Ref(index) => index < 0xffff
  }

  lemma ItemRoundTrip(it: Item, rest: Bytes)
    requires Carried(it)
    ensures ReadItem(Code(it) + rest) == Items([it], rest)
  {
    var s := Code(it) + rest;
    match it
    case Ref(index) =>
      BE16RoundTrip(index);
      assert s[..2] == BE16(index) && s[2..] == rest;
    case Raw(data) =>
      var len := |data|;
      BE16RoundTrip(0xffff);
      BE24RoundTrip(len);
      assert s[..2] == BE16(0xffff);
      assert s[2..5] == BE24(len);
      assert s[5..5 + len] == data && s[5 + len..] == rest;
  }

  lemma {:induction false} ItemsRoundTrip(items: seq<Item>, rest: Bytes)
    requires forall i :: 0 <= i < |items| ==> Carried(items[i])
    ensures ReadItems(Codes(items) + rest, |items|) == Items(items, rest)
  {
    hide Code, ReadItem, Carried;
    if items == [] {
      assert Codes(items) + rest == rest;
    } else {
      var c, cs := Code(items[0]), Codes(items[1..]);
      ItemRoundTrip(items[0], cs + rest);
      ItemsRoundTrip(items[1..], rest);
      assert (c + cs) + rest == c + (cs + rest);
      Uncons(items);
    }
  }

  /** No item is spelled out longer than 1000000 bytes. */
  lemma {:induction false} ReadSizes(s: Bytes, n: nat, p: nat)
    requires ReadItems(s, n).Items? && p < n
    ensures ReadItems(s, n).items[p].Raw? ==> |ReadItems(s, n).items[p].data| <= 1000000
    decreases n
  {
    if p > 0 {
      ReadSizes(ReadItem(s).rest, n - 1, p - 1);
    }
  }

  /** More bytes behind a complete run of items change nothing. */
  lemma {:induction false} ReadItemsPrefix(s: Bytes, n: nat, more: Bytes)
    requires ReadItems(s, n).Items?
    ensures ReadItems(s + more, n) == Items(ReadItems(s, n).items, ReadItems(s, n).rest + more)
    decreases n
  {
    hide ReadItem;
    if n > 0 {
      ReadItemPrefix(s, more);
      ReadItemsPrefix(ReadItem(s).rest, n - 1, more);
    }
  }

  lemma ReadItemPrefix(s: Bytes, more: Bytes)
    requires ReadItem(s).Items?
    ensures ReadItem(s + more) == Items(ReadItem(s).items, ReadItem(s).rest + more)
  {
    SliceAppend(s, more, 0, 2);
    assert (s + more)[0..2] == (s + more)[..2];
    if FromBE(s[..2]) == 0xffff {
      SliceAppend(s, more, 2, 5);
      SliceAppend(s, more, 5, 5 + FromBE(s[2..5]));
    }
  }

  // ---- Sender: remove by value, in block order ----

  function Without(c: Cache, tx: Bytes): (r: Cache)
  {
    var i := IndexOf(c, tx);
    if i < 0 then c else RemoveAt(c, i)
  }

  function WithoutAll(c: Cache, txs: seq<Bytes>): (r: Cache)
    decreases |txs|
  {
    if txs == [] then c else WithoutAll(Without(c, txs[0]), txs[1..])
  }

  function ItemFor(c: Cache, tx: Bytes): (r: Item)
  {
    var i := IndexOf(c, tx);
    if i < 0 then Raw(tx) else Ref(i)
  }

  function ItemsFor(c: Cache, txs: seq<Bytes>): (r: seq<Item>)
    ensures |r| == |txs|
    decreases |txs|
  {
    if txs == [] then [] else [ItemFor(c, txs[0])] + ItemsFor(Without(c, txs[0]), txs[1..])
  }

  /** Every transaction the sender must spell out is one the receiver takes. */
  predicate RawFits(c: Cache, txs: seq<Bytes>)
    decreases |txs|
  {
    txs != [] ==> (IndexOf(c, txs[0]) < 0 ==> |txs[0]| <= 1000000) && RawFits(Without(c, txs[0]), txs[1..])
  }

  /** A cache of at most 65000 entries has no index that collides with the escape. */
  lemma {:induction false} ItemsCarried(c: Cache, txs: seq<Bytes>)
    requires |c| <= 65000 && RawFits(c, txs)
    ensures forall i :: 0 <= i < |txs| ==> Carried(ItemsFor(c, txs)[i])
    decreases |txs|
  {
    if txs != [] {
      ItemsCarried(Without(c, txs[0]), txs[1..]);
    }
  }

  /** No transaction is so long that its 24-bit length wraps. */
  predicate LengthsFit(txs: seq<Bytes>)
  {
    forall i :: 0 <= i < |txs| ==> |txs[i]| < 0x100_0000
  }

  lemma OversizeItem(data: Bytes, rest: Bytes)
    requires 1000000 < |data| < 0x100_0000
    ensures ReadItem(Code(Raw(data)) + rest) == Bad("got unreasonably large tx")
  {
    var s := Code(Raw(data)) + rest;
    BE16RoundTrip(0xffff);
    BE24RoundTrip(|data|);
    assert s[..2] == BE16(0xffff);
    assert s[2..5] == BE24(|data|);
  }

  /** What the receiver reads is what was written exactly when every transaction spelled out is one
      it takes; otherwise it refuses. */
  lemma {:induction false} ReadsBackIffFits(c: Cache, txs: seq<Bytes>, rest: Bytes)
    requires |c| <= 65000 && LengthsFit(txs)
    ensures ReadItems(Codes(ItemsFor(c, txs)) + rest, |txs|)
            == if RawFits(c, txs) then Items(ItemsFor(c, txs), rest) else Bad("got unreasonably large tx")
    decreases |txs|
  {
    if RawFits(c, txs) {
      ItemsCarried(c, txs);
      ItemsRoundTrip(ItemsFor(c, txs), rest);
    } else {
      var it, c' := ItemFor(c, txs[0]), Without(c, txs[0]);
      var items := ItemsFor(c', txs[1..]);
      hide Code, ReadItem;
      ConsAppend(it, items, []);
      Assoc(Code(it), Codes(items), rest);
      if it.Raw? && |txs[0]| > 1000000 {
        OversizeItem(txs[0], Codes(items) + rest);
      } else {
        ItemRoundTrip(it, Codes(items) + rest);
        ReadsBackIffFits(c', txs[1..], rest);
      }
    }
  }

  // ---- Receiver: remove by index, in sorted order ----

  /** The removals among the items; the k-th item belongs to block position base + k. */
  function Ops(items: seq<Item>, base: nat): (r: seq<IndexPtr>)
    decreases |items|
  {
    if items == [] then []
    else (if items[0].Ref? then [IndexPtr(items[0].index, base)] else []) + Ops(items[1..], base + 1)
  }

  lemma {:induction false} OpsFew(items: seq<Item>, base: nat)
    ensures |Ops(items, base)| <= |items|
    decreases |items|
  {
    if items != [] {
      OpsFew(items[1..], base + 1);
    }
  }

  /** The transactions spelled out, with gaps for those to be fetched from the cache. */
  function RawData(items: seq<Item>): (r: seq<Bytes>)
    ensures |r| == |items|
  {
    if items == [] then []
    else [if items[0].Raw? then items[0].data else []] + RawData(items[1..])
  }

  function Fill(data: seq<Bytes>, taken: seq<(nat, Entry)>): (r: seq<Bytes>)
    ensures |r| == |data|
    decreases |taken|
  {
    if taken == [] then data
    else
      var (pos, e) := taken[0];
      Fill(if pos < |data| then data[pos := e.elem] else data, taken[1..])
  }

  /** What the removals hand out when done in block order. */
  ghost function Handed(c: Cache, txs: seq<Bytes>, base: nat): (r: seq<(nat, Entry)>)
    decreases |txs|
  {
    if txs == [] then []
    else
      var i := IndexOf(c, txs[0]);
      (if i < 0 then [] else [(base, c[i])]) + Handed(Without(c, txs[0]), txs[1..], base + 1)
  }

  lemma {:induction false} OpsInBlockOrder(c: Cache, txs: seq<Bytes>, base: nat)
    ensures Remove(c, Ops(ItemsFor(c, txs), base)) == Removal(true, WithoutAll(c, txs), Handed(c, txs, base))
    decreases |txs|
  {
    if txs != [] {
      var c', items := Without(c, txs[0]), ItemsFor(c, txs);
      ConsAppend(ItemFor(c, txs[0]), ItemsFor(c', txs[1..]), []);
      OpsInBlockOrder(c', txs[1..], base + 1);
      var ops := Ops(items[1..], base + 1);
      if items[0].Ref? {
        ConsAppend(IndexPtr(items[0].index, base), ops, []);
      } else {
        assert Ops(items, base) == ops;
        assert Handed(c, txs, base) == Handed(c', txs[1..], base + 1);
      }
    }
  }

  /** Filling the gaps in block order gives the transactions back. */
  lemma {:induction false} FillInBlockOrder(done: seq<Bytes>, c: Cache, txs: seq<Bytes>)
    ensures Fill(done + RawData(ItemsFor(c, txs)), Handed(c, txs, |done|)) == done + txs
    decreases |txs|
  {
    if txs != [] {
      var c', tail := Without(c, txs[0]), txs[1..];
      var i, next := IndexOf(c, txs[0]), done + [txs[0]];
      var raw, handed := RawData(ItemsFor(c', tail)), Handed(c', tail, |next|);
      FillInBlockOrder(next, c', tail);
      hide ItemsFor, Handed, Fill;
      FirstOfBlock(c, txs, |done|);
      Uncons(txs);
      MoveOver(done, txs[0], txs[0], tail);
      if i < 0 {
        MoveOver(done, txs[0], txs[0], raw);
      } else {
        MoveOver(done, [], txs[0], raw);
        FillOne(done + ([[]] + raw), (|done|, c[i]), handed);
      }
    }
  }

  lemma FirstOfBlock(c: Cache, txs: seq<Bytes>, base: nat)
    requires txs != []
    ensures var c', i := Without(c, txs[0]), IndexOf(c, txs[0]);
            var raw, handed := RawData(ItemsFor(c', txs[1..])), Handed(c', txs[1..], base + 1);
            && RawData(ItemsFor(c, txs)) == [if i < 0 then txs[0] else []] + raw
            && Handed(c, txs, base) == if i < 0 then handed else [(base, c[i])] + handed
  {
  }

  lemma FillOne(data: seq<Bytes>, t: (nat, Entry), taken: seq<(nat, Entry)>)
    requires t.0 < |data|
    ensures Fill(data, [t] + taken) == Fill(data[t.0 := t.1.elem], taken)
  {
  }

  // ---- Filling in any order ----

  /** No position is handed two different entries. */
  ghost predicate Functional(taken: seq<(nat, Entry)>)
  {
    forall i, j :: 0 <= i < |taken| && 0 <= j < |taken| && taken[i].0 == taken[j].0 ==> taken[i] == taken[j]
  }

  lemma {:induction false} HandedAscends(c: Cache, txs: seq<Bytes>, base: nat)
    ensures var h := Handed(c, txs, base);
            && (forall k :: 0 <= k < |h| ==> base <= h[k].0)
            && (forall j, k :: 0 <= j < k < |h| ==> h[j].0 < h[k].0)
    decreases |txs|
  {
    if txs != [] {
      HandedAscends(Without(c, txs[0]), txs[1..], base + 1);
      FirstOfBlock(c, txs, base);
    }
  }

  lemma HandedFunctional(c: Cache, txs: seq<Bytes>)
    ensures Functional(Handed(c, txs, 0))
  {
    hide Handed;
    HandedAscends(c, txs, 0);
  }

  lemma {:induction false} FillAt(data: seq<Bytes>, taken: seq<(nat, Entry)>, p: nat)
    requires Functional(taken) && p < |data|
    ensures forall k :: 0 <= k < |taken| && taken[k].0 == p ==> Fill(data, taken)[p] == taken[k].1.elem
    ensures (forall k :: 0 <= k < |taken| ==> taken[k].0 != p) ==> Fill(data, taken)[p] == data[p]
    decreases |taken|
  {
    if taken != [] {
      var (pos, e) := taken[0];
      var data', rest := if pos < |data| then data[pos := e.elem] else data, taken[1..];
      assert forall k :: 0 <= k < |rest| ==> rest[k] == taken[k + 1];
      FillAt(data', rest, p);
      if k :| 0 <= k < |rest| && rest[k].0 == p {
        assert taken[k + 1] == rest[k];
      } else {
        assert Fill(data, taken)[p] == data'[p];
        assert forall k :: 1 <= k < |taken| ==> taken[k] == rest[k - 1];
      }
    }
  }

  /** The order of the hand-outs does not matter. */
  lemma FillAnyOrder(data: seq<Bytes>, a: seq<(nat, Entry)>, b: seq<(nat, Entry)>)
    requires multiset(a) == multiset(b) && Functional(a)
    ensures Fill(data, a) == Fill(data, b)
  {
    forall i | 0 <= i < |b|
      ensures exists k :: 0 <= k < |a| && a[k] == b[i]
    {
      assert b[i] in multiset(a);
    }
    forall p | 0 <= p < |data|
      ensures Fill(data, a)[p] == Fill(data, b)[p]
    {
      FillAt(data, a, p);
      FillAt(data, b, p);
      if k :| 0 <= k < |a| && a[k].0 == p {
        assert a[k] in multiset(b);
        var j :| 0 <= j < |b| && b[j] == a[k];
      }
    }
  }

  /** With the sender's cache, the receiver's sorted removals rebuild the block's transactions and
      leave the cache the sender is left with. */
  lemma ReceiverRebuilds(c: Cache, txs: seq<Bytes>)
    ensures var items := ItemsFor(c, txs);
            var r := Remove(c, Tweak(Ops(items, 0)));
            r.ok && r.rest == WithoutAll(c, txs) && Fill(RawData(items), r.taken) == txs
  {
    var items := ItemsFor(c, txs);
    var ops := Ops(items, 0);
    var h := Handed(c, txs, 0);
    hide ItemsFor, Ops, Remove, Tweak, Handed, Fill, RawData, Functional;
    OpsInBlockOrder(c, txs, 0);
    TweakSameEffect(c, ops);
    HandedFunctional(c, txs);
    FillAnyOrder(RawData(items), h, Remove(c, Tweak(ops)).taken);
    FillInBlockOrder([], c, txs);
    assert [] + RawData(items) == RawData(items) && [] + txs == txs;
  }

  // ---- What any message, honest or not, hands out ----

  /** No removal from the i-th on belongs to position p. */
  ghost predicate Unreferenced(ops: seq<IndexPtr>, i: nat, p: nat)
  {
    forall j :: i <= j < |ops| ==> ops[j].pos != p
  }

  /** The removals of the items, before and after sorting, belong to block positions, and the
      positions they do not belong to are those spelled out. */
  lemma SortedOps(items: seq<Item>)
    ensures var ops := Tweak(Ops(items, 0));
            && Ascending(ops)
            && (forall k :: 0 <= k < |ops| ==> ops[k].pos < |items|)
            && (forall p :: 0 <= p < |items| && Unreferenced(ops, 0, p) ==> items[p].Raw?)
  {
    hide Tweak;
    var ops := Ops(items, 0);
    TweakAscending(ops);
    TweakPositions(ops);
    OpsPositions(items, 0);
    forall k | 0 <= k < |Tweak(ops)|
      ensures Tweak(ops)[k].pos < |items|
    {
      PositionsOf(Tweak(ops), Tweak(ops)[k].pos);
    }
    forall p | 0 <= p < |items| && Unreferenced(Tweak(ops), 0, p)
      ensures items[p].Raw?
    {
      PositionsOf(Tweak(ops), p);
    }
  }

  lemma {:induction false} PositionsOf(ops: seq<IndexPtr>, p: nat)
    ensures p in Positions(ops) <==> exists k :: 0 <= k < |ops| && ops[k].pos == p
  {
    if ops != [] {
      PositionsOf(ops[1..], p);
      assert forall k :: 1 <= k < |ops| ==> ops[k] == ops[1..][k - 1];
    }
  }

  lemma {:induction false} OpsPositions(items: seq<Item>, base: nat)
    ensures forall p :: p in Positions(Ops(items, base)) <==> base <= p < base + |items| && items[p - base].Ref?
    decreases |items|
  {
    if items != [] {
      OpsPositions(items[1..], base + 1);
      if items[0].Ref? {
        ConsAppend(IndexPtr(items[0].index, base), Ops(items[1..], base + 1), []);
      } else {
        assert Ops(items, base) == Ops(items[1..], base + 1);
      }
    }
  }

  /** What an item spells out of its transaction. */
  function Spelled(it: Item): (r: Bytes)
  {
    if it.Raw? then it.data else []
  }

  lemma {:induction false} SpelledOut(items: seq<Item>)
    ensures forall k :: 0 <= k < |items| ==> RawData(items)[k] == Spelled(items[k])
  {
    if items != [] {
      SpelledOut(items[1..]);
    }
  }

  /** Removals that succeed hand something to exactly their positions, each time an entry of the list. */
  lemma {:induction false} TakenAt(c: Cache, ops: seq<IndexPtr>)
    requires Remove(c, ops).ok
    ensures var t := Remove(c, ops).taken;
            |t| == |ops| && forall k :: 0 <= k < |t| ==> t[k].0 == ops[k].pos && t[k].1 in c
    decreases |ops|
  {
    if ops != [] {
      TakenAt(RemoveAt(c, ops[0].index), ops[1..]);
      assert forall x :: x in RemoveAt(c, ops[0].index) ==> x in c;
    }
  }

  lemma {:induction false} FillFrom(data: seq<Bytes>, taken: seq<(nat, Entry)>, p: nat)
    requires p < |data|
    ensures var r := Fill(data, taken)[p];
            || (r == data[p] && forall k :: 0 <= k < |taken| ==> taken[k].0 != p)
            || exists k :: 0 <= k < |taken| && taken[k].0 == p && taken[k].1.elem == r
    decreases |taken|
  {
    if taken != [] {
      var (pos, e) := taken[0];
      var data', rest := if pos < |data| then data[pos := e.elem] else data, taken[1..];
      FillFrom(data', rest, p);
      var r := Fill(data', rest)[p];
      if k :| 0 <= k < |rest| && rest[k].0 == p && rest[k].1.elem == r {
        assert taken[k + 1] == rest[k];
      } else {
        assert forall k :: 1 <= k < |taken| ==> taken[k] == rest[k - 1];
        assert pos == p ==> taken[0].0 == p && taken[0].1.elem == r;
      }
    }
  }

  /** Whatever the items are, a transaction spelled out is delivered as spelled, and one referred to is
      an element of the receiver's cache. */
  lemma DeliveredFrom(c: Cache, items: seq<Item>, p: nat)
    requires p < |items| && Remove(c, Tweak(Ops(items, 0))).ok
    ensures var tx := Fill(RawData(items), Remove(c, Tweak(Ops(items, 0))).taken)[p];
            match items[p]
            case Raw(data) => tx == data
            case Ref(_) => exists k :: 0 <= k < |c| && c[k].elem == tx
  {
    hide Tweak, Remove, Fill, RawData, Ops;
    var ops := Tweak(Ops(items, 0));
    var taken := Remove(c, ops).taken;
    TakenAt(c, ops);
    FillFrom(RawData(items), taken, p);
    TweakPositions(Ops(items, 0));
    OpsPositions(items, 0);
    PositionsOf(ops, p);
    SpelledOut(items);
    assert p in Positions(ops) <==> items[p].Ref?;
  }
}
