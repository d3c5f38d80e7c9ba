/** Whole runs of the relay: one sending compressor, any number of links that join, receive and
    leave, and a byte stream on each link (c++/relayprocess.cpp, c++/server.cpp, c++/client.cpp). */
module RelayRuns {
  import opened Basics
  import opened TxCache
  import opened TweakSort
  import opened BlockFormat
  import opened Merkle
  import opened Compression
  import opened TxRelay
  import V = Varint

  const END_BLOCK_TYPE: nat := 3
  const MAX_MESSAGE: nat := 1000000

  /** What a receiver hands on. */
  datatype Event = GotTx(tx: Bytes) | GotBlock(payload: Bytes)

  datatype Receiver = Receiver(cache: Cache, seen: set<Hash>)

  /** What both ends share. */
  datatype Setup = Setup(hp: Hashes, useOldFlags: bool)

  datatype Received = Stuck(reason: string) | Took(receiver: Receiver, events: seq<Event>, rest: Bytes)

  /** One message of the receiving loop.  A receiver whose behaviour is undefined counts as stuck. */
  function Receive(su: Setup, strict: bool, r: Receiver, s: Bytes): (res: Received)
    ensures res.Took? ==> |res.rest| < |s|
  {
    if |s| < 12 then Stuck("failed to read message header")
    else if FromBE(s[..4]) != RELAY_MAGIC then Stuck("invalid magic bytes")
    else
      var kind, size := FromBE(s[4..8]), FromBE(s[8..12]);
      if size > MAX_MESSAGE then Stuck("got message too large")
      else if kind == BLOCK_TYPE then ReceiveBlock(su, strict, r, size, s[12..])
      else if kind == END_BLOCK_TYPE then Took(r, [], s[12..])
      else if kind == TRANSACTION_TYPE then ReceiveTx(su, r, size, s[12..])
      else Stuck("message type outside the model")
  }

  function ReceiveTx(su: Setup, r: Receiver, size: nat, s: Bytes): (res: Received)
    ensures res.Took? ==> |res.rest| <= |s|
  {
    if !MayReceive(su.useOldFlags, FlagSum(r.cache), size) then Stuck("got freely relayed transaction too large")
    else if |s| < size then Stuck("failed to read loose transaction data")
    else Took(r.(cache := Admit(su.useOldFlags, r.cache, s[..size])), [GotTx(s[..size])], s[size..])
  }

  function ReceiveBlock(su: Setup, strict: bool, r: Receiver, count: nat, s: Bytes): (res: Received)
    ensures res.Took? ==> |res.rest| <= |s|
  {
    match Decompress(su.hp, r.cache, r.seen, count, s, strict)
    case Failed(reason, _, _) => Stuck(reason)
    case Undefined(_, _) => Stuck("undefined")
    case Delivered(payload, _, _, c, seen, rest) => Took(Receiver(c, seen), [GotBlock(payload)], rest)
  }

  datatype Drained = Jammed(reason: string) | Drained(receiver: Receiver, events: seq<Event>)

  /** The receiver run over all the bytes in flight. */
  function Drain(su: Setup, strict: bool, r: Receiver, s: Bytes): (res: Drained)
    decreases |s|
  {
    if s == [] then Drained(r, [])
    else match Receive(su, strict, r, s)
      case Stuck(reason) => Jammed(reason)
      case Took(r', events, rest) =>
        match Drain(su, strict, r', rest)
        case Jammed(reason) => Jammed(reason)
        case Drained(r'', more) => Drained(r'', events + more)
  }

  // ---- The state machine ----

  /** strict says whether the receiver checks work and Merkle root; wire is in flight; got is what the
      receiver handed on and log everything it was ever sent. */
  datatype Link = Link(strict: bool, receiver: Receiver, wire: Bytes, got: seq<Event>, log: seq<Event>)

  datatype State = State(cache: Cache, seen: set<Hash>, links: seq<Link>)

  function Put(l: Link, frame: Bytes, e: Event): (r: Link)
  {
    l.(wire := l.wire + frame, log := l.log + [e])
  }

  function Broadcast(links: seq<Link>, frame: Bytes, e: Event): (r: seq<Link>)
  {
    seq(|links|, i requires 0 <= i < |links| => Put(links[i], frame, e))
  }

  function EndFrame(): (r: Bytes)
  {
    FrameHeader(END_BLOCK_TYPE, 0)
  }

  /** The frames a joining client is sent: every cached transaction, in order. */
  function Replay(c: Cache): (r: Bytes)
  {
    if c == [] then [] else TxFrame(c[0].elem) + Replay(c[1..])
  }

  function ReplayEvents(c: Cache): (r: seq<Event>)
  {
    if c == [] then [] else [GotTx(c[0].elem)] + ReplayEvents(c[1..])
  }

  ghost predicate RelayTx(su: Setup, s: State, s': State, tx: Bytes)
  {
    var (msg, c) := SendTx(su.useOldFlags, s.cache, tx);
    s' == s.(cache := c, links := if msg.Some? then Broadcast(s.links, msg.value, GotTx(tx)) else s.links)
  }

  /** A block is relayed, or refused without touching the cache.  The transactions spelled out must
      be of a size the receivers take, and a receiver that checks must be sent an acceptable block. */
  ghost predicate RelayBlock(su: Setup, s: State, s': State, hash: Hash, block: Bytes, check: bool)
  {
    var k := Compress(su.hp, s.cache, s.seen, hash, block, check);
    match k.out
    case Refused(_) => k.cache == s.cache && s' == s
    case Sent(frame) =>
      SentWalk(su.hp, s.cache, s.seen, hash, block, check);
      var txs := Walk(block).txs;
      && RawFits(s.cache, txs)
      && ((exists i :: 0 <= i < |s.links| && s.links[i].strict) ==> Acceptable(su.hp, Header(block), txs))
      && s' == State(k.cache, k.seen, Broadcast(s.links, frame + EndFrame(), GotBlock(Payload(Header(block), txs))))
  }

  ghost predicate Deliver(su: Setup, s: State, s': State, i: nat)
  {
    && i < |s.links|
    && var l := s.links[i];
    && var res := Receive(su, l.strict, l.receiver, l.wire);
    && res.Took?
    && s' == s.(links := s.links[i := l.(receiver := res.receiver, wire := res.rest, got := l.got + res.events)])
  }

  /** A client joins: one snapshot of the cache is replayed to it. */
  ghost predicate Join(s: State, s': State, strict: bool)
  {
    s' == s.(links := s.links + [Link(strict, Receiver([], {}), Replay(s.cache), [], ReplayEvents(s.cache))])
  }

  ghost predicate Leave(s: State, s': State, i: nat)
  {
    i < |s.links| && s' == s.(links := RemoveAt(s.links, i))
  }

  /** A header learnt elsewhere marks a block as already sent. */
  ghost predicate MarkSeen(s: State, s': State, hash: Hash)
  {
    s' == s.(seen := s.seen + {hash})
  }

  datatype Action =
    | ATx(tx: Bytes)
    | ABlock(hash: Hash, block: Bytes, check: bool)
    | ADeliver(i: nat)
    | AJoin(strict: bool)
    | ALeave(i: nat)
    | AMarkSeen(hash: Hash)

  ghost predicate Next(su: Setup, s: State, s': State, a: Action)
  {
    match a
    case ATx(tx) => RelayTx(su, s, s', tx)
    case ABlock(hash, block, check) => RelayBlock(su, s, s', hash, block, check)
    case ADeliver(i) => Deliver(su, s, s', i)
    case AJoin(strict) => Join(s, s', strict)
    case ALeave(i) => Leave(s, s', i)
    case AMarkSeen(hash) => MarkSeen(s, s', hash)
  }

  const Start := State([], {}, [])

  /** The states a run passes through. */
  ghost predicate Run(su: Setup, states: seq<State>, actions: seq<Action>)
  {
    && |states| == |actions| + 1 && states[0] == Start
    && forall n :: 0 <= n < |actions| ==> Next(su, states[n], states[n + 1], actions[n])
  }

  // ---- The invariant ----

  /** Draining what is in flight brings the receiver's cache to the sender's and completes its log. */
  ghost predicate InSync(su: Setup, c: Cache, l: Link)
  {
    var d := Drain(su, l.strict, l.receiver, l.wire);
    d.Drained? && d.receiver.cache == c && l.got + d.events == l.log
  }

  ghost predicate Inv(su: Setup, s: State)
  {
    && Sound(su.useOldFlags, s.cache)
    && forall i :: 0 <= i < |s.links| ==> InSync(su, s.cache, s.links[i])
  }

  // ---- More bytes behind what is in flight ----

  lemma ReceivePrefix(su: Setup, strict: bool, r: Receiver, s: Bytes, more: Bytes)
    requires Receive(su, strict, r, s).Took?
    ensures var t := Receive(su, strict, r, s);
            Receive(su, strict, r, s + more) == Took(t.receiver, t.events, t.rest + more)
  {
    hide Decompress, FromBE, Admit, FlagSum, MayReceive;
    SliceAppend(s, more, 0, 4);
    SliceAppend(s, more, 4, 8);
    SliceAppend(s, more, 8, 12);
    assert (s + more)[..4] == (s + more)[0..4];
    var kind, size, body := FromBE(s[4..8]), FromBE(s[8..12]), s[12..];
    if kind == BLOCK_TYPE {
      DecompressPrefix(su.hp, r.cache, r.seen, size, body, strict, more);
    } else if kind == TRANSACTION_TYPE {
      SliceAppend(body, more, 0, size);
      assert (body + more)[..size] == (body + more)[0..size];
    }
  }

  lemma DecompressPrefix(hp: Hashes, c: Cache, seen: set<Hash>, count: nat, s: Bytes, check: bool, more: Bytes)
    requires Decompress(hp, c, seen, count, s, check).Delivered?
    ensures var d := Decompress(hp, c, seen, count, s, check);
            Decompress(hp, c, seen, count, s + more, check) == d.(rest := d.rest + more)
  {
    hide ReadItems, Remove, Tweak, Ops, Fill, RawData, MerkleOk, HasWork, WireBytes, Payload, V.FromLE;
    SliceAppend(s, more, 0, BLOCK_HEADER);
    SliceAppend(s, more, 0, 4);
    assert (s + more)[..BLOCK_HEADER] == (s + more)[0..BLOCK_HEADER];
    assert (s + more)[..4] == (s + more)[0..4] == s[..4];
    ReadItemsPrefix(s[BLOCK_HEADER..], count, more);
  }

  lemma {:induction false} DrainAppend(su: Setup, strict: bool, r: Receiver, s: Bytes, more: Bytes)
    requires Drain(su, strict, r, s).Drained?
    ensures var d := Drain(su, strict, r, s);
            Drain(su, strict, r, s + more)
            == match Drain(su, strict, d.receiver, more)
               case Jammed(reason) => Jammed(reason)
               case Drained(r', events) => Drained(r', d.events + events)
    decreases |s|
  {
    hide Receive;
    if s == [] {
      assert s + more == more;
      var d := Drain(su, strict, r, more);
      assert d.Drained? ==> [] + d.events == d.events;
    } else {
      ReceivePrefix(su, strict, r, s, more);
      var t := Receive(su, strict, r, s);
      DrainAppend(su, strict, t.receiver, t.rest, more);
      var d := Drain(su, strict, t.receiver, t.rest);
      var d' := Drain(su, strict, d.receiver, more);
      if d'.Drained? {
        Assoc(t.events, d.events, d'.events);
      }
    }
  }

  // ---- Each frame does to an equal cache what the sender did to its own ----

  lemma ReadsHeader(kind: nat, size: nat, body: Bytes)
    requires kind < 0x1_0000_0000 && size < 0x1_0000_0000
    ensures var s := FrameHeader(kind, size) + body;
            && FromBE(s[..4]) == RELAY_MAGIC && FromBE(s[4..8]) == kind && FromBE(s[8..12]) == size && s[12..] == body
  {
    var m, k, z := BE32(RELAY_MAGIC), BE32(kind), BE32(size);
    BE32RoundTrip(RELAY_MAGIC);
    BE32RoundTrip(kind);
    BE32RoundTrip(size);
    hide BE32, FromBE;
    var s := FrameHeader(kind, size) + body;
    assert |m| == 4 && |k| == 4 && |z| == 4;
    assert s[..4] == m && s[4..8] == k && s[8..12] == z && s[12..] == body;
  }

  lemma OneFrame(su: Setup, strict: bool, r: Receiver, s: Bytes, r': Receiver, events: seq<Event>)
    requires s != [] && Receive(su, strict, r, s) == Took(r', events, [])
    ensures Drain(su, strict, r, s) == Drained(r', events)
  {
  }

  lemma TxArrives(su: Setup, strict: bool, r: Receiver, tx: Bytes)
    requires MayReceive(su.useOldFlags, FlagSum(r.cache), |tx|)
    ensures Drain(su, strict, r, TxFrame(tx))
            == Drained(r.(cache := Admit(su.useOldFlags, r.cache, tx)), [GotTx(tx)])
  {
    hide Admit, FlagSum, FrameHeader, FromBE, ReceiveBlock;
    ReadsHeader(TRANSACTION_TYPE, |tx|, tx);
    assert tx[..|tx|] == tx && tx[|tx|..] == [];
    OneFrame(su, strict, r, TxFrame(tx), r.(cache := Admit(su.useOldFlags, r.cache, tx)), [GotTx(tx)]);
  }

  lemma EndArrives(su: Setup, strict: bool, r: Receiver)
    ensures Drain(su, strict, r, EndFrame()) == Drained(r, [])
  {
    hide FrameHeader, FromBE, ReceiveBlock, ReceiveTx;
    ReadsHeader(END_BLOCK_TYPE, 0, []);
    assert FrameHeader(END_BLOCK_TYPE, 0) + [] == FrameHeader(END_BLOCK_TYPE, 0);
    OneFrame(su, strict, r, EndFrame(), r, []);
  }

  lemma BlockArrives(su: Setup, strict: bool, r: Receiver, header: Bytes, txs: seq<Bytes>)
    requires |header| == BLOCK_HEADER && VersionOk(header) && 1 <= |txs| <= MAX_TXS
    requires |r.cache| <= 65000 && RawFits(r.cache, txs)
    requires strict ==> Acceptable(su.hp, header, txs)
    ensures Drain(su, strict, r, Frame(header, ItemsFor(r.cache, txs)) + EndFrame())
            == Drained(Receiver(WithoutAll(r.cache, txs), r.seen + {su.hp.bytes(header)}), [GotBlock(Payload(header, txs))])
  {
    hide Decompress, FrameHeader, FromBE, ReceiveTx, WithoutAll, ItemsFor, Codes, Payload, RawFits, VersionOk, MerkleOk, HasWork, WireBytes;
    var items := ItemsFor(r.cache, txs);
    var frame, body := Frame(header, items), header + Codes(items);
    var r' := Receiver(WithoutAll(r.cache, txs), r.seen + {su.hp.bytes(header)});
    Assoc(FrameHeader(BLOCK_TYPE, |items|), header, Codes(items));
    ReadsHeader(BLOCK_TYPE, |txs|, body);
    FrameRoundTrip(su.hp, r.cache, r.seen, header, txs, strict, []);
    assert frame[12..] + [] == body;
    OneFrame(su, strict, r, frame, r', [GotBlock(Payload(header, txs))]);
    DrainAppend(su, strict, r, frame, EndFrame());
    EndArrives(su, strict, r');
    assert [GotBlock(Payload(header, txs))] + [] == [GotBlock(Payload(header, txs))];
  }

  /** The replay to a joining client is accepted in full and rebuilds the cache. */
  lemma {:induction false} ReplayArrives(su: Setup, strict: bool, c: Cache, k: nat)
    requires Sound(su.useOldFlags, c) && k <= |c|
    ensures Drain(su, strict, Receiver(c[..k], {}), Replay(c[k..])) == Drained(Receiver(c, {}), ReplayEvents(c[k..]))
    decreases |c| - k
  {
    hide Drain, Admit, TxFrame;
    if k == |c| {
      assert c[..k] == c;
      DrainNothing(su, strict, Receiver(c, {}));
    } else {
      var tx, r, r' := c[k].elem, Receiver(c[..k], {}), Receiver(c[..k + 1], {});
      assert c[k..][1..] == c[k + 1..];
      ReplayAccepted(su.useOldFlags, c, k);
      TxArrives(su, strict, r, tx);
      AdmitNext(su.useOldFlags, c, k);
      DrainAppend(su, strict, r, TxFrame(tx), Replay(c[k + 1..]));
      ReplayArrives(su, strict, c, k + 1);
    }
  }

  lemma DrainNothing(su: Setup, strict: bool, r: Receiver)
    ensures Drain(su, strict, r, []) == Drained(r, [])
  {
  }

  lemma AdmitNext(useOldFlags: bool, c: Cache, k: nat)
    requires Sound(useOldFlags, c) && k < |c|
    ensures Admit(useOldFlags, c[..k], c[k].elem) == c[..k + 1]
  {
    hide FlagSum;
    assert c[..k] + [c[k]] == c[..k + 1];
    PrefixMeets(c, k + 1, LimitsOf(useOldFlags));
    assert c[k] == Entry(c[k].elem, FlagOf(useOldFlags, |c[k].elem|));
  }

  // ---- Every step keeps the invariant ----

  /** A frame sent on a link in step: the link stays in step with the sender's new cache. */
  lemma PutKeepsSync(su: Setup, c: Cache, c': Cache, l: Link, frame: Bytes, e: Event)
    requires InSync(su, c, l)
    requires forall r: Receiver :: r.cache == c ==>
               var d := Drain(su, l.strict, r, frame); d.Drained? && d.receiver.cache == c' && d.events == [e]
    ensures InSync(su, c', Put(l, frame, e))
  {
    hide Drain;
    var d := Drain(su, l.strict, l.receiver, l.wire);
    DrainAppend(su, l.strict, l.receiver, l.wire, frame);
    Assoc(l.got, d.events, [e]);
  }

  lemma BroadcastKeeps(su: Setup, c: Cache, c': Cache, links: seq<Link>, frame: Bytes, e: Event)
    requires forall i :: 0 <= i < |links| ==> InSync(su, c, links[i])
    requires forall i, r: Receiver :: 0 <= i < |links| && r.cache == c ==>
               var d := Drain(su, links[i].strict, r, frame); d.Drained? && d.receiver.cache == c' && d.events == [e]
    ensures forall i :: 0 <= i < |links| ==> InSync(su, c', Broadcast(links, frame, e)[i])
  {
    hide Drain, InSync;
    forall i | 0 <= i < |links|
      ensures InSync(su, c', Broadcast(links, frame, e)[i])
    {
      PutKeepsSync(su, c, c', links[i], frame, e);
    }
  }

  lemma RelayTxKeeps(su: Setup, s: State, s': State, tx: Bytes)
    requires Inv(su, s) && RelayTx(su, s, s', tx)
    ensures Inv(su, s')
  {
    hide Drain, InSync, Admit, Sound;
    SendTxSound(su.useOldFlags, s.cache, tx);
    var (msg, c) := SendTx(su.useOldFlags, s.cache, tx);
    if msg.Some? {
      forall i, r: Receiver | 0 <= i < |s.links| && r.cache == s.cache
        ensures var d := Drain(su, s.links[i].strict, r, msg.value);
                d.Drained? && d.receiver.cache == c && d.events == [GotTx(tx)]
      {
        TxArrives(su, s.links[i].strict, r, tx);
      }
      BroadcastKeeps(su, s.cache, c, s.links, msg.value, GotTx(tx));
    }
  }

  lemma RelayBlockKeeps(su: Setup, s: State, s': State, hash: Hash, block: Bytes, check: bool)
    requires Inv(su, s) && RelayBlock(su, s, s', hash, block, check)
    ensures Inv(su, s')
  {
    hide Drain, InSync, Compress, Walk, Acceptable, VersionOk, Payload, Frame, RawFits, WithoutAll, EarlyRefusal;
    var k := Compress(su.hp, s.cache, s.seen, hash, block, check);
    if k.out.Sent? {
      SentWalk(su.hp, s.cache, s.seen, hash, block, check);
      var txs, header := Walk(block).txs, Header(block);
      WithoutAllSound(su.useOldFlags, s.cache, txs);
      var frame, e := k.out.frame + EndFrame(), GotBlock(Payload(header, txs));
      hide Sound;
      CacheFits(su, s);
      forall i, r: Receiver | 0 <= i < |s.links| && r.cache == s.cache
        ensures var d := Drain(su, s.links[i].strict, r, frame);
                d.Drained? && d.receiver.cache == k.cache && d.events == [e]
      {
        BlockArrives(su, s.links[i].strict, r, header, txs);
      }
      BroadcastKeeps(su, s.cache, k.cache, s.links, frame, e);
    }
  }

  lemma CacheFits(su: Setup, s: State)
    requires Inv(su, s)
    ensures |s.cache| <= 65000
  {
  }

  lemma DeliverKeeps(su: Setup, s: State, s': State, i: nat)
    requires Inv(su, s) && Deliver(su, s, s', i)
    ensures Inv(su, s')
  {
    hide Receive, Sound;
    var l := s.links[i];
    var t := Receive(su, l.strict, l.receiver, l.wire);
    var d := Drain(su, l.strict, t.receiver, t.rest);
    assert l.wire != [];
    assert InSync(su, s.cache, l);
    Assoc(l.got, t.events, d.events);
    assert InSync(su, s.cache, s'.links[i]);
  }

  lemma JoinKeeps(su: Setup, s: State, s': State, strict: bool)
    requires Inv(su, s) && Join(s, s', strict)
    ensures Inv(su, s')
  {
    hide Drain, Sound;
    ReplayArrives(su, strict, s.cache, 0);
    assert s.cache[..0] == [] && s.cache[0..] == s.cache;
    var l := s'.links[|s.links|];
    assert [] + ReplayEvents(s.cache) == ReplayEvents(s.cache);
    assert InSync(su, s.cache, l);
  }

  lemma NextKeeps(su: Setup, s: State, s': State, a: Action)
    requires Inv(su, s) && Next(su, s, s', a)
    ensures Inv(su, s')
  {
    hide InSync, Sound, RelayTx, RelayBlock, Deliver, Join;
    match a
    case ATx(tx) => RelayTxKeeps(su, s, s', tx);
    case ABlock(hash, block, check) => RelayBlockKeeps(su, s, s', hash, block, check);
    case ADeliver(i) => DeliverKeeps(su, s, s', i);
    case AJoin(strict) => JoinKeeps(su, s, s', strict);
    case ALeave(i) =>
      assert forall j :: 0 <= j < |s'.links| ==> s'.links[j] == s.links[if j < i then j else j + 1];
    case AMarkSeen(hash) =>
  }

  /** In every state of every run, draining a link brings its receiver to the sender's cache and
      makes what it handed on exactly what it was sent. */
  lemma {:induction false} RunsStayInSync(su: Setup, states: seq<State>, actions: seq<Action>, n: nat)
    requires Run(su, states, actions) && n < |states|
    ensures Inv(su, states[n])
  {
    hide InSync, Next;
    if n == 0 {
      StartInv(su);
    } else {
      RunsStayInSync(su, states, actions, n - 1);
      NextKeeps(su, states[n - 1], states[n], actions[n - 1]);
    }
  }

  lemma StartInv(su: Setup)
    ensures Inv(su, Start)
  {
  }

  /** What that means for one link: what was handed on is a prefix of what was sent, a message in
      flight is always accepted, and with nothing in flight the caches are equal. */
  lemma LinkGuarantee(su: Setup, states: seq<State>, actions: seq<Action>, n: nat, i: nat)
    requires Run(su, states, actions) && n < |states| && i < |states[n].links|
    ensures var s, l := states[n], states[n].links[i];
            && l.got <= l.log
            && (l.wire != [] ==> Receive(su, l.strict, l.receiver, l.wire).Took?)
            && (l.wire == [] ==> l.receiver.cache == s.cache && l.got == l.log)
  {
    hide Receive, Next, Sound;
    RunsStayInSync(su, states, actions, n);
    assert InSync(su, states[n].cache, states[n].links[i]);
  }

  /** The replay is a frame for every transaction the sending cache lists, in the order listed. */
  lemma {:induction false} ReplayOfElems(c: Cache)
    ensures Replay(c) == Flatten(seq(|c|, i requires 0 <= i < |c| => TxFrame(Elems(c)[i])))
    ensures ReplayEvents(c) == seq(|c|, i requires 0 <= i < |c| => GotTx(Elems(c)[i]))
  {
    hide TxFrame;
    if c != [] {
      ReplayOfElems(c[1..]);
      var frames := seq(|c|, i requires 0 <= i < |c| => TxFrame(Elems(c)[i]));
      assert frames[1..] == seq(|c| - 1, i requires 0 <= i < |c| - 1 => TxFrame(Elems(c[1..])[i]));
    }
  }

  // ---- Whatever arrives ----

  /** A message that is taken starts with the magic number, announces at most 1000000 and has type 1 for a
      block, 2 for a transaction or 3 for the end of a block. */
  lemma TookKnown(su: Setup, strict: bool, r: Receiver, s: Bytes)
    requires Receive(su, strict, r, s).Took?
    ensures |s| >= 12 && s[..4] == [0xF2, 0xBE, 0xEF, 0x42] && s[4..7] == [0, 0, 0] && 1 <= s[7] <= 3
    ensures 0x100_0000 * (s[8] as int) + 0x1_0000 * (s[9] as int) + 0x100 * (s[10] as int) + s[11] as int <= 1000000
    ensures var events := Receive(su, strict, r, s).events;
            if s[7] == 1 then |events| == 1 && events[0].GotBlock?
            else if s[7] == 2 then |events| == 1 && events[0].GotTx?
            else events == []
  {
    hide FromBE, Decompress, MayReceive, FlagSum, Admit;
    FromBE4(s[..4]);
    FromBE4(s[4..8]);
    FromBE4(s[8..12]);
  }

  /** A receiver's cache keeps the rules of its mode whatever bytes arrive. */
  lemma ReceiveSound(su: Setup, strict: bool, r: Receiver, s: Bytes)
    requires Sound(su.useOldFlags, r.cache) && Receive(su, strict, r, s).Took?
    ensures Sound(su.useOldFlags, Receive(su, strict, r, s).receiver.cache)
  {
    hide Sound, FromBE, MayReceive, FlagSum, Admit, Remove, Tweak, Ops, Fill, RawData, ReadItems, MerkleOk, HasWork, WireBytes, Payload, V.FromLE;
    var kind, size, body := FromBE(s[4..8]), FromBE(s[8..12]), s[12..];
    if kind == TRANSACTION_TYPE {
      AdmitSound(su.useOldFlags, r.cache, body[..size]);
    } else if kind == BLOCK_TYPE {
      RemoveSound(su.useOldFlags, r.cache, Tweak(Ops(ReadItems(body[BLOCK_HEADER..], size).items, 0)));
    }
  }

  ghost predicate ReceiversSound(su: Setup, s: State)
  {
    forall i :: 0 <= i < |s.links| ==> Sound(su.useOldFlags, s.links[i].receiver.cache)
  }

  lemma NextReceiversSound(su: Setup, s: State, s': State, a: Action)
    requires ReceiversSound(su, s) && Next(su, s, s', a)
    ensures ReceiversSound(su, s')
  {
    hide Receive, Compress, SendTx, Acceptable, RawFits, Walk, Replay, ReplayEvents, Sound;
    match a
    case ADeliver(i) =>
      ReceiveSound(su, s.links[i].strict, s.links[i].receiver, s.links[i].wire);
    case AJoin(strict) =>
      EmptySound(su.useOldFlags);
    case _ =>
  }

  lemma EmptySound(useOldFlags: bool)
    ensures Sound(useOldFlags, [])
  {
  }

  /** In every state of every run the sender's cache and each receiver's hold at most what their mode
      allows, counted in transactions and bytes. */
  lemma {:induction false} CachesStayWithinLimits(su: Setup, states: seq<State>, acts: seq<Action>, n: nat)
    requires Run(su, states, acts) && n < |states|
    ensures WithinLimits(su.useOldFlags, states[n].cache)
    ensures forall i :: 0 <= i < |states[n].links| ==> WithinLimits(su.useOldFlags, states[n].links[i].receiver.cache)
  {
    RunsStayInSync(su, states, acts, n);
    RunReceiversSound(su, states, acts, n);
    SoundMeans(su.useOldFlags, states[n].cache);
    forall i | 0 <= i < |states[n].links|
      ensures WithinLimits(su.useOldFlags, states[n].links[i].receiver.cache)
    {
      SoundMeans(su.useOldFlags, states[n].links[i].receiver.cache);
    }
  }

  lemma {:induction false} RunReceiversSound(su: Setup, states: seq<State>, acts: seq<Action>, n: nat)
    requires Run(su, states, acts) && n < |states|
    ensures ReceiversSound(su, states[n])
  {
    hide Next, Sound;
    if n > 0 {
      RunReceiversSound(su, states, acts, n - 1);
      NextReceiversSound(su, states[n - 1], states[n], acts[n - 1]);
    }
  }

  // ---- A block as it was given ----

  /** Where link i stands after a run of actions, if it has not left. */
  function Followed(acts: seq<Action>, i: nat): (r: Option<nat>)
  {
    if acts == [] then Some(i)
    else if acts[0] == ALeave(i) then None
    else Followed(acts[1..], if acts[0].ALeave? && acts[0].i < i then i - 1 else i)
  }

  /** What a link was sent is never taken back. */
  lemma StepLog(su: Setup, s: State, s': State, a: Action, i: nat)
    requires Next(su, s, s', a) && i < |s.links| && a != ALeave(i)
    ensures var j := if a.ALeave? && a.i < i then i - 1 else i;
            j < |s'.links| && s.links[i].log <= s'.links[j].log
  {
    hide Receive, Compress, SendTx, Acceptable, RawFits, Walk, Replay, ReplayEvents;
  }

  lemma {:induction false} RunLog(su: Setup, states: seq<State>, acts: seq<Action>, n: nat, m: nat, i: nat)
    requires Run(su, states, acts) && n <= m < |states| && i < |states[n].links|
    requires Followed(acts[n..m], i).Some?
    ensures var j := Followed(acts[n..m], i).value;
            j < |states[m].links| && states[n].links[i].log <= states[m].links[j].log
    decreases m - n
  {
    hide Next;
    if n < m {
      var a := acts[n];
      assert acts[n..m][0] == a && acts[n..m][1..] == acts[n + 1..m];
      StepLog(su, states[n], states[n + 1], a, i);
      RunLog(su, states, acts, n + 1, m, if a.ALeave? && a.i < i then i - 1 else i);
    }
  }

  /** A well-formed block enters every link's log as it was given. */
  lemma BlockLoggedAsGiven(su: Setup, s: State, s': State, hash: Hash, block: Bytes, check: bool)
    requires RelayBlock(su, s, s', hash, block, check) && Compress(su.hp, s.cache, s.seen, hash, block, check).out.Sent?
    requires |block| >= MSG_HEADER + BLOCK_HEADER && V.ReadVarint(block, MSG_HEADER + BLOCK_HEADER).Got?
    requires Walk(block).ok && |Walk(block).txs| <= MAX_TXS && WellFormed(block)
    ensures |s'.links| == |s.links|
    ensures forall i :: 0 <= i < |s.links| ==> s'.links[i].log == s.links[i].log + [GotBlock(Given(block))]
  {
    hide Compress, Walk, WellFormed, RawFits, Acceptable, Payload;
    SentWalk(su.hp, s.cache, s.seen, hash, block, check);
    DeliveredIsGiven(block);
  }

  /** In every run: what a link hands on at the place a well-formed block has in its log is the block as
      it was given to the sender, and once nothing is in flight it has handed it on. */
  lemma BlockArrivesAsGiven(su: Setup, states: seq<State>, acts: seq<Action>, n: nat, m: nat, i: nat)
    requires Run(su, states, acts) && n < m < |states| && i < |states[n].links| && acts[n].ABlock?
    requires Compress(su.hp, states[n].cache, states[n].seen, acts[n].hash, acts[n].block, acts[n].check).out.Sent?
    requires |acts[n].block| >= MSG_HEADER + BLOCK_HEADER && V.ReadVarint(acts[n].block, MSG_HEADER + BLOCK_HEADER).Got?
    requires Walk(acts[n].block).ok && |Walk(acts[n].block).txs| <= MAX_TXS && WellFormed(acts[n].block)
    requires Followed(acts[n + 1..m], i).Some?
    ensures var j, p, e := Followed(acts[n + 1..m], i).value, |states[n].links[i].log|, GotBlock(Given(acts[n].block));
            && j < |states[m].links|
            && var l := states[m].links[j];
               && (p < |l.got| ==> l.got[p] == e)
               && (l.wire == [] ==> p < |l.got|)
  {
    hide Compress, Walk, WellFormed, Receive, V.ReadVarint;
    assert Next(su, states[n], states[n + 1], acts[n]);
    hide Run;
    BlockLoggedAsGiven(su, states[n], states[n + 1], acts[n].hash, acts[n].block, acts[n].check);
    RunLog(su, states, acts, n + 1, m, i);
    var j := Followed(acts[n + 1..m], i).value;
    LinkGuarantee(su, states, acts, m, j);
  }

  // ---- Which blocks keep a link in step ----

  /** A block message that the receiver refuses. */
  lemma BlockJams(su: Setup, strict: bool, r: Receiver, header: Bytes, txs: seq<Bytes>)
    requires |header| == BLOCK_HEADER && VersionOk(header) && 1 <= |txs| <= MAX_TXS
    requires |r.cache| <= 65000 && LengthsFit(txs)
    requires !(RawFits(r.cache, txs) && (strict ==> Acceptable(su.hp, header, txs)))
    ensures Drain(su, strict, r, Frame(header, ItemsFor(r.cache, txs)) + EndFrame()).Jammed?
  {
    hide Decompress, FrameHeader, FromBE, ReceiveTx, WithoutAll, ItemsFor, Codes, Payload, RawFits, VersionOk, Acceptable, WireBytes, LengthsFit;
    var items := ItemsFor(r.cache, txs);
    var h, body := FrameHeader(BLOCK_TYPE, |items|), header + Codes(items);
    var s := Frame(header, items) + EndFrame();
    Assoc(h, header, Codes(items));
    Assoc(h, body, EndFrame());
    ReadsHeader(BLOCK_TYPE, |txs|, body + EndFrame());
    assert Frame(header, items)[12..] == body;
    AcceptableIs(su.hp, header, txs);
    if RawFits(r.cache, txs) {
      FrameRoundTrip(su.hp, r.cache, r.seen, header, txs, strict, EndFrame());
    } else {
      OversizeFrameRefused(su.hp, r.cache, r.seen, header, txs, strict, EndFrame());
    }
    assert Receive(su, strict, r, s).Stuck?;
  }

  /** After a block was sent a link is in step with the sender exactly when the receiver takes every
      transaction spelled out and, if it checks, the block is acceptable. */
  lemma SentBlockKeepsSync(su: Setup, c: Cache, seen: set<Hash>, hash: Hash, block: Bytes, check: bool, l: Link)
    requires InSync(su, c, l) && |c| <= 65000 && Compress(su.hp, c, seen, hash, block, check).out.Sent?
    requires |block| >= MSG_HEADER + BLOCK_HEADER && V.ReadVarint(block, MSG_HEADER + BLOCK_HEADER).Got?
    requires Walk(block).ok && 1 <= |Walk(block).txs| <= MAX_TXS && LengthsFit(Walk(block).txs)
    ensures var k, header, txs := Compress(su.hp, c, seen, hash, block, check), Header(block), Walk(block).txs;
            InSync(su, k.cache, Put(l, k.out.frame + EndFrame(), GotBlock(Payload(header, txs)))) <==>
              RawFits(c, txs) && (l.strict ==> Acceptable(su.hp, header, txs))
  {
    hide Drain, Compress, Walk, Acceptable, VersionOk, Payload, Frame, RawFits, WithoutAll, LengthsFit;
    SentWalk(su.hp, c, seen, hash, block, check);
    var k, header, txs := Compress(su.hp, c, seen, hash, block, check), Header(block), Walk(block).txs;
    var d, frame, e := Drain(su, l.strict, l.receiver, l.wire), k.out.frame + EndFrame(), GotBlock(Payload(header, txs));
    DrainAppend(su, l.strict, l.receiver, l.wire, frame);
    if RawFits(c, txs) && (l.strict ==> Acceptable(su.hp, header, txs)) {
      BlockArrives(su, l.strict, d.receiver, header, txs);
      Assoc(l.got, d.events, [e]);
    } else {
      BlockJams(su, l.strict, d.receiver, header, txs);
    }
  }

  // ---- A compression refused after its walk began ----

  /** A refusal sends nothing, so a link stays in step with the sender exactly when the refusal came
      before the walk or the walk met no cached transaction. */
  lemma RefusalKeepsSync(su: Setup, c: Cache, seen: set<Hash>, hash: Hash, block: Bytes, check: bool, l: Link)
    requires InSync(su, c, l) && Compress(su.hp, c, seen, hash, block, check).out.Refused?
    ensures InSync(su, Compress(su.hp, c, seen, hash, block, check).cache, l) <==>
            || EarlyRefusal(seen, hash, block, check).Some?
            || forall i :: 0 <= i < |Walk(block).txs| ==> IndexOf(c, Walk(block).txs[i]) < 0
  {
    hide Drain, Compress, EarlyRefusal, Walk;
    RefusalKeepsCache(su.hp, c, seen, hash, block, check);
  }
}
