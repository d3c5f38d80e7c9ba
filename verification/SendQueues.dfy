/** The two outbound queues of a connection and their partial writes (c++/connection.cpp,
    c++/connection.h).  Every operation runs under send_bytes_mutex, so a run is a sequence of them. */
module SendQueues {
  import opened Basics

  datatype Queue = Primary | Secondary

  datatype Message = Message(queue: Queue, bytes: Bytes)

  /** The fields of a connection that concern sending. */
  datatype Outbound = Outbound(primary: seq<Bytes>, secondary: seq<Bytes>, primaryPos: nat, secondaryPos: nat,
                               totalWaiting: int, throttle: bool, initialBytes: nat, maxBuffer: nat)

  function Sizes(q: seq<Bytes>): (r: nat)
  {
    if q == [] then 0 else |q[0]| + Sizes(q[1..])
  }

  /** do_send_bytes and maybe_send_bytes: the new state, and whether the message was queued (otherwise
      the connection is shut down).  A message sent with the send mutex during the initial throttle
      widens the buffer. */
  function Send(o: Outbound, queue: Queue, bytes: Bytes, token: bool): (r: (Outbound, bool))
  {
    var o1 := if queue == Primary && o.throttle && token then o.(initialBytes := o.initialBytes + |bytes|) else o;
    if o1.totalWaiting - (if o1.throttle then o1.initialBytes else 0) > o1.maxBuffer then (o1, false)
    else
      var o2 := if queue == Primary then o1.(primary := o1.primary + [bytes]) else o1.(secondary := o1.secondary + [bytes]);
      (o2.(totalWaiting := o2.totalWaiting + |bytes|), true)
  }

  /** Which queue the net thread writes from. */
  predicate WritesPrimary(o: Outbound)
  {
    o.secondaryPos == 0 && o.primary != []
  }

  /** What it may write: the rest of the message in front. */
  function Offered(o: Outbound): (r: Bytes)
  {
    if WritesPrimary(o) then (if o.primaryPos <= |o.primary[0]| then o.primary[0][o.primaryPos..] else [])
    else if o.secondary != [] && o.secondaryPos <= |o.secondary[0]| then o.secondary[0][o.secondaryPos..]
    else []
  }

  /** The socket took count bytes: the position moves on, a finished message is popped. */
  function Written(o: Outbound, count: nat, gotSendMutex: bool): (r: Outbound)
  {
    var o1 :=
      if WritesPrimary(o) then
        var size := |o.primary[0]|;
        if o.primaryPos + count == size
        then o.(primaryPos := 0, totalWaiting := o.totalWaiting - size, primary := o.primary[1..])
        else o.(primaryPos := o.primaryPos + count)
      else if o.secondary != [] then
        var size := |o.secondary[0]|;
        if o.secondaryPos + count == size
        then o.(secondaryPos := 0, totalWaiting := o.totalWaiting - size, secondary := o.secondary[1..])
        else o.(secondaryPos := o.secondaryPos + count)
      else o;
    if gotSendMutex && o1.totalWaiting == 0 then o1.(throttle := false) else o1
  }

  // ---- Runs ----

  datatype Action =
    | Queued(queue: Queue, bytes: Bytes, token: bool)
    | Wrote(count: nat, gotSendMutex: bool)
    | Throttled

  /** A connection with its history: what was put on the wire, the messages finished, in wire order,
      and the messages queued. */
  datatype History = History(out: Outbound, wire: Bytes, finished: seq<Message>, queued: seq<Message>)

  /** Only non-empty messages are sent; the net thread writes only while something waits, and a
      successful write takes at least one byte and at most what it is offered. */
  predicate Enabled(h: History, a: Action)
  {
    match a
    case Queued(_, bytes, _) => bytes != []
    case Wrote(count, _) => h.out.totalWaiting > 0 && 1 <= count <= |Offered(h.out)|
    case Throttled => true
  }

  function Step(h: History, a: Action): (r: History)
    requires Enabled(h, a)
  {
    match a
    case Queued(queue, bytes, token) =>
      var (o, ok) := Send(h.out, queue, bytes, token);
      h.(out := o, queued := if ok then h.queued + [Message(queue, bytes)] else h.queued)
    case Wrote(count, gotSendMutex) =>
      var offered := Offered(h.out);
      var front := if WritesPrimary(h.out) then Message(Primary, h.out.primary[0])
                   else Message(Secondary, if h.out.secondary != [] then h.out.secondary[0] else []);
      History(Written(h.out, count, gotSendMutex), h.wire + offered[..count],
              if count == |offered| then h.finished + [front] else h.finished, h.queued)
    case Throttled => h.(out := h.out.(throttle := true))
  }

  ghost predicate Run(hs: seq<History>, acts: seq<Action>, maxBuffer: nat)
  {
    && |hs| == |acts| + 1
    && hs[0] == History(Outbound([], [], 0, 0, 0, false, 0, maxBuffer), [], [], [])
    && forall n :: 0 <= n < |acts| ==> Enabled(hs[n], acts[n]) && hs[n + 1] == Step(hs[n], acts[n])
  }

  /** The messages of one queue, in order. */
  function Of(ms: seq<Message>, q: Queue): (r: seq<Bytes>)
  {
    if ms == [] then []
    else
      var last := ms[|ms| - 1];
      Of(ms[..|ms| - 1], q) + (if last.queue == q then [last.bytes] else [])
  }

  function Concat(ms: seq<Message>): (r: Bytes)
  {
    if ms == [] then [] else Concat(ms[..|ms| - 1]) + ms[|ms| - 1].bytes
  }

  /** The part of a message that is on the wire already. */
  function Begun(o: Outbound): (r: Bytes)
  {
    if o.primaryPos > 0 && o.primary != [] && o.primaryPos <= |o.primary[0]| then o.primary[0][..o.primaryPos]
    else if o.secondaryPos > 0 && o.secondary != [] && o.secondaryPos <= |o.secondary[0]| then o.secondary[0][..o.secondaryPos]
    else []
  }

  ghost predicate NonEmpty(q: seq<Bytes>)
  {
    forall i :: 0 <= i < |q| ==> q[i] != []
  }

  /** Positions inside the front messages, never both; the total is the sum of the queued sizes. */
  ghost predicate WellFormed(o: Outbound)
  {
    && NonEmpty(o.primary) && NonEmpty(o.secondary)
    && (o.primaryPos > 0 ==> o.primary != [] && o.primaryPos < |o.primary[0]|)
    && (o.secondaryPos > 0 ==> o.secondary != [] && o.secondaryPos < |o.secondary[0]|)
    && (o.primaryPos == 0 || o.secondaryPos == 0)
    && o.totalWaiting == Sizes(o.primary) + Sizes(o.secondary)
  }

  /** The wire carries whole messages, one after the other, and a part of the next; each queue comes
      out in the order it went in. */
  ghost predicate Inv(h: History)
  {
    && WellFormed(h.out)
    && h.wire == Concat(h.finished) + Begun(h.out)
    && Of(h.queued, Primary) == Of(h.finished, Primary) + h.out.primary
    && Of(h.queued, Secondary) == Of(h.finished, Secondary) + h.out.secondary
  }

  lemma {:induction false} SizesAppend(q: seq<Bytes>, b: Bytes)
    ensures Sizes(q + [b]) == Sizes(q) + |b|
  {
    if q == [] {
      assert q + [b] == [b];
    } else {
      ConsAppend(q[0], q[1..], [b]);
      Uncons(q);
      SizesAppend(q[1..], b);
    }
  }

  lemma OfAppend(ms: seq<Message>, m: Message)
    ensures Of(ms + [m], m.queue) == Of(ms, m.queue) + [m.bytes]
    ensures forall q :: q != m.queue ==> Of(ms + [m], q) == Of(ms, q)
    ensures Concat(ms + [m]) == Concat(ms) + m.bytes
  {
  }

  /** When the net thread writes, the assertions of its two branches hold: there is a message in
      front, part of it is unwritten, and the other queue's message is not half written. */
  lemma WriteAssertions(o: Outbound)
    requires WellFormed(o) && o.totalWaiting > 0
    ensures WritesPrimary(o) ==> |o.primary[0]| - o.primaryPos > 0
    ensures !WritesPrimary(o) ==>
              o.secondary != [] && o.primaryPos == 0 && |o.secondary[0]| - o.secondaryPos > 0
    ensures Offered(o) != []
  {
  }

  lemma SendKeeps(h: History, a: Action)
    requires Inv(h) && a.Queued? && Enabled(h, a)
    ensures Inv(Step(h, a))
  {
    hide Sizes, Of, Concat;
    var q := if a.queue == Primary then h.out.primary else h.out.secondary;
    SizesAppend(q, a.bytes);
    OfAppend(h.queued, Message(a.queue, a.bytes));
    Assoc(Of(h.finished, a.queue), q, [a.bytes]);
  }

  /** The bytes begun and the bytes now written. */
  lemma MoreBegun(o: Outbound, count: nat, mutex: bool)
    requires WellFormed(o) && o.totalWaiting > 0 && 1 <= count <= |Offered(o)|
    ensures var front := if WritesPrimary(o) then o.primary[0] else o.secondary[0];
            if count == |Offered(o)| then
              Begun(o) + Offered(o)[..count] == front && Begun(Written(o, count, mutex)) == []
            else
              Begun(o) + Offered(o)[..count] == Begun(Written(o, count, mutex))
  {
  }

  lemma WrittenWellFormed(o: Outbound, count: nat, mutex: bool)
    requires WellFormed(o) && o.totalWaiting > 0 && 1 <= count <= |Offered(o)|
    ensures WellFormed(Written(o, count, mutex))
  {
    WriteAssertions(o);
  }

  /** A finished message leaves its queue, an unfinished one stays. */
  lemma WrittenQueues(o: Outbound, count: nat, mutex: bool)
    requires WellFormed(o) && o.totalWaiting > 0 && 1 <= count <= |Offered(o)|
    ensures var o', done := Written(o, count, mutex), count == |Offered(o)|;
            && o'.primary == (if done && WritesPrimary(o) then o.primary[1..] else o.primary)
            && o'.secondary == (if done && !WritesPrimary(o) then o.secondary[1..] else o.secondary)
  {
  }

  lemma WriteKeeps(h: History, a: Action)
    requires Inv(h) && a.Wrote? && Enabled(h, a)
    ensures Inv(Step(h, a))
  {
    var o := h.out;
    WriteAssertions(o);
    MoreBegun(o, a.count, a.gotSendMutex);
    WrittenWellFormed(o, a.count, a.gotSendMutex);
    WrittenQueues(o, a.count, a.gotSendMutex);
    hide Of, Concat, Sizes, WellFormed, Begun, Offered, Written, WritesPrimary;
    Assoc(Concat(h.finished), Begun(o), Offered(o)[..a.count]);
    if a.count == |Offered(o)| {
      var front := if WritesPrimary(o) then Message(Primary, o.primary[0]) else Message(Secondary, o.secondary[0]);
      var q := if WritesPrimary(o) then o.primary else o.secondary;
      OfAppend(h.finished, front);
      Uncons(q);
      Assoc(Of(h.finished, front.queue), [q[0]], q[1..]);
      assert Concat(h.finished + [front]) + [] == Concat(h.finished + [front]);
    }
  }

  /** Every state of every interleaving of senders and partial writes. */
  lemma {:induction false} RunsKeepMessagesWhole(hs: seq<History>, acts: seq<Action>, maxBuffer: nat, n: nat)
    requires Run(hs, acts, maxBuffer) && n < |hs|
    ensures Inv(hs[n])
  {
    if n == 0 {
      assert hs[0].wire == [] + [];
    } else {
      RunsKeepMessagesWhole(hs, acts, maxBuffer, n - 1);
      match acts[n - 1]
      case Queued(_, _, _) => SendKeeps(hs[n - 1], acts[n - 1]);
      case Wrote(_, _) => WriteKeeps(hs[n - 1], acts[n - 1]);
      case Throttled =>
    }
  }

  /** One message more: what waits afterwards, and that a refused message changes no queue. */
  lemma SendBound(o: Outbound, queue: Queue, bytes: Bytes, token: bool)
    ensures var (o', queued) := Send(o, queue, bytes, token);
            && (queued ==> o'.totalWaiting <= o'.maxBuffer + |bytes| + (if o'.throttle then o'.initialBytes else 0))
            && (!queued ==> o'.primary == o.primary && o'.secondary == o.secondary && o'.totalWaiting == o.totalWaiting)
            && (queued && token && o.throttle && queue == Primary ==>
                  o'.totalWaiting - o'.initialBytes == o.totalWaiting - o.initialBytes)
            && o'.maxBuffer == o.maxBuffer && o'.throttle == o.throttle
            && o'.initialBytes == o.initialBytes + (if queue == Primary && o.throttle && token then |bytes| else 0)
  {
  }

  /** No message queued is longer than m bytes. */
  predicate AtMost(acts: seq<Action>, m: nat)
  {
    forall n :: 0 <= n < |acts| && acts[n].Queued? ==> |acts[n].bytes| <= m
  }

  /** The bytes of the messages sent with the send mutex. */
  function TokenBytes(acts: seq<Action>): (r: nat)
  {
    if acts == [] then 0
    else TokenBytes(acts[..|acts| - 1]) + TokenPart(acts[|acts| - 1])
  }

  function TokenPart(a: Action): (r: nat)
  {
    if a.Queued? && a.queue == Primary && a.token then |a.bytes| else 0
  }

  ghost predicate Bounded(o: Outbound, maxBuffer: nat, m: nat, tokenBytes: nat, everThrottled: bool)
  {
    && o.maxBuffer == maxBuffer
    && o.totalWaiting <= maxBuffer + m + o.initialBytes
    && o.initialBytes <= tokenBytes
    && (!everThrottled ==> !o.throttle && o.initialBytes == 0)
  }

  lemma StepBounded(h: History, a: Action, maxBuffer: nat, m: nat, tokenBytes: nat, everThrottled: bool)
    requires Enabled(h, a) && WellFormed(h.out) && (a.Queued? ==> |a.bytes| <= m)
    requires Bounded(h.out, maxBuffer, m, tokenBytes, everThrottled)
    ensures Bounded(Step(h, a).out, maxBuffer, m, tokenBytes + TokenPart(a), everThrottled || a.Throttled?)
  {
    hide Send, Written, WellFormed, Offered, WritesPrimary;
    match a
    case Queued(queue, bytes, token) => SendBound(h.out, queue, bytes, token);
    case Wrote(count, mutex) => WrittenLess(h.out, count, mutex);
    case Throttled =>
  }

  predicate EverThrottled(acts: seq<Action>)
  {
    exists k :: 0 <= k < |acts| && acts[k].Throttled?
  }

  lemma OneActionMore(acts: seq<Action>, n: nat)
    requires n < |acts|
    ensures TokenBytes(acts[..n + 1]) == TokenBytes(acts[..n]) + TokenPart(acts[n])
    ensures EverThrottled(acts[..n + 1]) == (EverThrottled(acts[..n]) || acts[n].Throttled?)
  {
    var more := acts[..n + 1];
    assert more[..n] == acts[..n] && more[n] == acts[n];
    assert forall k :: 0 <= k < n ==> more[k] == acts[..n][k];
  }

  lemma RunStep(hs: seq<History>, acts: seq<Action>, maxBuffer: nat, n: nat)
    requires Run(hs, acts, maxBuffer) && n < |acts|
    ensures |hs| == |acts| + 1 && Enabled(hs[n], acts[n]) && hs[n + 1] == Step(hs[n], acts[n])
  {
    hide Enabled, Step;
  }

  /** In every state of every run at most the buffer, one message and the bytes sent with the send mutex
      during the initial throttle wait. */
  lemma {:induction false} BufferBound(hs: seq<History>, acts: seq<Action>, maxBuffer: nat, m: nat, n: nat)
    requires Run(hs, acts, maxBuffer) && AtMost(acts, m) && n < |hs|
    ensures |hs| == |acts| + 1 && Bounded(hs[n].out, maxBuffer, m, TokenBytes(acts[..n]), EverThrottled(acts[..n]))
    ensures hs[n].out.totalWaiting <= maxBuffer + m + hs[n].out.initialBytes
  {
    if n > 0 {
      assert |hs| == |acts| + 1;
      assert acts[n - 1].Queued? ==> |acts[n - 1].bytes| <= m;
      hide Run, Step, Enabled, WellFormed, AtMost, TokenBytes, EverThrottled, Of, Concat, Begun;
      BufferBound(hs, acts, maxBuffer, m, n - 1);
      RunsKeepMessagesWhole(hs, acts, maxBuffer, n - 1);
      RunStep(hs, acts, maxBuffer, n - 1);
      OneActionMore(acts, n - 1);
      StepBounded(hs[n - 1], acts[n - 1], maxBuffer, m, TokenBytes(acts[..n - 1]), EverThrottled(acts[..n - 1]));
    }
  }

  lemma WrittenLess(o: Outbound, count: nat, mutex: bool)
    requires WellFormed(o) && o.totalWaiting > 0 && 1 <= count <= |Offered(o)|
    ensures var o' := Written(o, count, mutex);
            && o'.totalWaiting <= o.totalWaiting && o'.maxBuffer == o.maxBuffer && o'.initialBytes == o.initialBytes
            && (o'.throttle ==> o.throttle)
  {
  }

  // ---- Which message goes next ----

  /** How many messages of a queue were put on the wire, and how many were queued. */
  function Done(h: History, q: Queue): (r: nat)
  {
    |Of(h.finished, q)|
  }

  function Asked(h: History, q: Queue): (r: nat)
  {
    |Of(h.queued, q)|
  }

  /** Nothing is half written. */
  predicate Between(h: History)
  {
    h.wire == Concat(h.finished)
  }

  lemma BetweenIs(h: History)
    requires Inv(h)
    ensures Between(h) <==> h.out.primaryPos == 0 && h.out.secondaryPos == 0
    ensures Asked(h, Primary) == Done(h, Primary) + |h.out.primary|
    ensures Asked(h, Secondary) == Done(h, Secondary) + |h.out.secondary|
  {
    assert |h.wire| == |Concat(h.finished)| + |Begun(h.out)|;
    assert Begun(h.out) == [] ==> Concat(h.finished) + [] == Concat(h.finished);
  }

  /** Between two messages the net thread takes the next one of the primary queue, and one of the secondary
      queue only when all that was queued on the primary queue is on the wire. */
  lemma PrimaryFirst(hs: seq<History>, acts: seq<Action>, maxBuffer: nat, n: nat)
    requires Run(hs, acts, maxBuffer) && n < |acts| && acts[n].Wrote? && Between(hs[n])
    ensures var h, q := hs[n], if Done(hs[n], Primary) < Asked(hs[n], Primary) then Primary else Secondary;
            && Done(h, q) < Asked(h, q)
            && var m := Of(h.queued, q)[Done(h, q)];
               && acts[n].count <= |m|
               && hs[n + 1].wire == h.wire + m[..acts[n].count]
               && hs[n + 1].finished == if acts[n].count == |m| then h.finished + [Message(q, m)] else h.finished
  {
    var h := hs[n];
    RunsKeepMessagesWhole(hs, acts, maxBuffer, n);
    BetweenIs(h);
    WriteAssertions(h.out);
    hide Of, Concat, Sizes;
    var q := if h.out.primary != [] then h.out.primary else h.out.secondary;
    assert q[0][0..] == q[0];
  }

  /** One more if a message of the secondary queue is half written. */
  function HalfSecondary(h: History): (r: nat)
  {
    if h.out.secondaryPos > 0 then 1 else 0
  }

  /** While something waits on the primary queue a write either takes it or ends or continues a message of
      the secondary queue. */
  lemma WriteHolds(o: Outbound, count: nat, mutex: bool)
    requires WellFormed(o) && o.primary != [] && o.totalWaiting > 0 && 1 <= count <= |Offered(o)|
    ensures if o.secondaryPos == 0 then WritesPrimary(o) && Written(o, count, mutex).secondaryPos == 0
            else !WritesPrimary(o) && (count == |Offered(o)| ==> Written(o, count, mutex).secondaryPos == 0)
  {
  }

  /** One step, while something waits on the primary queue: no message of the secondary queue is begun. */
  lemma StepHolds(h: History, a: Action)
    requires Inv(h) && Enabled(h, a)
    ensures var h' := Step(h, a);
            && Done(h, Primary) <= Done(h', Primary) && Asked(h, Primary) <= Asked(h', Primary)
            && (h.out.primary != [] ==>
                  Done(h', Secondary) + HalfSecondary(h') <= Done(h, Secondary) + HalfSecondary(h))
  {
    hide Of, Concat, Sizes, Written, WellFormed, Offered, WritesPrimary, Begun;
    match a
    case Queued(queue, bytes, token) => OfAppend(h.queued, Message(queue, bytes));
    case Wrote(count, mutex) =>
      OneMore(h.finished, Step(h, a).finished);
      if h.out.primary != [] {
        WriteHolds(h.out, count, mutex);
        OneMoreOf(h, a);
      }
    case Throttled =>
  }

  lemma OneMore(ms: seq<Message>, ms': seq<Message>)
    requires ms' == ms || (ms' != [] && ms' == ms + [ms'[|ms'| - 1]])
    ensures forall q :: |Of(ms, q)| <= |Of(ms', q)|
  {
    if ms' != ms {
      OfAppend(ms, ms'[|ms'| - 1]);
    }
  }

  lemma OneMoreOf(h: History, a: Action)
    requires Inv(h) && a.Wrote? && Enabled(h, a)
    ensures Done(Step(h, a), Secondary)
            == Done(h, Secondary) + (if !WritesPrimary(h.out) && a.count == |Offered(h.out)| then 1 else 0)
  {
    hide Of, Concat, Sizes, Written, WellFormed, Offered, WritesPrimary, Begun;
    var h' := Step(h, a);
    if a.count == |Offered(h.out)| {
      OfAppend(h.finished, h'.finished[|h.finished|]);
    }
  }

  lemma {:induction false} SecondaryHeld(hs: seq<History>, acts: seq<Action>, maxBuffer: nat, n: nat, m: nat, k: nat)
    requires Run(hs, acts, maxBuffer) && n <= m < |hs|
    requires k < Asked(hs[n], Primary) && Done(hs[m], Primary) <= k
    ensures k < Asked(hs[m], Primary)
    ensures Done(hs[m], Secondary) + HalfSecondary(hs[m]) <= Done(hs[n], Secondary) + HalfSecondary(hs[n])
    decreases m
  {
    hide Inv, Enabled, Step, Asked, Done, HalfSecondary;
    if n < m {
      RunsKeepMessagesWhole(hs, acts, maxBuffer, m - 1);
      StepHolds(hs[m - 1], acts[m - 1]);
      SecondaryHeld(hs, acts, maxBuffer, n, m - 1, k);
      BetweenIs(hs[m - 1]);
    }
  }

  /** From when a primary message is queued until it is on the wire, at most one message of the secondary
      queue is finished, and only if one was half written before. */
  lemma PrimaryWaitsForOne(hs: seq<History>, acts: seq<Action>, maxBuffer: nat, n: nat, m: nat, k: nat)
    requires Run(hs, acts, maxBuffer) && n <= m < |hs|
    requires k < Asked(hs[n], Primary) && Done(hs[m], Primary) <= k
    ensures Done(hs[m], Secondary) <= Done(hs[n], Secondary) + (if Between(hs[n]) then 0 else 1)
  {
    hide Inv, Asked, Done;
    RunsKeepMessagesWhole(hs, acts, maxBuffer, n);
    SecondaryHeld(hs, acts, maxBuffer, n, m, k);
    BetweenIs(hs[n]);
  }

  // ---- When a message is refused, and when the throttle ends ----

  /** In every run: a message is queued exactly when the bytes waiting, less during the throttle those sent
      with the send mutex, the message included if it is, do not exceed the buffer. */
  lemma QueuedUnlessFull(hs: seq<History>, acts: seq<Action>, maxBuffer: nat, n: nat)
    requires Run(hs, acts, maxBuffer) && n < |acts| && acts[n].Queued?
    ensures var h, a := hs[n], acts[n];
            var allowed := if !h.out.throttle then 0 else h.out.initialBytes + TokenPart(a);
            hs[n + 1].queued ==
              if Sizes(h.out.primary) + Sizes(h.out.secondary) <= maxBuffer + allowed
              then h.queued + [Message(a.queue, a.bytes)] else h.queued
  {
    RunsKeepMessagesWhole(hs, acts, maxBuffer, n);
    KeepsBuffer(hs, acts, maxBuffer, n);
    hide Of, Concat, Sizes;
  }

  lemma KeepsBuffer(hs: seq<History>, acts: seq<Action>, maxBuffer: nat, n: nat)
    requires Run(hs, acts, maxBuffer) && n < |hs|
    ensures hs[n].out.maxBuffer == maxBuffer
  {
    var m := LongestMessage(acts);
    BufferBound(hs, acts, maxBuffer, m, n);
  }

  /** Some bound on the messages of a run. */
  lemma {:induction false} LongestMessage(acts: seq<Action>) returns (m: nat)
    ensures AtMost(acts, m)
  {
    m := 0;
    if acts != [] {
      m := LongestMessage(acts[1..]);
      assert forall n :: 1 <= n < |acts| ==> acts[n] == acts[1..][n - 1];
      if acts[0].Queued? && |acts[0].bytes| > m {
        m := |acts[0].bytes|;
      }
    }
  }

  /** A write ends the throttle exactly when it empties both queues while the send mutex is free. */
  lemma ThrottleEnds(o: Outbound, count: nat, mutex: bool)
    requires WellFormed(o) && o.totalWaiting > 0 && 1 <= count <= |Offered(o)|
    ensures var o' := Written(o, count, mutex);
            o'.throttle == (o.throttle && !(mutex && o'.primary == [] && o'.secondary == []))
  {
    WrittenWellFormed(o, count, mutex);
    var o' := Written(o, count, mutex);
    EmptyQueues(o');
    hide WellFormed, Offered;
  }

  lemma EmptyQueues(o: Outbound)
    requires WellFormed(o)
    ensures o.totalWaiting == 0 <==> o.primary == [] && o.secondary == []
  {
  }

  // ---- The connection ----

  class Connection {
    var outboundPrimaryQueue: seq<Bytes>
    var outboundSecondaryQueue: seq<Bytes>
    var primaryWritepos: nat
    var secondaryWritepos: nat
    var totalWaitingSize: int
    var initialOutboundThrottle: bool
    var initialOutboundBytes: nat
    const maxOutboundBufferSize: nat

    function View(): (r: Outbound)
      reads this
    {
      Outbound(outboundPrimaryQueue, outboundSecondaryQueue, primaryWritepos, secondaryWritepos, totalWaitingSize,
               initialOutboundThrottle, initialOutboundBytes, maxOutboundBufferSize)
    }

    constructor (maxOutboundBufferSize: nat)
      ensures View() == Outbound([], [], 0, 0, 0, false, 0, maxOutboundBufferSize)
    {
      this.maxOutboundBufferSize := maxOutboundBufferSize;
      outboundPrimaryQueue, outboundSecondaryQueue, primaryWritepos, secondaryWritepos := [], [], 0, 0;
      totalWaitingSize, initialOutboundThrottle, initialOutboundBytes := 0, false, 0;
    }

    /** queued is false when the connection is shut down instead; wake says whether the net thread
        is sent a pipe byte. */
    method DoSendBytes(bytes: Bytes, token: bool) returns (queued: bool, wake: bool)
      modifies this
      ensures (View(), queued) == Send(old(View()), Primary, bytes, token)
      ensures wake == (queued && old(totalWaitingSize) == 0)
    {
      if initialOutboundThrottle && token {
        initialOutboundBytes := initialOutboundBytes + |bytes|;
      }
      if totalWaitingSize - (if initialOutboundThrottle then initialOutboundBytes else 0) > maxOutboundBufferSize {
        return false, false;
      }
      outboundPrimaryQueue := outboundPrimaryQueue + [bytes];
      totalWaitingSize := totalWaitingSize + |bytes|;
      queued, wake := true, totalWaitingSize == |bytes|;
    }

    method MaybeSendBytes(bytes: Bytes, token: bool) returns (queued: bool, wake: bool)
      modifies this
      ensures (View(), queued) == Send(old(View()), Secondary, bytes, token)
      ensures wake == (queued && old(totalWaitingSize) == 0)
    {
      if totalWaitingSize - (if initialOutboundThrottle then initialOutboundBytes else 0) > maxOutboundBufferSize {
        return false, false;
      }
      outboundSecondaryQueue := outboundSecondaryQueue + [bytes];
      totalWaitingSize := totalWaitingSize + |bytes|;
      queued, wake := true, totalWaitingSize == |bytes|;
    }

    /** The write half of a round of the net thread; count is what send returned. */
    method WriteSome(count: int, gotSendMutex: bool) returns (failed: bool)
      requires WellFormed(View()) && totalWaitingSize > 0 && count <= |Offered(View())|
      modifies this
      ensures failed == (count <= 0)
      ensures View() == if failed then old(View()) else Written(old(View()), count, gotSendMutex)
    {
      WriteAssertions(View());
      failed := count <= 0;
      if secondaryWritepos == 0 && |outboundPrimaryQueue| > 0 {
        var size := |outboundPrimaryQueue[0]|;
        assert size - primaryWritepos > 0;
        if !failed {
          primaryWritepos := primaryWritepos + count;
          if primaryWritepos == size {
            primaryWritepos := 0;
            totalWaitingSize := totalWaitingSize - size;
            outboundPrimaryQueue := outboundPrimaryQueue[1..];
          }
        }
      } else {
        assert |outboundSecondaryQueue| > 0 && primaryWritepos == 0;
        var size := |outboundSecondaryQueue[0]|;
        assert size - secondaryWritepos > 0;
        if !failed {
          secondaryWritepos := secondaryWritepos + count;
          if secondaryWritepos == size {
            secondaryWritepos := 0;
            totalWaitingSize := totalWaitingSize - size;
            outboundSecondaryQueue := outboundSecondaryQueue[1..];
          }
        }
      }
      if gotSendMutex && totalWaitingSize == 0 {
        initialOutboundThrottle := false;
      }
    }
  }
}
