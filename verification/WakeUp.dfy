/** How sending and reading threads wake the net thread out of select (c++/connection.cpp).  Each step
    is what one thread does between two points where another can intervene. */
module WakeUp {
  import opened Basics
  import I = InboundQueue
  import Q = SendQueues

  const RECV_SIZE: nat := 4096

  /** The holder of send_bytes_mutex: idle, or past the counter update with the comparison and the
      pipe write still to come. */
  datatype Sender = SendIdle | Added(size: nat)

  /** The user thread under read_mutex: idle, or past the counter update, having read the old size. */
  datatype Reader = ReadIdle | Taken(oldSize: nat)

  /** A connection's counters and flag, the threads at work on it, and what the net thread's current
      fd sets say: whether they were filled in for it, read and write interest, or a timeout for a
      throttled write. */
  datatype Conn = Conn(waiting: nat, inbound: nat, readsDone: bool, sender: Sender, reader: Reader,
                       visitedRead: bool, visitedWrite: bool, wantRead: bool, wantWrite: bool, timed: bool)

  /** The net thread: filling the fd sets, in select, going through the ready connections, or about
      to empty the pipe.  sawPipe is whether select reported the pipe readable. */
  datatype Phase = Building | Sleeping | Working(sawPipe: bool) | Draining(sawPipe: bool)

  /** adding holds the connection whose thread holds fd_map_mutex to enter fd_map. */
  datatype State = State(conns: map<nat, Conn>, pipe: nat, phase: Phase, adding: set<nat>)

  const FreshConn := Conn(0, 0, false, SendIdle, ReadIdle, false, false, false, false, false)

  /** A connection may enter fd_map with data queued, and with a sender at work. */
  datatype Action =
    | AddInsert(id: nat, waiting: nat, sender: Sender)
    | AddWrite(id: nat)
    | SendAdd(id: nat, size: nat)
    | SendCheck(id: nat)
    | TakeChunk(id: nat, size: nat)
    | TakeCheck(id: nat)
    | SetReadsDone(id: nat)
    | VisitRead(id: nat)
    | VisitWrite(id: nat, throttled: bool)
    | Sleep
    | Wake
    | Recv(id: nat, size: nat)
    | Write(id: nat, size: nat)
    | Remove(id: nat)
    | FinishWork
    | Drain

  function Set(s: State, id: nat, c: Conn): (r: State)
  {
    s.(conns := s.conns[id := c])
  }

  function Unvisited(c: Conn): (r: Conn)
  {
    c.(visitedRead := false, visitedWrite := false, wantRead := false, wantWrite := false, timed := false)
  }

  /** When an action can be taken: what the code tests and which mutex it needs. */
  ghost predicate Enabled(s: State, a: Action)
  {
    match a
    case AddInsert(id, _, _) => id !in s.conns && s.adding == {} && (s.phase.Sleeping? || s.phase.Draining?)
    case AddWrite(id) => id in s.adding
    case SendAdd(id, size) => id in s.conns && s.conns[id].sender == SendIdle && size > 0
    case SendCheck(id) => id in s.conns && s.conns[id].sender.Added?
    case TakeChunk(id, size) => id in s.conns && s.conns[id].reader == ReadIdle && 0 < size <= s.conns[id].inbound
    case TakeCheck(id) => id in s.conns && s.conns[id].reader.Taken?
    case SetReadsDone(id) => id in s.conns
    case VisitRead(id) => s.phase == Building && id in s.conns && !s.conns[id].visitedRead
    case VisitWrite(id, _) => s.phase == Building && id in s.conns && !s.conns[id].visitedWrite
    case Sleep => s.phase == Building && forall id :: id in s.conns ==> s.conns[id].visitedRead && s.conns[id].visitedWrite
    case Wake => s.phase == Sleeping && s.adding == {}
    case Recv(id, size) =>
      s.phase.Working? && id in s.conns && s.conns[id].wantRead && s.conns[id].reader == ReadIdle && 0 < size <= RECV_SIZE
    case Write(id, size) =>
      s.phase.Working? && id in s.conns && s.conns[id].wantWrite && s.conns[id].sender == SendIdle && size <= s.conns[id].waiting
    case Remove(id) => s.phase.Working? && id in s.conns
    case FinishWork => s.phase.Working?
    case Drain => s.phase.Draining? && s.adding == {}
  }

  function Step(s: State, a: Action): (r: State)
    requires Enabled(s, a)
  {
    match a
    case AddInsert(id, waiting, sender) => Set(s, id, FreshConn.(waiting := waiting, sender := sender)).(adding := {id})
    case AddWrite(id) => s.(pipe := s.pipe + 1, adding := s.adding - {id})
    case SendAdd(id, size) =>
      var c := s.conns[id];
      Set(s, id, c.(waiting := c.waiting + size, sender := Added(size)))
    case SendCheck(id) =>
      var c := s.conns[id];
      Set(s, id, c.(sender := SendIdle)).(pipe := if c.waiting == c.sender.size then s.pipe + 1 else s.pipe)
    case TakeChunk(id, size) =>
      var c := s.conns[id];
      Set(s, id, c.(inbound := c.inbound - size, reader := Taken(c.inbound)))
    case TakeCheck(id) =>
      var c := s.conns[id];
      Set(s, id, c.(reader := ReadIdle)).(pipe := if c.reader.oldSize >= I.INBOUND_LIMIT then s.pipe + 1 else s.pipe)
    case SetReadsDone(id) => Set(s, id, s.conns[id].(readsDone := true))
    case VisitRead(id) =>
      var c := s.conns[id];
      Set(s, id, c.(visitedRead := true, wantRead := c.inbound < I.INBOUND_LIMIT || c.readsDone))
    case VisitWrite(id, throttled) =>
      var c := s.conns[id];
      Set(s, id, c.(visitedWrite := true, wantWrite := c.waiting > 0 && !throttled, timed := c.waiting > 0 && throttled))
    case Sleep => s.(phase := Sleeping)
    case Wake => s.(phase := Working(s.pipe > 0))
    case Recv(id, size) =>
      var c := s.conns[id];
      Set(s, id, c.(wantRead := false, inbound := if c.readsDone then c.inbound else c.inbound + size))
    case Write(id, size) =>
      var c := s.conns[id];
      Set(s, id, c.(wantWrite := false, waiting := c.waiting - size))
    case Remove(id) => s.(conns := s.conns - {id})
    case FinishWork => s.(phase := Draining(s.phase.sawPipe))
    case Drain =>
      State(map id | id in s.conns :: Unvisited(s.conns[id]), if s.phase.sawPipe then 0 else s.pipe, Building, s.adding)
  }

  const Start := State(map[], 0, Building, {})

  ghost predicate Run(states: seq<State>, acts: seq<Action>)
  {
    && |states| == |acts| + 1 && states[0] == Start
    && forall n :: 0 <= n < |acts| ==> Enabled(states[n], acts[n]) && states[n + 1] == Step(states[n], acts[n])
  }

  ghost predicate Reachable(s: State)
  {
    exists states, acts :: Run(states, acts) && states[|acts|] == s
  }

  // ---- The invariant ----

  /** Someone is sure to write the pipe for this connection's outbound data. */
  predicate SenderWillWrite(c: Conn)
  {
    c.sender.Added? && c.sender.size == c.waiting
  }

  predicate ReaderWillWrite(c: Conn)
  {
    c.reader.Taken? && c.reader.oldSize >= I.INBOUND_LIMIT
  }

  /** The fd sets for c are stale only if a wake-up is under way. */
  predicate Covered(c: Conn, pipe: nat)
  {
    && (c.visitedRead && !c.wantRead && c.inbound < I.INBOUND_LIMIT ==> pipe > 0 || ReaderWillWrite(c))
    && (c.visitedWrite && !c.wantWrite && !c.timed && c.waiting > 0 ==> pipe > 0 || SenderWillWrite(c))
  }

  /** Interest is never wrong, and the inbound total is bounded. */
  predicate Honest(c: Conn)
  {
    && (c.wantRead ==> c.readsDone || c.inbound < I.INBOUND_LIMIT)
    && (c.wantWrite ==> c.waiting > 0)
    && (c.timed ==> c.waiting > 0 && !c.wantWrite)
    && c.inbound <= I.INBOUND_LIMIT - 1 + RECV_SIZE
  }

  ghost predicate Inv(s: State)
  {
    && (forall id :: id in s.conns ==> Honest(s.conns[id]))
    && (s.phase.Building? || s.phase.Sleeping? ==> forall id :: id in s.conns ==> Covered(s.conns[id], s.pipe))
    && (s.phase.Sleeping? ==>
          forall id :: id in s.conns && !(s.conns[id].visitedRead && s.conns[id].visitedWrite) ==> s.pipe > 0 || id in s.adding)
  }

  /** A step that changes one connection and at most adds a pipe byte. */
  lemma OneConn(s: State, id: nat, c: Conn, pipe: nat)
    requires Inv(s) && id in s.conns && s.pipe <= pipe && Honest(c)
    requires s.phase.Building? || s.phase.Sleeping? ==> Covered(c, pipe)
    requires s.phase.Sleeping? ==>
               c.visitedRead == s.conns[id].visitedRead && c.visitedWrite == s.conns[id].visitedWrite
    ensures Inv(Set(s, id, c).(pipe := pipe))
  {
  }

  /** The steps of the threads that use a connection. */
  lemma UserStepKeeps(s: State, a: Action)
    requires Inv(s) && Enabled(s, a)
    requires a.SendAdd? || a.SendCheck? || a.TakeChunk? || a.TakeCheck? || a.SetReadsDone?
    ensures Inv(Step(s, a))
  {
    var s' := Step(s, a);
    assert Honest(s.conns[a.id]);
    assert s.phase.Building? || s.phase.Sleeping? ==> Covered(s.conns[a.id], s.pipe);
    OneConn(s, a.id, s'.conns[a.id], s'.pipe);
  }

  /** The steps of the net thread that concern one connection. */
  lemma NetStepKeeps(s: State, a: Action)
    requires Inv(s) && Enabled(s, a) && (a.VisitRead? || a.VisitWrite? || a.Recv? || a.Write?)
    ensures Inv(Step(s, a))
  {
    var s' := Step(s, a);
    assert Honest(s.conns[a.id]);
    assert s.phase.Building? ==> Covered(s.conns[a.id], s.pipe);
    OneConn(s, a.id, s'.conns[a.id], s'.pipe);
  }

  /** The steps that change the phase or the set of connections. */
  lemma OtherStepKeeps(s: State, a: Action)
    requires Inv(s) && Enabled(s, a)
    requires a.AddInsert? || a.AddWrite? || a.Sleep? || a.Wake? || a.Remove? || a.FinishWork? || a.Drain?
    ensures Inv(Step(s, a))
  {
  }

  lemma StepKeeps(s: State, a: Action)
    requires Inv(s) && Enabled(s, a)
    ensures Inv(Step(s, a))
  {
    hide Inv, Enabled, Step;
    if a.SendAdd? || a.SendCheck? || a.TakeChunk? || a.TakeCheck? || a.SetReadsDone? {
      UserStepKeeps(s, a);
    } else if a.VisitRead? || a.VisitWrite? || a.Recv? || a.Write? {
      NetStepKeeps(s, a);
    } else {
      OtherStepKeeps(s, a);
    }
  }

  lemma {:induction false} RunsKeep(states: seq<State>, acts: seq<Action>, n: nat)
    requires Run(states, acts) && n < |states|
    ensures Inv(states[n])
  {
    hide Inv, Enabled, Step;
    if n == 0 {
      StartInv();
    } else {
      RunsKeep(states, acts, n - 1);
      StepKeeps(states[n - 1], acts[n - 1]);
    }
  }

  lemma StartInv()
    ensures Inv(Start)
  {
  }

  lemma ReachableInv(s: State)
    requires Reachable(s)
    ensures Inv(s)
  {
    var states, acts :| Run(states, acts) && states[|acts|] == s;
    RunsKeep(states, acts, |acts|);
  }

  /** No wake-up is lost: whenever the net thread sleeps without interest in a connection that has
      unthrottled outbound data, that has room to read or that it has not seen yet, a pipe byte is
      pending or a thread is on its way to write one.  And the inbound total stays bounded. */
  lemma NoLostWakeUp(s: State, id: nat)
    requires Reachable(s) && id in s.conns
    ensures var c := s.conns[id];
            && c.inbound <= 65535 + 4096
            && (s.phase == Sleeping && s.pipe == 0 ==>
                  && (c.waiting > 0 ==> c.wantWrite || c.timed || SenderWillWrite(c) || id in s.adding)
                  && (c.inbound < 65536 ==> c.wantRead || ReaderWillWrite(c) || id in s.adding))
  {
    ReachableInv(s);
  }

  /** A write is attempted only while something waits, as the queues' assertions need. */
  lemma WritesOnlyWhileWaiting(s: State, id: nat, size: nat)
    requires Reachable(s) && Enabled(s, Write(id, size))
    ensures s.conns[id].waiting > 0
  {
    ReachableInv(s);
  }

  // ---- The flag that wakes nobody ----

  /** What ends the net thread's sleep for a connection whose socket was just shut down: it watches the
      socket for reading or writing, or a throttled write will time out. */
  predicate Attended(c: Conn)
  {
    c.wantRead || c.wantWrite || c.timed
  }

  /** When disconnect sets DISCONNECT_READS_DONE while the net thread sleeps and no wake-up is under
      way, the net thread attends to the connection exactly if there is room to read or data to send. */
  lemma ReadsDoneIsSeen(s: State, id: nat)
    requires Reachable(s) && s.phase == Sleeping && s.pipe == 0 && id in s.conns && id !in s.adding
    requires !ReaderWillWrite(s.conns[id]) && !SenderWillWrite(s.conns[id]) && !s.conns[id].readsDone
    ensures var s' := Step(s, SetReadsDone(id));
            s'.pipe == 0 && (Attended(s'.conns[id]) <==> s.conns[id].inbound < 65536 || s.conns[id].waiting > 0)
  {
    ReachableInv(s);
    assert Honest(s.conns[id]) && Covered(s.conns[id], s.pipe);
  }

  lemma Reach(s: State, a: Action)
    requires Reachable(s) && Enabled(s, a)
    ensures Reachable(Step(s, a))
  {
    hide Enabled, Step;
    var states, acts :| Run(states, acts) && states[|acts|] == s;
    var states', acts' := states + [Step(s, a)], acts + [a];
    forall n | 0 <= n < |acts'|
      ensures Enabled(states'[n], acts'[n]) && states'[n + 1] == Step(states'[n], acts'[n])
    {
      if n < |acts| {
        assert states'[n] == states[n] && states'[n + 1] == states[n + 1] && acts'[n] == acts[n];
      }
    }
    assert Run(states', acts') && states'[|acts'|] == Step(s, a);
  }

  /** One connection with n inbound bytes, at the start of a round. */
  function Ready(n: nat): (r: State)
  {
    State(map[0 := FreshConn.(inbound := n)], 0, Building, {})
  }

  lemma Connects()
    ensures Reachable(Ready(0))
  {
    var s0 := Start;
    assert Run([s0], []) && [s0][0] == s0;
    hide Reachable;
    var s1 := Step(s0, Sleep);
    var s2 := Step(s1, AddInsert(0, 0, SendIdle));
    var s3 := Step(s2, AddWrite(0));
    var s4 := Step(s3, Wake);
    var s5 := Step(s4, FinishWork);
    Reach(s0, Sleep);
    Reach(s1, AddInsert(0, 0, SendIdle));
    Reach(s2, AddWrite(0));
    Reach(s3, Wake);
    Reach(s4, FinishWork);
    Reach(s5, Drain);
    assert Step(s5, Drain) == Ready(0);
  }

  /** A connection fills up to the limit in rounds of 4096 bytes. */
  lemma {:induction false} Fills(k: nat)
    requires k <= 16
    ensures Reachable(Ready(RECV_SIZE * k))
  {
    hide Reachable;
    if k == 0 {
      Connects();
    } else {
      Fills(k - 1);
      var s0 := Asleep(RECV_SIZE * (k - 1));
      var s1 := Step(s0, Wake);
      var s2 := Step(s1, Recv(0, RECV_SIZE));
      var s3 := Step(s2, FinishWork);
      Reach(s0, Wake);
      Reach(s1, Recv(0, RECV_SIZE));
      Reach(s2, FinishWork);
      Reach(s3, Drain);
      assert Step(s3, Drain) == Ready(RECV_SIZE * k);
    }
  }

  lemma Asleep(n: nat) returns (s: State)
    requires Reachable(Ready(n))
    ensures Reachable(s) && s.phase == Sleeping && s.pipe == 0 && s.adding == {} && s.conns.Keys == {0}
    ensures s.conns[0] == FreshConn.(inbound := n, visitedRead := true, visitedWrite := true, wantRead := n < 65536)
  {
    hide Reachable;
    var s0 := Ready(n);
    Reach(s0, VisitRead(0));
    var s1 := Step(s0, VisitRead(0));
    Reach(s1, VisitWrite(0, false));
    var s2 := Step(s1, VisitWrite(0, false));
    Reach(s2, Sleep);
    s := Step(s2, Sleep);
  }

  /** The gap is real: a run in which the flag is set while the net thread sleeps without watching
      the socket, and nothing will wake it for this connection. */
  lemma ReadsDoneCanGoUnseen() returns (s: State)
    ensures Reachable(s) && s.phase == Sleeping && s.pipe == 0 && s.adding == {}
    ensures 0 in s.conns && s.conns[0].readsDone && !Attended(s.conns[0])
    ensures s.conns[0].sender == SendIdle && s.conns[0].reader == ReadIdle
  {
    hide Reachable;
    Fills(16);
    var s0 := Asleep(65536);
    Reach(s0, SetReadsDone(0));
    s := Step(s0, SetReadsDone(0));
  }

  // ---- The counters are those of the queues ----

  /** Queueing a message moves the counter as the outbound queues do, and with nothing in between the check
      that follows writes a pipe byte exactly when nothing waited before. */
  lemma SendMatches(s: State, id: nat, o: Q.Outbound, queue: Q.Queue, bytes: Bytes, token: bool)
    requires Enabled(s, SendAdd(id, |bytes|)) && s.conns[id].waiting == o.totalWaiting
    requires Q.Send(o, queue, bytes, token).1
    ensures var s' := Step(s, SendAdd(id, |bytes|));
            && s'.conns[id].waiting == Q.Send(o, queue, bytes, token).0.totalWaiting
            && Enabled(s', SendCheck(id))
            && Step(s', SendCheck(id)).pipe == if o.totalWaiting == 0 then s.pipe + 1 else s.pipe
  {
  }

  /** So does a write, whatever the socket took. */
  lemma WriteMatches(s: State, id: nat, o: Q.Outbound, count: nat, mutex: bool)
    requires Q.WellFormed(o) && o.totalWaiting > 0 && 1 <= count <= |Q.Offered(o)|
    requires s.phase.Working? && id in s.conns && s.conns[id].wantWrite && s.conns[id].sender == SendIdle
    requires s.conns[id].waiting == o.totalWaiting
    ensures var o' := Q.Written(o, count, mutex);
            var a := Write(id, o.totalWaiting - o'.totalWaiting);
            Enabled(s, a) && Step(s, a).conns[id].waiting == o'.totalWaiting
  {
    Q.WrittenLess(o, count, mutex);
    Q.WrittenWellFormed(o, count, mutex);
  }

  /** And so does reading a chunk to its end: the total falls by the chunk, and the check that follows
      writes a pipe byte exactly when 65536 bytes or more were queued. */
  lemma TakeMatches(s: State, id: nat, q: seq<I.Chunk>, readpos: nat)
    requires q != [] && q[0].Some? && I.WellFormed(q, readpos)
    requires id in s.conns && s.conns[id].reader == ReadIdle && s.conns[id].inbound == |I.Stream(q)|
    ensures var a := TakeChunk(id, |q[0].value|);
            && Enabled(s, a) && Step(s, a).conns[id].inbound == |I.Stream(q[1..])|
            && Enabled(Step(s, a), TakeCheck(id))
            && Step(Step(s, a), TakeCheck(id)).pipe == if |I.Stream(q)| >= 65536 then s.pipe + 1 else s.pipe
  {
    I.RestStep(q, readpos, 0);
  }
}
