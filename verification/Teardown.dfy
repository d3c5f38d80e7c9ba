/** Taking a connection down: the user thread in disconnect, the net thread removing the connection
    and threads that disconnect it from outside (c++/connection.cpp).  Each step is what one thread
    does between two points where another can intervene. */
module Teardown {

  datatype Owner = Free | User | Net

  /** The user thread: setting up, running (inside or outside read_mutex), in disconnect after each of
      its flags, holding read_mutex in the wait loop, in the wait, past it, returned. */
  datatype UserAt =
    | SettingUp | Running | RunningLocked
    | Started | Closed | ReadsDone
    | Checking | Waiting(notified: bool) | Completed | Returned

  /** The net thread: away, in fd_map under fd_map_mutex without or with this connection in hand, with
      its read_mutex in hand for an append, and the removal after each of its steps. */
  datatype NetAt =
    | Away | InMap | Touching | Appending
    | RemovalLocked | Notified | Flagged | Erased

  datatype State = State(user: UserAt, net: NetAt, readMutex: Owner, inFdMap: bool,
                         started: bool, printAndClose: bool, readsDone: bool, globalThreadDone: bool, complete: bool)

  datatype Action =
    | SetupOk | SetupFails | LockRead | UnlockRead
    | Disconnect | Close | SetReadsDone | LockForWait | Test | WakeUp | Return
    | FromOutside
    | LockMap | Find | LockAppend | UnlockAppend | LetGo | LockRemoval | Notify | SetDone | Erase | UnlockRemoval | UnlockMap

  predicate HoldsMap(net: NetAt)
  {
    net != Away
  }

  predicate Enabled(s: State, a: Action)
  {
    match a
    case SetupOk => s.user == SettingUp && !HoldsMap(s.net)
    case SetupFails => s.user == SettingUp
    case LockRead => s.user == Running && s.readMutex == Free
    case UnlockRead => s.user == RunningLocked
    case Disconnect => s.user == Running && !s.started
    case Close => s.user == Started
    case SetReadsDone => s.user == Closed
    case LockForWait => s.user == ReadsDone && s.readMutex == Free
    case Test => s.user == Checking
    case WakeUp => s.user.Waiting? && s.readMutex == Free
    case Return => s.user == Completed
    case FromOutside => true
    case LockMap => s.net == Away
    case Find => s.net == InMap && s.inFdMap
    case LockAppend => s.net == Touching && s.readMutex == Free
    case UnlockAppend => s.net == Appending
    case LetGo => s.net == Touching
    case LockRemoval => s.net == Touching && s.readMutex == Free
    case Notify => s.net == RemovalLocked
    case SetDone => s.net == Notified
    case Erase => s.net == Flagged
    case UnlockRemoval => s.net == Erased
    case UnlockMap => s.net == InMap
  }

  /** WakeUp also covers a wait that ends spuriously. */
  function Step(s: State, a: Action): (r: State)
    requires Enabled(s, a)
  {
    match a
    case SetupOk => s.(user := Running, inFdMap := true)
    case SetupFails => s.(user := Started, globalThreadDone := true, started := true)
    case LockRead => s.(user := RunningLocked, readMutex := User)
    case UnlockRead => s.(user := Running, readMutex := Free)
    case Disconnect => s.(user := Started, started := true)
    case Close => s.(user := Closed, printAndClose := true)
    case SetReadsDone => s.(user := ReadsDone, readsDone := true)
    case LockForWait => s.(user := Checking, readMutex := User)
    case Test =>
      if s.globalThreadDone then s.(user := Completed, complete := true)
      else s.(user := Waiting(false), readMutex := Free)
    case WakeUp => s.(user := Checking, readMutex := User)
    case Return => s.(user := Returned, readMutex := Free)
    case FromOutside => s.(printAndClose := true)
    case LockMap => s.(net := InMap)
    case Find => s.(net := Touching)
    case LockAppend => s.(net := Appending, readMutex := Net)
    case UnlockAppend => s.(net := Touching, readMutex := Free)
    case LetGo => s.(net := InMap)
    case LockRemoval => s.(net := RemovalLocked, readMutex := Net)
    case Notify => s.(net := Notified, user := if s.user.Waiting? then Waiting(true) else s.user)
    case SetDone => s.(net := Flagged, globalThreadDone := true)
    case Erase => s.(net := Erased, inFdMap := false)
    case UnlockRemoval => s.(net := InMap, readMutex := Free)
    case UnlockMap => s.(net := Away)
  }

  const Start := State(SettingUp, Away, Free, false, false, false, false, false, false)

  ghost predicate Run(states: seq<State>, acts: seq<Action>)
  {
    && |states| == |acts| + 1 && states[0] == Start
    && forall n :: 0 <= n < |acts| ==> Enabled(states[n], acts[n]) && states[n + 1] == Step(states[n], acts[n])
  }

  /** The net thread has this connection in hand. */
  predicate HasInHand(net: NetAt)
  {
    net != Away && net != InMap
  }

  predicate UserHolds(user: UserAt)
  {
    user == RunningLocked || user == Checking || user == Completed
  }

  predicate NetHolds(net: NetAt)
  {
    net == Appending || net == RemovalLocked || net == Notified || net == Flagged || net == Erased
  }

  /** The last steps of the removal, taken under read_mutex. */
  predicate Leaving(net: NetAt)
  {
    net == Notified || net == Flagged || net == Erased
  }

  predicate Inv(s: State)
  {
    && (s.readMutex == User <==> UserHolds(s.user))
    && (s.readMutex == Net <==> NetHolds(s.net))
    && (HasInHand(s.net) ==> s.inFdMap == (s.net != Erased))
    && (s.user == SettingUp ==> !s.inFdMap && !HasInHand(s.net) && !s.globalThreadDone)
    && (s.globalThreadDone ==> s.net == Flagged || s.net == Erased || (!s.inFdMap && !HasInHand(s.net)))
    && (s.net == Flagged || s.net == Erased ==> s.globalThreadDone)
    && (s.complete <==> s.user == Completed || s.user == Returned)
    && (s.complete ==> s.globalThreadDone && !s.inFdMap && !HasInHand(s.net))
    && (s.user == Waiting(false) ==> !s.globalThreadDone && !Leaving(s.net))
  }

  predicate NetAction(a: Action)
  {
    NetTouches(a) || a.LockMap? || a.UnlockMap?
  }

  lemma UserStepKeeps(s: State, a: Action)
    requires Inv(s) && Enabled(s, a) && !NetAction(a)
    ensures Inv(Step(s, a))
  {
  }

  predicate RemovalAction(a: Action)
  {
    a.LockRemoval? || a.Notify? || a.SetDone? || a.Erase? || a.UnlockRemoval?
  }

  lemma NetStepKeeps(s: State, a: Action)
    requires Inv(s) && Enabled(s, a)
    requires a.LockMap? || a.UnlockMap? || a.Find? || a.LetGo? || a.LockAppend? || a.UnlockAppend?
    ensures Inv(Step(s, a))
  {
  }

  lemma RemovalStepKeeps(s: State, a: Action)
    requires Inv(s) && Enabled(s, a) && RemovalAction(a)
    ensures Inv(Step(s, a))
  {
  }

  lemma StepKeeps(s: State, a: Action)
    requires Inv(s) && Enabled(s, a)
    ensures Inv(Step(s, a))
  {
    hide Inv, Enabled, Step;
    if RemovalAction(a) {
      RemovalStepKeeps(s, a);
    } else if NetAction(a) {
      NetStepKeeps(s, a);
    } else {
      UserStepKeeps(s, a);
    }
  }

  lemma {:induction false} RunsKeep(states: seq<State>, acts: seq<Action>, n: nat)
    requires Run(states, acts) && n < |states|
    ensures Inv(states[n])
  {
    if n > 0 {
      RunsKeep(states, acts, n - 1);
      StepKeeps(states[n - 1], acts[n - 1]);
    }
  }

  /** A step in which the net thread handles the connection, rather than the map. */
  predicate NetTouches(a: Action)
  {
    a.Find? || a.LockAppend? || a.UnlockAppend? || a.LetGo? || a.LockRemoval? || a.Notify? || a.SetDone? || a.Erase? || a.UnlockRemoval?
  }

  lemma CompleteStep(s: State, a: Action)
    requires Inv(s) && s.complete && Enabled(s, a)
    ensures Step(s, a).complete && !NetTouches(a)
  {
  }

  /** Once DISCONNECT_COMPLETE is set, now or earlier in the run, the connection is out of fd_map and
      no step of the net thread touches it any more. */
  lemma {:induction false} CompleteIsFinal(states: seq<State>, acts: seq<Action>, m: nat, n: nat)
    requires Run(states, acts) && m <= n < |states| && states[m].complete
    ensures states[n].complete && !states[n].inFdMap
    ensures n < |acts| ==> !NetTouches(acts[n])
    decreases n
  {
    hide Enabled, Step, NetTouches;
    RunsKeep(states, acts, n);
    if m < n {
      CompleteIsFinal(states, acts, m, n - 1);
      RunsKeep(states, acts, n - 1);
      CompleteStep(states[n - 1], acts[n - 1]);
    }
    if n < |acts| {
      CompleteStep(states[n], acts[n]);
    }
  }

  /** The wait misses no notification: while the user thread waits without having been notified, the
      removal has not notified yet, and once it is over the user thread is not left waiting. */
  lemma NoMissedNotification(states: seq<State>, acts: seq<Action>, n: nat)
    requires Run(states, acts) && n < |states|
    ensures var s := states[n];
            && (s.user == Waiting(false) ==> !s.globalThreadDone && !Leaving(s.net))
            && (s.globalThreadDone && s.user.Waiting? ==> s.user.notified)
            && (s.globalThreadDone && s.user.Waiting? && !NetHolds(s.net) ==>
                  Enabled(s, WakeUp) && Step(Step(s, WakeUp), Test).complete)
  {
    RunsKeep(states, acts, n);
  }

  // ---- The flags on the way ----

  /** How far the user thread has come in disconnect. */
  function Progress(user: UserAt): (r: nat)
  {
    match user
    case SettingUp => 0
    case Running => 0
    case RunningLocked => 0
    case Started => 1
    case Closed => 2
    case ReadsDone => 3
    case Checking => 3
    case Waiting(_) => 3
    case Completed => 4
    case Returned => 4
  }

  /** The flags are set in order, each by the step that has its name. */
  predicate FlagsMatch(s: State)
  {
    && s.started == (Progress(s.user) >= 1)
    && (Progress(s.user) >= 2 ==> s.printAndClose)
    && s.readsDone == (Progress(s.user) >= 3)
    && s.complete == (Progress(s.user) >= 4)
  }

  lemma FlagsStep(s: State, a: Action)
    requires FlagsMatch(s) && Enabled(s, a)
    ensures FlagsMatch(Step(s, a)) && Progress(s.user) <= Progress(Step(s, a).user)
    ensures Progress(Step(s, a).user) >= 1 && Progress(s.user) == 0 ==> a.Disconnect? || a.SetupFails?
  {
  }

  /** A connection is complete only after disconnect was entered, the socket shut down and reading given up;
      and no flag is ever taken back. */
  lemma {:induction false} FlagsInOrder(states: seq<State>, acts: seq<Action>, m: nat, n: nat)
    requires Run(states, acts) && m <= n < |states|
    ensures FlagsMatch(states[n])
    ensures (states[m].started ==> states[n].started) && (states[m].readsDone ==> states[n].readsDone)
    ensures states[n].complete ==> states[n].readsDone && states[n].printAndClose && states[n].started
    decreases n
  {
    hide Enabled, Step;
    if n > 0 {
      FlagsInOrder(states, acts, if m < n then m else n - 1, n - 1);
      FlagsStep(states[n - 1], acts[n - 1]);
    }
  }
}
