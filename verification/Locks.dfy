/**
 The three mutexes of the library as a step relation over any number of threads: mex_dev_com_manager around
 manager operations, send_receive_mtx around a run, mex_dev_com around each call on a device.
 A lock_guard releases on every exit, so a thread is the list of what it acquires, does and releases.
 */
module Locks {

  datatype Mutex = MANAGER | SEND_RECEIVE | DEVICE_COM

  function Rank(m: Mutex): nat {
    match m
    case MANAGER => 0
    case SEND_RECEIVE => 1
    case DEVICE_COM => 2
  }

  /** Device::send and Device::recv as called by the transaction tx. */
  datatype Event = SendEvent(tx: nat) | RecvEvent(tx: nat)

  datatype Action = Acquire(mutex: Mutex) | Release(mutex: Mutex) | Emit(event: Event)

  type Program = seq<Action>

  // ---------- What the library's operations do ----------

  /**
   A call made on a device: connect, disconnect, could_be_enumerated and the delay setters take
   mex_dev_com once; a run sends and receives under send_receive_mtx, or throws at once without a device.
   */
  datatype Call = DeviceCall | RunWithoutDevice | RunCall(tx: nat, receives: nat)

  /** A command runs outside the manager's mutex; every other manager operation makes its calls inside it. */
  datatype Operation = Unlocked(call: Call) | Managed(calls: seq<Call>)

  function Guarded(e: Event): Program {
    [Acquire(DEVICE_COM), Emit(e), Release(DEVICE_COM)]
  }

  function Receives(tx: nat, n: nat): Program {
    if n == 0 then [] else Guarded(RecvEvent(tx)) + Receives(tx, n - 1)
  }

  function CallProgram(c: Call): Program {
    match c
    case DeviceCall => [Acquire(DEVICE_COM), Release(DEVICE_COM)]
    case RunWithoutDevice => [Acquire(SEND_RECEIVE), Release(SEND_RECEIVE)]
    case RunCall(tx, n) =>
      [Acquire(SEND_RECEIVE)] + (Guarded(SendEvent(tx)) + (Receives(tx, n) + [Release(SEND_RECEIVE)]))
  }

  function CallsProgram(calls: seq<Call>): Program {
    if calls == [] then [] else CallProgram(calls[0]) + CallsProgram(calls[1..])
  }

  function OperationProgram(o: Operation): Program {
    match o
    case Unlocked(c) => CallProgram(c)
    case Managed(calls) => [Acquire(MANAGER)] + (CallsProgram(calls) + [Release(MANAGER)])
  }

  function ThreadProgram(ops: seq<Operation>): Program {
    if ops == [] then [] else OperationProgram(ops[0]) + ThreadProgram(ops[1..])
  }

  // ---------- What a body of the library does, as it is traced ----------

  /** The last thing p has done to the mutex was to acquire it. */
  predicate Holds(p: Program, m: Mutex)
    decreases |p|
  {
    p != [] && var last := p[|p| - 1]; last == Acquire(m) || (last != Release(m) && Holds(p[..|p| - 1], m))
  }

  lemma HoldsStep(p: Program, a: Action, m: Mutex)
    ensures Holds(p + [a], m) <==> a == Acquire(m) || (a != Release(m) && Holds(p, m))
  {
    assert (p + [a])[..|p|] == p;
  }

  /** q continues p by calls on devices. */
  ghost predicate Calling(p: Program, q: Program) {
    exists calls :: q == p + CallsProgram(calls)
  }

  /** q continues p by calls made with the manager's mutex held. */
  ghost predicate Managing(p: Program, q: Program) {
    Calling(p + [Acquire(MANAGER)], q)
  }

  /** q continues p by whole operations. */
  ghost predicate Operating(p: Program, q: Program) {
    exists ops :: q == p + ThreadProgram(ops)
  }

  lemma Associative(p: Program, q: Program, r: Program)
    ensures (p + q) + r == p + (q + r)
  {
  }

  lemma {:induction false} CallsAppend(a: seq<Call>, b: seq<Call>)
    ensures CallsProgram(a + b) == CallsProgram(a) + CallsProgram(b)
  {
    if a == [] {
      assert a + b == b;
    } else {
      assert (a + b)[1..] == a[1..] + b;
      CallsAppend(a[1..], b);
    }
  }

  lemma {:induction false} ThreadAppend(a: seq<Operation>, b: seq<Operation>)
    ensures ThreadProgram(a + b) == ThreadProgram(a) + ThreadProgram(b)
  {
    if a == [] {
      assert a + b == b;
    } else {
      assert (a + b)[1..] == a[1..] + b;
      ThreadAppend(a[1..], b);
    }
  }

  lemma NoCall(p: Program)
    ensures Calling(p, p)
  {
    assert p == p + CallsProgram([]);
  }

  lemma OneCall(p: Program, c: Call)
    ensures Calling(p, p + CallProgram(c))
  {
    assert CallsProgram([c]) == CallProgram(c) + CallsProgram([]);
    assert p + CallProgram(c) == p + CallsProgram([c]);
  }

  lemma MoreCalls(p: Program, q: Program, r: Program)
    requires Calling(p, q) && Calling(q, r)
    ensures Calling(p, r)
  {
    hide CallsProgram;
    var a :| q == p + CallsProgram(a);
    var b :| r == q + CallsProgram(b);
    CallsAppend(a, b);
    Associative(p, CallsProgram(a), CallsProgram(b));
  }

  /** Calling is a preorder, and more can be called while the manager's mutex is held. */
  lemma CallingOrder()
    ensures forall p :: Calling(p, p)
    ensures forall p, q, r :: Calling(p, q) && Calling(q, r) ==> Calling(p, r)
    ensures forall p, q, r :: Managing(p, q) && Calling(q, r) ==> Managing(p, r)
  {
    forall p, q, r | Managing(p, q) && Calling(q, r) ensures Managing(p, r) {
      MoreCalls(p + [Acquire(MANAGER)], q, r);
    }
    forall p ensures Calling(p, p) {
      NoCall(p);
    }
    forall p, q, r | Calling(p, q) && Calling(q, r) ensures Calling(p, r) {
      MoreCalls(p, q, r);
    }
  }

  lemma NoOperation(p: Program)
    ensures Operating(p, p)
  {
    assert p == p + ThreadProgram([]);
  }

  lemma OneOperation(p: Program, o: Operation)
    ensures Operating(p, p + OperationProgram(o))
  {
    assert ThreadProgram([o]) == OperationProgram(o) + ThreadProgram([]);
    assert p + OperationProgram(o) == p + ThreadProgram([o]);
  }

  lemma MoreOperations(p: Program, q: Program, r: Program)
    requires Operating(p, q) && Operating(q, r)
    ensures Operating(p, r)
  {
    hide ThreadProgram;
    var a :| q == p + ThreadProgram(a);
    var b :| r == q + ThreadProgram(b);
    ThreadAppend(a, b);
    Associative(p, ThreadProgram(a), ThreadProgram(b));
  }

  /** Calls made with the manager's mutex held are an operation. */
  lemma ManagedOperation(p: Program, q: Program)
    requires Managing(p, q)
    ensures Operating(p, q + [Release(MANAGER)])
  {
    hide CallsProgram, Operating;
    var calls :| q == p + [Acquire(MANAGER)] + CallsProgram(calls);
    OneOperation(p, Managed(calls));
    Associative(p + [Acquire(MANAGER)], CallsProgram(calls), [Release(MANAGER)]);
    Associative(p, [Acquire(MANAGER)], CallsProgram(calls) + [Release(MANAGER)]);
  }

  lemma OneUnlocked(p: Program, c: Call)
    ensures Operating(p, p + CallProgram(c))
  {
    OneOperation(p, Unlocked(c));
  }

  /** Calls made without it are one each. */
  lemma {:induction false} UnlockedOperations(p: Program, calls: seq<Call>)
    ensures Operating(p, p + CallsProgram(calls))
    decreases |calls|
  {
    hide Operating, CallProgram;
    if calls == [] {
      NoOperation(p);
      assert p + CallsProgram(calls) == p;
    } else {
      var q := p + CallProgram(calls[0]);
      OneOperation(p, Unlocked(calls[0]));
      UnlockedOperations(q, calls[1..]);
      Associative(p, CallProgram(calls[0]), CallsProgram(calls[1..]));
      MoreOperations(p, q, p + CallsProgram(calls));
    }
  }

  lemma UnlockedCalls(p: Program, q: Program)
    requires Calling(p, q)
    ensures Operating(p, q)
  {
    var calls :| q == p + CallsProgram(calls);
    UnlockedOperations(p, calls);
  }

  predicate Touches(p: Program, m: Mutex) {
    Acquire(m) in p || Release(m) in p
  }

  lemma {:induction false} HoldsOn(p: Program, q: Program, m: Mutex)
    requires Holds(p, m) && !Touches(q, m)
    ensures Holds(p + q, m)
    decreases |q|
  {
    if q == [] {
      assert p + q == p;
    } else {
      var n := |q| - 1;
      HoldsOn(p, q[..n], m);
      HoldsStep(p + q[..n], q[n], m);
      assert p + q == p + q[..n] + [q[n]];
    }
  }

  lemma {:induction false} ReceivesTouch(tx: nat, n: nat)
    ensures !Touches(Receives(tx, n), MANAGER)
  {
    if n > 0 {
      ReceivesTouch(tx, n - 1);
    }
  }

  lemma {:induction false} CallsTouch(calls: seq<Call>)
    ensures !Touches(CallsProgram(calls), MANAGER)
  {
    if calls != [] {
      CallsTouch(calls[1..]);
      match calls[0]
      case RunCall(tx, n) => ReceivesTouch(tx, n);
      case _ =>
    }
  }

  /** Whatever calls are made, the manager's mutex stays held until it is given up. */
  lemma ManagingHolds(p: Program, q: Program)
    requires Managing(p, q)
    ensures Holds(q, MANAGER)
  {
    hide CallsProgram, Touches;
    var calls :| q == p + [Acquire(MANAGER)] + CallsProgram(calls);
    CallsTouch(calls);
    HoldsStep(p, Acquire(MANAGER), MANAGER);
    HoldsOn(p + [Acquire(MANAGER)], CallsProgram(calls), MANAGER);
  }

  /** A managed operation holds the manager's mutex from its first action to its last. */
  lemma ManagedThroughout(calls: seq<Call>, k: nat)
    requires 0 < k < |OperationProgram(Managed(calls))|
    ensures Holds(OperationProgram(Managed(calls))[..k], MANAGER)
    ensures var p := OperationProgram(Managed(calls)); p[0] == Acquire(MANAGER) && p[|p| - 1] == Release(MANAGER)
  {
    var p, q := OperationProgram(Managed(calls)), CallsProgram(calls);
    CallsTouch(calls);
    assert p == [Acquire(MANAGER)] + q + [Release(MANAGER)];
    assert p[..k] == [Acquire(MANAGER)] + q[..k - 1];
    assert forall a :: a in q[..k - 1] ==> a in q;
    HoldsStep([], Acquire(MANAGER), MANAGER);
    assert [] + [Acquire(MANAGER)] == [Acquire(MANAGER)];
    HoldsOn([Acquire(MANAGER)], q[..k - 1], MANAGER);
  }

  /** A run that has sent and received n times so far. */
  function RunSoFar(p: Program, tx: nat, n: nat): Program {
    p + [Acquire(SEND_RECEIVE)] + Guarded(SendEvent(tx)) + Receives(tx, n)
  }

  lemma RunSends(p: Program, tx: nat)
    ensures p + [Acquire(SEND_RECEIVE)] + Guarded(SendEvent(tx)) == RunSoFar(p, tx, 0)
  {
  }

  lemma RunReceives(p: Program, tx: nat, n: nat)
    ensures RunSoFar(p, tx, n) + Guarded(RecvEvent(tx)) == RunSoFar(p, tx, n + 1)
  {
    ReceivesStep(tx, n);
    hide Receives, Guarded;
    Associative(p + [Acquire(SEND_RECEIVE)] + Guarded(SendEvent(tx)), Receives(tx, n), Guarded(RecvEvent(tx)));
  }

  lemma RunEnds(p: Program, tx: nat, n: nat)
    ensures RunSoFar(p, tx, n) + [Release(SEND_RECEIVE)] == p + CallProgram(RunCall(tx, n))
  {
    hide Receives, Guarded;
    var send, receives := Guarded(SendEvent(tx)), Receives(tx, n);
    Associative(p + [Acquire(SEND_RECEIVE)] + send, receives, [Release(SEND_RECEIVE)]);
    Associative(p + [Acquire(SEND_RECEIVE)], send, receives + [Release(SEND_RECEIVE)]);
    Associative(p, [Acquire(SEND_RECEIVE)], send + (receives + [Release(SEND_RECEIVE)]));
  }

  lemma {:induction false} ReceivesStep(tx: nat, n: nat)
    ensures Receives(tx, n) + Guarded(RecvEvent(tx)) == Receives(tx, n + 1)
  {
    if n == 0 {
      assert Receives(tx, 1) == Guarded(RecvEvent(tx)) + Receives(tx, 0);
    } else {
      ReceivesStep(tx, n - 1);
      assert Receives(tx, n) + Guarded(RecvEvent(tx))
          == Guarded(RecvEvent(tx)) + (Receives(tx, n - 1) + Guarded(RecvEvent(tx)));
    }
  }

  // ---------- Interleavings ----------

  datatype State = State(threads: seq<Program>, holder: map<Mutex, nat>, log: seq<Event>)

  /** Thread i can take its next step. */
  predicate Enabled(s: State, i: nat) {
    && i < |s.threads|
    && s.threads[i] != []
    && match s.threads[i][0]
       case Acquire(m) => m !in s.holder
       case Release(m) => m in s.holder && s.holder[m] == i
       case Emit(_) => true
  }

  function Next(s: State, i: nat): State
    requires Enabled(s, i)
  {
    var threads := s.threads[i := s.threads[i][1..]];
    match s.threads[i][0]
    case Acquire(m) => State(threads, s.holder[m := i], s.log)
    case Release(m) => State(threads, s.holder - {m}, s.log)
    case Emit(e) => State(threads, s.holder, s.log + [e])
  }

  function Initial(work: seq<seq<Operation>>): State {
    State(seq(|work|, i requires 0 <= i < |work| => ThreadProgram(work[i])), map[], [])
  }

  /** schedule[k] is the thread that takes the k-th step. */
  predicate IsSchedule(s: State, schedule: seq<nat>)
    decreases |schedule|
  {
    schedule == [] || (Enabled(s, schedule[0]) && IsSchedule(Next(s, schedule[0]), schedule[1..]))
  }

  function After(s: State, schedule: seq<nat>): State
    requires IsSchedule(s, schedule)
    decreases |schedule|
  {
    if schedule == [] then s else After(Next(s, schedule[0]), schedule[1..])
  }

  predicate AllDone(s: State) {
    forall i :: 0 <= i < |s.threads| ==> s.threads[i] == []
  }

  // ---------- The locking discipline ----------

  /** Mutexes are taken in rank order, never twice, and all released; events happen inside both inner ones. */
  predicate Disciplined(p: Program, held: set<Mutex>) {
    if p == [] then held == {}
    else
      match p[0]
      case Acquire(m) => (forall h :: h in held ==> Rank(h) < Rank(m)) && Disciplined(p[1..], held + {m})
      case Release(m) => m in held && Disciplined(p[1..], held - {m})
      case Emit(_) => SEND_RECEIVE in held && DEVICE_COM in held && Disciplined(p[1..], held)
  }

  lemma {:induction false} ReceivesDisciplined(tx: nat, n: nat, rest: Program, held: set<Mutex>)
    requires SEND_RECEIVE in held && DEVICE_COM !in held && Disciplined(rest, held)
    ensures Disciplined(Receives(tx, n) + rest, held)
  {
    if n == 0 {
      assert Receives(tx, n) + rest == rest;
    } else {
      ReceivesDisciplined(tx, n - 1, rest, held);
      GuardedDisciplined(RecvEvent(tx), Receives(tx, n - 1) + rest, held);
      assert Receives(tx, n) + rest == Guarded(RecvEvent(tx)) + (Receives(tx, n - 1) + rest);
    }
  }

  lemma AcquireDisciplined(m: Mutex, rest: Program, held: set<Mutex>)
    requires (forall h :: h in held ==> Rank(h) < Rank(m)) && Disciplined(rest, held + {m})
    ensures Disciplined([Acquire(m)] + rest, held)
  {
    assert ([Acquire(m)] + rest)[1..] == rest;
  }

  lemma ReleaseDisciplined(m: Mutex, rest: Program, held: set<Mutex>)
    requires m !in held && Disciplined(rest, held)
    ensures Disciplined([Release(m)] + rest, held + {m})
  {
    assert ([Release(m)] + rest)[1..] == rest;
    assert held + {m} - {m} == held;
  }

  lemma GuardedDisciplined(e: Event, rest: Program, held: set<Mutex>)
    requires SEND_RECEIVE in held && DEVICE_COM !in held && Disciplined(rest, held)
    ensures Disciplined(Guarded(e) + rest, held)
  {
    ReleaseDisciplined(DEVICE_COM, rest, held);
    var p := [Emit(e)] + ([Release(DEVICE_COM)] + rest);
    assert p[1..] == [Release(DEVICE_COM)] + rest;
    AcquireDisciplined(DEVICE_COM, p, held);
    assert Guarded(e) + rest == [Acquire(DEVICE_COM)] + p;
  }

  lemma CallDisciplined(c: Call, rest: Program, held: set<Mutex>)
    requires held <= {MANAGER} && Disciplined(rest, held)
    ensures Disciplined(CallProgram(c) + rest, held)
  {
    hide Disciplined;
    match c
    case RunCall(tx, n) => RunDisciplined(tx, n, rest, held);
    case RunWithoutDevice =>
      ReleaseDisciplined(SEND_RECEIVE, rest, held);
      AcquireDisciplined(SEND_RECEIVE, [Release(SEND_RECEIVE)] + rest, held);
      assert CallProgram(c) + rest == [Acquire(SEND_RECEIVE)] + ([Release(SEND_RECEIVE)] + rest);
    case DeviceCall =>
      ReleaseDisciplined(DEVICE_COM, rest, held);
      AcquireDisciplined(DEVICE_COM, [Release(DEVICE_COM)] + rest, held);
      assert CallProgram(c) + rest == [Acquire(DEVICE_COM)] + ([Release(DEVICE_COM)] + rest);
  }

  lemma RunDisciplined(tx: nat, n: nat, rest: Program, held: set<Mutex>)
    requires held <= {MANAGER} && Disciplined(rest, held)
    ensures Disciplined(CallProgram(RunCall(tx, n)) + rest, held)
  {
    hide Disciplined;
    var inner := held + {SEND_RECEIVE};
    var tail := [Release(SEND_RECEIVE)] + rest;
    ReleaseDisciplined(SEND_RECEIVE, rest, held);
    ReceivesDisciplined(tx, n, tail, inner);
    GuardedDisciplined(SendEvent(tx), Receives(tx, n) + tail, inner);
    var body := Guarded(SendEvent(tx)) + (Receives(tx, n) + tail);
    AcquireDisciplined(SEND_RECEIVE, body, held);
    assert CallProgram(RunCall(tx, n)) + rest == [Acquire(SEND_RECEIVE)] + body;
  }

  lemma {:induction false} CallsDisciplined(calls: seq<Call>, rest: Program, held: set<Mutex>)
    requires held <= {MANAGER} && Disciplined(rest, held)
    ensures Disciplined(CallsProgram(calls) + rest, held)
  {
    if calls == [] {
      assert CallsProgram(calls) + rest == rest;
    } else {
      CallsDisciplined(calls[1..], rest, held);
      CallDisciplined(calls[0], CallsProgram(calls[1..]) + rest, held);
      assert CallsProgram(calls) + rest == CallProgram(calls[0]) + (CallsProgram(calls[1..]) + rest);
    }
  }

  /** Every operation of the library follows the discipline. */
  lemma {:induction false} ThreadDisciplined(ops: seq<Operation>)
    ensures Disciplined(ThreadProgram(ops), {})
  {
    if ops != [] {
      ThreadDisciplined(ops[1..]);
      OperationDisciplined(ops[0], ThreadProgram(ops[1..]));
    }
  }

  lemma OperationDisciplined(o: Operation, rest: Program)
    requires Disciplined(rest, {})
    ensures Disciplined(OperationProgram(o) + rest, {})
  {
    hide Disciplined;
    match o
    case Unlocked(c) => CallDisciplined(c, rest, {});
    case Managed(calls) =>
      var tail := [Release(MANAGER)] + rest;
      ReleaseDisciplined(MANAGER, rest, {});
      assert {} + {MANAGER} == {MANAGER};
      CallsDisciplined(calls, tail, {MANAGER});
      AcquireDisciplined(MANAGER, CallsProgram(calls) + tail, {});
      assert OperationProgram(o) + rest == [Acquire(MANAGER)] + (CallsProgram(calls) + tail);
  }

  // ---------- Deadlock freedom ----------

  function Held(s: State, i: nat): set<Mutex> {
    set m | m in s.holder && s.holder[m] == i
  }

  predicate Ordered(s: State) {
    && (forall m :: m in s.holder ==> s.holder[m] < |s.threads|)
    && (forall i :: 0 <= i < |s.threads| ==> Disciplined(s.threads[i], Held(s, i)))
  }

  lemma InitialOrdered(work: seq<seq<Operation>>)
    ensures Ordered(Initial(work))
  {
    var s := Initial(work);
    forall i | 0 <= i < |s.threads| ensures Disciplined(s.threads[i], Held(s, i)) {
      ThreadDisciplined(work[i]);
      assert Held(s, i) == {};
    }
  }

  lemma NextOrdered(s: State, i: nat)
    requires Ordered(s) && Enabled(s, i)
    ensures Ordered(Next(s, i))
  {
    var s' := Next(s, i);
    forall j | 0 <= j < |s'.threads| ensures Disciplined(s'.threads[j], Held(s', j)) {
      match s.threads[i][0]
      case Acquire(m) => assert Held(s', j) == if j == i then Held(s, j) + {m} else Held(s, j);
      case Release(m) => assert Held(s', j) == if j == i then Held(s, j) - {m} else Held(s, j);
      case Emit(_) => assert Held(s', j) == Held(s, j);
    }
  }

  /** Whoever holds a mutex is enabled, or waits for one of higher rank whose holder is. */
  lemma {:induction false} HolderLeadsToStep(s: State, m: Mutex) returns (i: nat)
    requires Ordered(s) && m in s.holder
    ensures Enabled(s, i)
    decreases 2 - Rank(m)
  {
    i := s.holder[m];
    assert m in Held(s, i);
    assert Disciplined(s.threads[i], Held(s, i));
    match s.threads[i][0]
    case Acquire(m') =>
      if m' in s.holder {
        i := HolderLeadsToStep(s, m');
      }
    case Release(m') => assert m' in Held(s, i);
    case Emit(_) =>
  }

  /** As long as some thread has work left, some thread can take a step. */
  lemma NotStuck(s: State) returns (i: nat)
    requires Ordered(s) && !AllDone(s)
    ensures Enabled(s, i)
  {
    i :| i < |s.threads| && s.threads[i] != [];
    assert Disciplined(s.threads[i], Held(s, i));
    match s.threads[i][0]
    case Acquire(m) =>
      if m in s.holder {
        i := HolderLeadsToStep(s, m);
      }
    case Release(m) => assert m in Held(s, i);
    case Emit(_) =>
  }

  function Work(threads: seq<Program>): nat {
    if threads == [] then 0 else |threads[0]| + Work(threads[1..])
  }

  lemma {:induction false} WorkDecreases(threads: seq<Program>, i: nat)
    requires i < |threads| && threads[i] != []
    ensures Work(threads[i := threads[i][1..]]) == Work(threads) - 1
  {
    var t' := threads[i := threads[i][1..]];
    if i == 0 {
      assert t'[1..] == threads[1..];
    } else {
      assert t'[1..] == threads[1..][i - 1 := threads[i][1..]];
      WorkDecreases(threads[1..], i - 1);
    }
  }

  /**
   Deadlock freedom: from any state any interleaving has reached, some thread can go on unless all are done;
   and no interleaving goes on for ever.
   */
  lemma {:induction false} DeadlockFree(s: State, schedule: seq<nat>)
    requires Ordered(s) && IsSchedule(s, schedule)
    ensures var s' := After(s, schedule);
            && Ordered(s')
            && (AllDone(s') || exists i: nat :: Enabled(s', i))
            && Work(s'.threads) + |schedule| == Work(s.threads)
    decreases |schedule|
  {
    if schedule == [] {
      if !AllDone(s) {
        var i := NotStuck(s);
      }
    } else {
      NextOrdered(s, schedule[0]);
      WorkDecreases(s.threads, schedule[0]);
      DeadlockFree(Next(s, schedule[0]), schedule[1..]);
    }
  }

  /** A thread's actions are whole operations of the library. */
  ghost predicate IsThread(p: Program) {
    Operating([], p)
  }

  /** For any threads that run operations of the library, in every interleaving. */
  lemma LibraryDeadlockFree(threads: seq<Program>, schedule: seq<nat>)
    requires forall i :: 0 <= i < |threads| ==> IsThread(threads[i])
    requires IsSchedule(State(threads, map[], []), schedule)
    ensures var s := After(State(threads, map[], []), schedule);
            && (AllDone(s) || exists i: nat :: Enabled(s, i))
            && |schedule| <= Work(threads)
  {
    var s := State(threads, map[], []);
    forall i | 0 <= i < |threads| ensures Disciplined(threads[i], Held(s, i)) {
      var ops :| threads[i] == [] + ThreadProgram(ops);
      assert threads[i] == ThreadProgram(ops);
      ThreadDisciplined(ops);
      assert Held(s, i) == {};
    }
    DeadlockFree(s, schedule);
  }
}
