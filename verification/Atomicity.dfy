/** Transactions of different threads do not interleave: the log of send and recv calls, in every interleaving. */
module Atomicity {
  import opened Locks

  // ---------- Transactions as blocks of events ----------

  function RecvEvents(tx: nat, n: nat): seq<Event> {
    if n == 0 then [] else [RecvEvent(tx)] + RecvEvents(tx, n - 1)
  }

  /** The calls on the device one run makes. */
  function RunEvents(c: Call): multiset<seq<Event>> {
    match c
    case DeviceCall => multiset{}
    case RunWithoutDevice => multiset{[]}
    case RunCall(tx, n) => multiset{[SendEvent(tx)] + RecvEvents(tx, n)}
  }

  function CallsEvents(calls: seq<Call>): multiset<seq<Event>> {
    if calls == [] then multiset{} else RunEvents(calls[0]) + CallsEvents(calls[1..])
  }

  function OperationRuns(o: Operation): multiset<seq<Event>> {
    match o
    case Unlocked(c) => RunEvents(c)
    case Managed(calls) => CallsEvents(calls)
  }

  function ThreadRuns(ops: seq<Operation>): multiset<seq<Event>> {
    if ops == [] then multiset{} else OperationRuns(ops[0]) + ThreadRuns(ops[1..])
  }

  /** All runs of all threads. */
  function AllRuns(work: seq<seq<Operation>>): multiset<seq<Event>> {
    if work == [] then multiset{} else ThreadRuns(work[0]) + AllRuns(work[1..])
  }

  function Flatten(blocks: seq<seq<Event>>): seq<Event> {
    if blocks == [] then [] else Flatten(blocks[..|blocks| - 1]) + blocks[|blocks| - 1]
  }

  // ---------- The same blocks read off a program ----------

  /** The events until send_receive_mtx is released. */
  function Upcoming(p: Program): seq<Event> {
    if p == [] || p[0] == Release(SEND_RECEIVE) then []
    else if p[0].Emit? then [p[0].event] + Upcoming(p[1..])
    else Upcoming(p[1..])
  }

  /** One block for each time send_receive_mtx will be acquired. */
  function Blocks(p: Program): multiset<seq<Event>> {
    if p == [] then multiset{}
    else if p[0] == Acquire(SEND_RECEIVE) then multiset{Upcoming(p[1..])} + Blocks(p[1..])
    else Blocks(p[1..])
  }

  lemma BlocksStep(a: Action, p: Program)
    ensures Blocks([a] + p) == if a == Acquire(SEND_RECEIVE) then multiset{Upcoming(p)} + Blocks(p) else Blocks(p)
    ensures Upcoming([a] + p) ==
            if a == Release(SEND_RECEIVE) then []
            else if a.Emit? then [a.event] + Upcoming(p)
            else Upcoming(p)
  {
    assert ([a] + p)[1..] == p;
  }

  lemma GuardedBlocks(e: Event, rest: Program)
    ensures Blocks(Guarded(e) + rest) == Blocks(rest)
    ensures Upcoming(Guarded(e) + rest) == [e] + Upcoming(rest)
  {
    hide Blocks, Upcoming;
    var r := [Release(DEVICE_COM)] + rest;
    BlocksStep(Release(DEVICE_COM), rest);
    BlocksStep(Emit(e), r);
    BlocksStep(Acquire(DEVICE_COM), [Emit(e)] + r);
    assert Guarded(e) + rest == [Acquire(DEVICE_COM)] + ([Emit(e)] + r);
  }

  lemma {:induction false} ReceivesBlocks(tx: nat, n: nat, rest: Program)
    ensures Blocks(Receives(tx, n) + rest) == Blocks(rest)
    ensures Upcoming(Receives(tx, n) + rest) == RecvEvents(tx, n) + Upcoming(rest)
  {
    hide Blocks, Upcoming;
    if n == 0 {
      assert Receives(tx, n) + rest == rest;
    } else {
      ReceivesBlocks(tx, n - 1, rest);
      GuardedBlocks(RecvEvent(tx), Receives(tx, n - 1) + rest);
      assert Receives(tx, n) + rest == Guarded(RecvEvent(tx)) + (Receives(tx, n - 1) + rest);
    }
  }

  lemma CallBlocks(c: Call, rest: Program)
    ensures Blocks(CallProgram(c) + rest) == RunEvents(c) + Blocks(rest)
  {
    hide Blocks, Upcoming;
    match c
    case DeviceCall =>
      BlocksStep(Release(DEVICE_COM), rest);
      BlocksStep(Acquire(DEVICE_COM), [Release(DEVICE_COM)] + rest);
      assert CallProgram(c) + rest == [Acquire(DEVICE_COM)] + ([Release(DEVICE_COM)] + rest);
    case RunWithoutDevice =>
      BlocksStep(Release(SEND_RECEIVE), rest);
      BlocksStep(Acquire(SEND_RECEIVE), [Release(SEND_RECEIVE)] + rest);
      assert CallProgram(c) + rest == [Acquire(SEND_RECEIVE)] + ([Release(SEND_RECEIVE)] + rest);
    case RunCall(tx, n) => RunBlocks(tx, n, rest);
  }

  lemma RunBlocks(tx: nat, n: nat, rest: Program)
    ensures Blocks(CallProgram(RunCall(tx, n)) + rest) == RunEvents(RunCall(tx, n)) + Blocks(rest)
  {
    hide Blocks, Upcoming, Guarded, Receives;
    var tail := [Release(SEND_RECEIVE)] + rest;
    var body := Guarded(SendEvent(tx)) + (Receives(tx, n) + tail);
    assert CallProgram(RunCall(tx, n)) + rest == [Acquire(SEND_RECEIVE)] + body;
    hide CallProgram;
    BlocksStep(Release(SEND_RECEIVE), rest);
    ReceivesBlocks(tx, n, tail);
    GuardedBlocks(SendEvent(tx), Receives(tx, n) + tail);
    BlocksStep(Acquire(SEND_RECEIVE), body);
    assert RecvEvents(tx, n) + [] == RecvEvents(tx, n);
  }

  lemma {:induction false} CallsBlocks(calls: seq<Call>, rest: Program)
    ensures Blocks(CallsProgram(calls) + rest) == CallsEvents(calls) + Blocks(rest)
  {
    hide Blocks;
    if calls == [] {
      assert CallsProgram(calls) + rest == rest;
    } else {
      CallsBlocks(calls[1..], rest);
      CallBlocks(calls[0], CallsProgram(calls[1..]) + rest);
      assert CallsProgram(calls) + rest == CallProgram(calls[0]) + (CallsProgram(calls[1..]) + rest);
      assert CallsEvents(calls) + Blocks(rest) == RunEvents(calls[0]) + (CallsEvents(calls[1..]) + Blocks(rest));
    }
  }

  lemma {:induction false} ThreadBlocks(ops: seq<Operation>)
    ensures Blocks(ThreadProgram(ops)) == ThreadRuns(ops)
  {
    if ops != [] {
      ThreadBlocks(ops[1..]);
      OperationBlocks(ops[0], ThreadProgram(ops[1..]));
    }
  }

  lemma OperationBlocks(o: Operation, rest: Program)
    ensures Blocks(OperationProgram(o) + rest) == OperationRuns(o) + Blocks(rest)
  {
    hide Blocks, Upcoming;
    match o
    case Unlocked(c) => CallBlocks(c, rest);
    case Managed(calls) =>
      var tail := [Release(MANAGER)] + rest;
      BlocksStep(Release(MANAGER), rest);
      CallsBlocks(calls, tail);
      BlocksStep(Acquire(MANAGER), CallsProgram(calls) + tail);
      assert OperationProgram(o) + rest == [Acquire(MANAGER)] + (CallsProgram(calls) + tail);
  }

  // ---------- The invariant ----------

  /** The blocks still to be begun by any thread. */
  function Outstanding(threads: seq<Program>): multiset<seq<Event>> {
    if threads == [] then multiset{} else Blocks(threads[0]) + Outstanding(threads[1..])
  }

  lemma Cancel(x: multiset<seq<Event>>, y: multiset<seq<Event>>, z: multiset<seq<Event>>)
    requires x + y == z + y
    ensures x == z
  {
    forall b ensures x[b] == z[b] {
      assert (x + y)[b] == (z + y)[b];
    }
  }

  lemma {:induction false} OutstandingUpdate(threads: seq<Program>, i: nat, p: Program)
    requires i < |threads|
    ensures Outstanding(threads) + Blocks(p) ==
            Outstanding(threads[i := p]) + Blocks(threads[i])
  {
    hide Blocks;
    var t' := threads[i := p];
    if i == 0 {
      assert t'[1..] == threads[1..];
      var a, b, o := Blocks(threads[0]), Blocks(p), Outstanding(threads[1..]);
      assert a + o + b == b + o + a;
    } else {
      assert t'[1..] == threads[1..][i - 1 := p];
      OutstandingUpdate(threads[1..], i - 1, p);
      var b, o := Blocks(threads[0]), Outstanding(threads[1..]);
      assert b + o + Blocks(p) == b + (o + Blocks(p));
      assert b + Outstanding(t'[1..]) + Blocks(threads[i]) == b + (Outstanding(t'[1..]) + Blocks(threads[i]));
    }
  }

  lemma {:induction false} OutstandingInitially(work: seq<seq<Operation>>)
    ensures Outstanding(Initial(work).threads) == AllRuns(work)
  {
    if work != [] {
      ThreadBlocks(work[0]);
      OutstandingInitially(work[1..]);
      assert Initial(work).threads[1..] == Initial(work[1..]).threads;
    }
  }

  /** The block of the run in progress, as far as one is. */
  function InProgress(s: State, current: seq<Event>): multiset<seq<Event>>
    requires Ordered(s)
  {
    if SEND_RECEIVE in s.holder then multiset{current + Upcoming(s.threads[s.holder[SEND_RECEIVE]])} else multiset{}
  }

  /** The log is whole runs followed by the part of one that has been executed; no run is lost or invented. */
  predicate Atomic(s: State, runs: multiset<seq<Event>>, done: seq<seq<Event>>, current: seq<Event>) {
    && Ordered(s)
    && s.log == Flatten(done) + current
    && (SEND_RECEIVE !in s.holder ==> current == [])
    && multiset(done) + (InProgress(s, current) + Outstanding(s.threads)) == runs
  }

  /** What the first action of a program is to the blocks of the rest. */
  lemma BlocksOfRest(p: Program)
    requires p != []
    ensures Blocks(p) == if p[0] == Acquire(SEND_RECEIVE) then multiset{Upcoming(p[1..])} + Blocks(p[1..]) else Blocks(p[1..])
    ensures Upcoming(p) == if p[0] == Release(SEND_RECEIVE) then []
                           else if p[0].Emit? then [p[0].event] + Upcoming(p[1..])
                           else Upcoming(p[1..])
  {
    BlocksStep(p[0], p[1..]);
    assert [p[0]] + p[1..] == p;
  }

  /** A step moves what it takes from Outstanding into the run in progress, and leaves everything else alone. */
  lemma OtherStepAtomic(s: State, i: nat, runs: multiset<seq<Event>>, done: seq<seq<Event>>, current: seq<Event>)
    requires Atomic(s, runs, done, current) && Enabled(s, i)
    requires var a := s.threads[i][0]; !a.Emit? && a.mutex != SEND_RECEIVE
    ensures Atomic(Next(s, i), runs, done, current)
  {
    hide Disciplined, Outstanding, Flatten, Blocks, Upcoming, Ordered, Held;
    var p, s' := s.threads[i], Next(s, i);
    NextOrdered(s, i);
    OutstandingUpdate(s.threads, i, p[1..]);
    BlocksOfRest(p);
    assert InProgress(s', current) == InProgress(s, current);
    Cancel(Outstanding(s'.threads), Blocks(p), Outstanding(s.threads));
  }

  lemma EventInRun(s: State, i: nat)
    requires Ordered(s) && Enabled(s, i) && s.threads[i][0].Emit?
    ensures SEND_RECEIVE in s.holder && s.holder[SEND_RECEIVE] == i
  {
    assert SEND_RECEIVE in Held(s, i);
  }

  lemma EventStepAtomic(s: State, i: nat, runs: multiset<seq<Event>>, done: seq<seq<Event>>, current: seq<Event>)
    requires Atomic(s, runs, done, current) && Enabled(s, i) && s.threads[i][0].Emit?
    ensures Atomic(Next(s, i), runs, done, current + [s.threads[i][0].event])
  {
    hide Disciplined, Outstanding, Flatten, Blocks, Upcoming, Ordered, Held;
    var p, s' := s.threads[i], Next(s, i);
    var current' := current + [p[0].event];
    NextOrdered(s, i);
    OutstandingUpdate(s.threads, i, p[1..]);
    EventInRun(s, i);
    BlocksOfRest(p);
    assert current' + Upcoming(p[1..]) == current + Upcoming(p);
    assert InProgress(s', current') == InProgress(s, current);
    Cancel(Outstanding(s'.threads), Blocks(p), Outstanding(s.threads));
    assert s'.log == Flatten(done) + current';
  }

  lemma BeginAtomic(s: State, i: nat, runs: multiset<seq<Event>>, done: seq<seq<Event>>, current: seq<Event>)
    requires Atomic(s, runs, done, current) && Enabled(s, i) && s.threads[i][0] == Acquire(SEND_RECEIVE)
    ensures Atomic(Next(s, i), runs, done, current)
  {
    hide Disciplined, Flatten, Held;
    var p, s' := s.threads[i], Next(s, i);
    NextOrdered(s, i);
    OutstandingUpdate(s.threads, i, p[1..]);
    assert Blocks(p) == multiset{Upcoming(p[1..])} + Blocks(p[1..]);
    hide Disciplined, Outstanding, Flatten, Blocks, Upcoming, Ordered;
    assert current + Upcoming(p[1..]) == Upcoming(p[1..]);
    assert InProgress(s', current) == multiset{Upcoming(p[1..])};
    Cancel(Outstanding(s.threads), Blocks(p[1..]), multiset{Upcoming(p[1..])} + Outstanding(s'.threads));
    assert InProgress(s, current) + Outstanding(s.threads) == Outstanding(s.threads);
  }

  lemma EndAtomic(s: State, i: nat, runs: multiset<seq<Event>>, done: seq<seq<Event>>, current: seq<Event>)
    requires Atomic(s, runs, done, current) && Enabled(s, i) && s.threads[i][0] == Release(SEND_RECEIVE)
    ensures Atomic(Next(s, i), runs, done + [current], [])
  {
    var p, s' := s.threads[i], Next(s, i);
    var done' := done + [current];
    NextOrdered(s, i);
    OutstandingUpdate(s.threads, i, p[1..]);
    assert Blocks(p[1..]) == Blocks(p);
    assert Upcoming(p) == [];
    assert done'[..|done|] == done;
    assert Flatten(done') == Flatten(done) + current;
    hide Disciplined, Outstanding, Flatten, Blocks, Upcoming, Ordered;
    assert current + [] == current;
    assert InProgress(s, current) == multiset{current};
    Cancel(Outstanding(s'.threads), Blocks(p), Outstanding(s.threads));
    assert multiset(done') == multiset(done) + multiset{current};
    assert multiset(done') + (InProgress(s', []) + Outstanding(s'.threads)) == runs;
    assert s'.log == Flatten(done') + [];
  }

  lemma NextAtomic(s: State, i: nat, runs: multiset<seq<Event>>, done: seq<seq<Event>>, current: seq<Event>)
    returns (done': seq<seq<Event>>, current': seq<Event>)
    requires Atomic(s, runs, done, current) && Enabled(s, i)
    ensures Atomic(Next(s, i), runs, done', current')
  {
    hide Atomic;
    done', current' := done, current;
    var a := s.threads[i][0];
    if a.Emit? {
      current' := current + [a.event];
      EventStepAtomic(s, i, runs, done, current);
    } else if a == Acquire(SEND_RECEIVE) {
      BeginAtomic(s, i, runs, done, current);
    } else if a == Release(SEND_RECEIVE) {
      done', current' := done + [current], [];
      EndAtomic(s, i, runs, done, current);
    } else {
      OtherStepAtomic(s, i, runs, done, current);
    }
  }

  lemma {:induction false} AtomicAlong(s: State, schedule: seq<nat>, runs: multiset<seq<Event>>,
                                       done: seq<seq<Event>>, current: seq<Event>)
    returns (done': seq<seq<Event>>, current': seq<Event>)
    requires Atomic(s, runs, done, current) && IsSchedule(s, schedule)
    ensures Atomic(After(s, schedule), runs, done', current')
    decreases |schedule|
  {
    done', current' := done, current;
    if schedule != [] {
      done', current' := NextAtomic(s, schedule[0], runs, done, current);
      done', current' := AtomicAlong(Next(s, schedule[0]), schedule[1..], runs, done', current');
    }
  }

  /** The operations a thread's actions come from. */
  lemma OperationsOf(p: Program) returns (ops: seq<Operation>)
    requires IsThread(p)
    ensures p == ThreadProgram(ops)
  {
    ops :| p == [] + ThreadProgram(ops);
  }

  lemma WorkOf(threads: seq<Program>) returns (work: seq<seq<Operation>>)
    requires forall i :: 0 <= i < |threads| ==> IsThread(threads[i])
    ensures State(threads, map[], []) == Initial(work)
  {
    hide ThreadProgram, IsThread;
    work := [];
    while |work| < |threads|
      invariant |work| <= |threads|
      invariant forall i :: 0 <= i < |work| ==> threads[i] == ThreadProgram(work[i])
    {
      var ops := OperationsOf(threads[|work|]);
      work := work + [ops];
    }
    assert threads == Initial(work).threads;
  }

  /**
   In every interleaving of any threads the log is a concatenation of whole runs and, while
   send_receive_mtx is held, the beginning of the holder's; once all threads are done, it is exactly the
   runs they were asked to make.
   */
  lemma TransactionsAtomic(threads: seq<Program>, schedule: seq<nat>)
    returns (work: seq<seq<Operation>>, done: seq<seq<Event>>, current: seq<Event>)
    requires forall i :: 0 <= i < |threads| ==> IsThread(threads[i])
    requires IsSchedule(State(threads, map[], []), schedule)
    ensures State(threads, map[], []) == Initial(work)
    ensures var s := After(State(threads, map[], []), schedule);
            && s.log == Flatten(done) + current
            && (SEND_RECEIVE !in s.holder ==> current == [])
            && multiset(done) <= AllRuns(work)
            && (AllDone(s) ==> current == [] && multiset(done) == AllRuns(work))
  {
    work := WorkOf(threads);
    InitialOrdered(work);
    OutstandingInitially(work);
    done, current := AtomicAlong(Initial(work), schedule, AllRuns(work), [], []);
    var s := After(Initial(work), schedule);
    if AllDone(s) {
      NothingOutstanding(s.threads);
      NothingHeld(s, SEND_RECEIVE);
    }
  }

  lemma NothingHeld(s: State, m: Mutex)
    requires Ordered(s) && AllDone(s)
    ensures m !in s.holder
  {
    if m in s.holder {
      HolderHolds(s, m);
      assert false;
    }
  }

  lemma HolderHolds(s: State, m: Mutex)
    requires m in s.holder
    ensures m in Held(s, s.holder[m])
  {
  }

  lemma {:induction false} NothingOutstanding(threads: seq<Program>)
    requires forall i :: 0 <= i < |threads| ==> threads[i] == []
    ensures Outstanding(threads) == multiset{}
  {
    if threads != [] {
      NothingOutstanding(threads[1..]);
    }
  }

  // ---------- Nothing in between ----------

  /** Every recv follows directly on a send or recv of the same transaction. */
  predicate Contiguous(log: seq<Event>) {
    forall k :: 0 <= k < |log| && log[k].RecvEvent? ==> k > 0 && log[k - 1].tx == log[k].tx
  }

  /** A run's events: nothing, or a send followed by receives of one transaction. */
  predicate IsRun(b: seq<Event>) {
    forall k :: 0 <= k < |b| ==> b[k].tx == b[0].tx && (b[k].SendEvent? <==> k == 0)
  }

  lemma {:induction false} RecvEventsAre(tx: nat, n: nat)
    ensures forall k :: 0 <= k < |RecvEvents(tx, n)| ==> RecvEvents(tx, n)[k] == RecvEvent(tx)
  {
    if n != 0 {
      RecvEventsAre(tx, n - 1);
    }
  }

  lemma {:induction false} CallsAreRuns(calls: seq<Call>)
    ensures forall b :: b in CallsEvents(calls) ==> IsRun(b)
  {
    if calls != [] {
      CallIsRun(calls[0]);
      CallsAreRuns(calls[1..]);
    }
  }

  lemma CallIsRun(c: Call)
    ensures forall b :: b in RunEvents(c) ==> IsRun(b)
  {
    if c.RunCall? {
      RecvEventsAre(c.tx, c.receives);
    }
  }

  lemma {:induction false} ThreadRunsAreRuns(ops: seq<Operation>)
    ensures forall b :: b in ThreadRuns(ops) ==> IsRun(b)
  {
    if ops != [] {
      match ops[0] {
        case Unlocked(c) => CallIsRun(c);
        case Managed(calls) => CallsAreRuns(calls);
      }
      ThreadRunsAreRuns(ops[1..]);
    }
  }

  lemma {:induction false} AllRunsAreRuns(work: seq<seq<Operation>>)
    ensures forall b :: b in AllRuns(work) ==> IsRun(b)
  {
    if work != [] {
      ThreadRunsAreRuns(work[0]);
      AllRunsAreRuns(work[1..]);
    }
  }

  lemma {:induction false} FlattenContiguous(blocks: seq<seq<Event>>)
    requires forall b :: b in blocks ==> IsRun(b)
    ensures Contiguous(Flatten(blocks))
  {
    if blocks != [] {
      var init, last := blocks[..|blocks| - 1], blocks[|blocks| - 1];
      FlattenContiguous(init);
      assert last in blocks;
      AppendContiguous(Flatten(init), last);
    }
  }

  lemma AppendContiguous(log: seq<Event>, b: seq<Event>)
    requires Contiguous(log) && IsRun(b)
    ensures Contiguous(log + b)
  {
    var whole := log + b;
    forall k | 0 <= k < |whole| && whole[k].RecvEvent? ensures k > 0 && whole[k - 1].tx == whole[k].tx {
      if k >= |log| {
        assert whole[k] == b[k - |log|];
        assert whole[k - 1] == b[k - |log| - 1];
      }
    }
  }

  /** No other request is sent between a request and any of its replies. */
  lemma NothingInBetween(threads: seq<Program>, schedule: seq<nat>)
    requires forall i :: 0 <= i < |threads| ==> IsThread(threads[i])
    requires IsSchedule(State(threads, map[], []), schedule)
    ensures Contiguous(After(State(threads, map[], []), schedule).log)
  {
    var work := WorkOf(threads);
    InitialOrdered(work);
    OutstandingInitially(work);
    AllRunsAreRuns(work);
    var done, current := AtomicAlong(Initial(work), schedule, AllRuns(work), [], []);
    var s := After(Initial(work), schedule);
    forall b | b in done ensures IsRun(b) {
      assert b in multiset(done);
      assert b in AllRuns(work);
    }
    FlattenContiguous(done);
    if SEND_RECEIVE in s.holder {
      var b := current + Upcoming(s.threads[s.holder[SEND_RECEIVE]]);
      assert b in InProgress(s, current);
      assert b in AllRuns(work);
      assert IsRun(b);
      PrefixIsRun(current, b);
    }
    AppendContiguous(Flatten(done), current);
  }

  lemma PrefixIsRun(a: seq<Event>, b: seq<Event>)
    requires a <= b && IsRun(b)
    ensures IsRun(a)
  {
    forall k | 0 <= k < |a| ensures a[k].tx == a[0].tx && (a[k].SendEvent? <==> k == 0) {
      assert a[k] == b[k] && a[0] == b[0];
    }
  }
}
