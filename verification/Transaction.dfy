/** Transaction::run (libnitrokey/device_proto.h): one request, and the replies it takes to get an answer. */
module Transaction {
  import opened Bytes
  import opened Crc32
  import opened Packet
  import opened Replies
  import opened Usb
  import opened Device
  import Locks

  /** One turn of the receive loop on a connection: recv into the buffer, then the status translation. */
  datatype Turn = Turn(reply: Reply, link: Link)

  function NextTurn(w: World, model: DeviceModel, retries: nat, l: Link, buffer: Packet): Turn {
    var r := Receive(w, l, buffer, retries);
    Turn(if r.io.Thrown? then Lost else Reply(r.io.status, Translate(model, r.buffer)), r.link)
  }

  datatype Conversation = Conversation(replies: seq<Reply>, link: Link)

  function Remaining(retries: nat, t: seq<Reply>): nat {
    if Left(retries, t) > 0 then 11 * Left(retries, t) - BusyCounter(t) else 0
  }

  lemma RemainingStep(retries: nat, t: seq<Reply>, r: Reply)
    requires Left(retries, t) > 0
    ensures Remaining(retries, t + [r]) < Remaining(retries, t)
  {
    CounterStep(retries, t, r);
  }

  /** The replies the receive loop consumes, continuing from t, and the connection it leaves. */
  function Converse(w: World, model: DeviceModel, retries: nat, l: Link, t: seq<Reply>): Conversation
    decreases Remaining(retries, t)
  {
    if Finished(retries, t) then Conversation(t, l)
    else
      var turn := NextTurn(w, model, retries, l, FinalBuffer(t));
      CounterStep(retries, t, turn.reply);
      Converse(w, model, retries, turn.link, t + [turn.reply])
  }

  /** The replies are genuine, the loop was entitled to each of them, and stopped when it had to. */
  lemma {:induction false} ConverseIsRun(w: World, model: DeviceModel, retries: nat, l: Link, t: seq<Reply>)
    requires Underway(retries, t) && Chained(model, t)
    ensures var c := Converse(w, model, retries, l, t);
            && t <= c.replies
            && Underway(retries, c.replies)
            && Finished(retries, c.replies)
            && Chained(model, c.replies)
            && c.link.usb.gets <= l.usb.gets + (|c.replies| - |t|) * (retries + 1)
            && l.reconnects <= c.link.reconnects <= l.reconnects + (|c.replies| - |t|) * retries
            && c.link.usb.sent == l.usb.sent
    decreases Remaining(retries, t)
  {
    hide Underway, Chained, FinalBuffer, NextTurn, Stops, Left, Remaining;
    if !Finished(retries, t) {
      var turn := NextTurn(w, model, retries, l, FinalBuffer(t));
      var t' := t + [turn.reply];
      RemainingStep(retries, t, turn.reply);
      TurnEffects(w, model, retries, l, t);
      ConverseIsRun(w, model, retries, turn.link, t');
      var c := Converse(w, model, retries, l, t);
      OneMore(|c.replies| - |t'|, retries + 1);
      OneMore(|c.replies| - |t'|, retries);
    }
  }

  lemma TurnEffects(w: World, model: DeviceModel, retries: nat, l: Link, t: seq<Reply>)
    requires Underway(retries, t) && Chained(model, t) && !Finished(retries, t)
    ensures var turn := NextTurn(w, model, retries, l, FinalBuffer(t));
            && Underway(retries, t + [turn.reply])
            && Chained(model, t + [turn.reply])
            && turn.link.usb.gets <= l.usb.gets + retries + 1
            && l.reconnects <= turn.link.reconnects <= l.reconnects + retries
            && turn.link.usb.sent == l.usb.sent
  {
    ReceiveEffects(w, l, FinalBuffer(t), retries, 0);
    TranslateIdempotent(model, Receive(w, l, FinalBuffer(t), retries).buffer);
    FinalBufferTranslated(model, t);
    var r := NextTurn(w, model, retries, l, FinalBuffer(t)).reply;
    UnderwayStep(retries, t, r);
    ChainedStep(model, t, r);
  }

  lemma UnderwayStep(retries: nat, t: seq<Reply>, r: Reply)
    requires Underway(retries, t) && !Finished(retries, t)
    ensures Underway(retries, t + [r])
  {
    hide Left, Stops;
    var t' := t + [r];
    forall k | 0 <= k < |t'|
      ensures Left(retries, t'[..k]) > 0 && (k + 1 < |t'| ==> !Stops(t'[k]))
    {
      assert t'[..k] == t[..k];
      if k == |t| { assert t[..k] == t; }
    }
  }

  lemma ChainedStep(model: DeviceModel, t: seq<Reply>, r: Reply)
    requires Chained(model, t)
    requires r.Reply? ==> (r.status <= 0 ==> r.packet == FinalBuffer(t)) && Translate(model, r.packet) == r.packet
    ensures Chained(model, t + [r])
  {
    hide Translate, FinalBuffer;
    var t' := t + [r];
    forall k | 0 <= k < |t'| && t'[k].Reply?
      ensures t'[k].status <= 0 ==> t'[k].packet == FinalBuffer(t'[..k])
      ensures Translate(model, t'[k].packet) == t'[k].packet
    {
      assert t'[..k] == t[..k];
      if k == |t| { assert t[..k] == t; }
    }
  }

  lemma FinalBufferTranslated(model: DeviceModel, t: seq<Reply>)
    requires Chained(model, t)
    ensures Translate(model, FinalBuffer(t)) == FinalBuffer(t)
  {
    ZeroedRejected(model);
  }

  /** Between them, the two retry loops read at most 11 * R * (R + 1) reports for one request. */
  lemma ReadBound(w: World, model: DeviceModel, retries: nat, l: Link)
    ensures Converse(w, model, retries, l, []).link.usb.gets <= l.usb.gets + 11 * retries * (retries + 1)
  {
    assert Underway(retries, []) && Chained(model, []);
    hide *;
    ConverseIsRun(w, model, retries, l, []);
    var c := Converse(w, model, retries, l, []);
    ReceiveBound(retries, c.replies);
    TimesMonotone(|c.replies|, 11 * retries, retries + 1);
  }

  lemma {:induction false} ConverseKeepsOthers(w: World, model: DeviceModel, retries: nat, l: Link, t: seq<Reply>)
    requires Owns(l)
    ensures KeepsOthers(l, Converse(w, model, retries, l, t).link)
    decreases Remaining(retries, t)
  {
    if !Finished(retries, t) {
      var turn := NextTurn(w, model, retries, l, FinalBuffer(t));
      CounterStep(retries, t, turn.reply);
      ReceiveKeepsOthers(w, l, FinalBuffer(t), retries, 0);
      ConverseKeepsOthers(w, model, retries, turn.link, t + [turn.reply]);
      KeepsOthersTransitive(l, turn.link, Converse(w, model, retries, l, t).link);
    }
  }

  // ---------- Statistics ----------

  function Rejections(t: seq<Reply>): (n: nat)
    ensures n <= |t|
  {
    if t == [] then 0 else Rejections(Init(t)) + (if Stops(Last(t)) then 0 else 1)
  }

  /** Rejected replies whose checksum is wrong. */
  function CrcErrors(t: seq<Reply>): (n: nat)
    ensures n <= Rejections(t)
  {
    if t == [] then 0
    else CrcErrors(Init(t)) + (if !Stops(Last(t)) && !IsCrcCorrect(Last(t).packet) then 1 else 0)
  }

  lemma {:induction false} RejectionsCount(t: seq<Reply>)
    ensures Rejections(t) == |Where(t, r => !Stops(r))|
    ensures CrcErrors(t) == |Where(t, r => !Stops(r) && !IsCrcCorrect(r.packet))|
  {
    hide IsCrcCorrect;
    if t != [] {
      RejectionsCount(Init(t));
      WhereStep(t, r => !Stops(r));
      WhereStep(t, r => !Stops(r) && !IsCrcCorrect(r.packet));
    }
  }

  function Started(c: ErrorCounters): ErrorCounters {
    c.(totalCommRuns := c.totalCommRuns + 1, sendsExecuted := c.sendsExecuted + 1)
  }

  /** The counters after the receive loop. */
  function Counted(c: ErrorCounters, t: seq<Reply>): ErrorCounters {
    c.(recvExecuted := c.recvExecuted + |t|,
       busy := c.busy + Busies(t),
       totalRetries := c.totalRetries + Rejections(t),
       wrongCrc := c.wrongCrc + CrcErrors(t))
  }

  /** The counters after the exit run takes. */
  function Closing(c: ErrorCounters, model: DeviceModel, retries: nat, t: seq<Reply>): ErrorCounters {
    match Conclude(retries, t)
    case LongOperation(_, _, _) => c.(busyProgressbar := c.busyProgressbar + 1)
    case CommandFailed(_, _) =>
      c.(communicationSuccessful := c.communicationSuccessful + 1,
         commandResultNotEqual0Recv := c.commandResultNotEqual0Recv + 1)
    case Completed(p) =>
      c.(communicationSuccessful := c.communicationSuccessful + 1,
         commandSuccessfulRecv := c.commandSuccessfulRecv + 1,
         successfulStorageCommands := c.successfulStorageCommands + (if IsStorageCommand(model, p) then 1 else 0))
    case ReceivingFailure =>
      if t != [] && Last(t).status <= 0 then c.(receivingError := c.receivingError + 1) else c
    case _ => c
  }

  lemma CountStep(c: ErrorCounters, t: seq<Reply>, r: Reply)
    ensures Counted(c, t + [r]) ==
            var d := Counted(c, t);
            d.(recvExecuted := d.recvExecuted + 1,
               busy := d.busy + (if IsBusyReply(r) then 1 else 0),
               totalRetries := d.totalRetries + (if Stops(r) then 0 else 1),
               wrongCrc := d.wrongCrc + (if !Stops(r) && !IsCrcCorrect(r.packet) then 1 else 0))
  {
    hide IsCrcCorrect;
    assert Init(t + [r]) == t;
  }

  /** What the statistics promise of each other, whatever has happened. */
  predicate Conserved(c: ErrorCounters) {
    && c.communicationSuccessful == c.commandSuccessfulRecv + c.commandResultNotEqual0Recv
    && c.sendsExecuted == c.totalCommRuns
    && c.wrongCrc <= c.totalRetries <= c.recvExecuted
    && c.busyProgressbar <= c.busy <= c.recvExecuted
    && c.successfulStorageCommands <= c.commandSuccessfulRecv
    && c.sendingError + c.receivingError + c.busyProgressbar + c.communicationSuccessful <= c.totalCommRuns
  }

  lemma ConservedByReplies(c: ErrorCounters, model: DeviceModel, retries: nat, t: seq<Reply>)
    requires Conserved(c)
    ensures Conserved(Closing(Counted(Started(c), t), model, retries, t))
  {
    if Conclude(retries, t).LongOperation? {
      LongOperationIsBusy(retries, t);
    }
    hide Conclude, Busies, Rejections, CrcErrors, IsStorageCommand;
  }

  lemma LongOperationIsBusy(retries: nat, t: seq<Reply>)
    requires Conclude(retries, t).LongOperation?
    ensures Busies(t) >= 1
  {
    assert t == [] ==> FinalBuffer(t) == Zeroed();
  }

  // ---------- run ----------

  /** The in-place status translation of the response buffer. */
  method TranslateInPlace(model: DeviceModel, resp: array<byte>)
    requires resp.Length == HID_REPORT_SIZE
    modifies resp
    ensures resp[..] == Translate(model, old(resp[..]))
  {
    if model == STORAGE && resp[2] >= 0x20 && resp[2] < 0x60 {
      resp[7] := 0;
      match resp[23] {
        case 0 | 1 => resp[1] := 0;
        case 2 | 4 => resp[1] := 1;
        case 3 =>
          resp[7] := 4;
          resp[1] := 0;
        case 6 =>
          resp[7] := 10;
          resp[1] := 0;
        case other => resp[1] := other;
      }
    }
  }

  lemma ConverseStep(w: World, model: DeviceModel, retries: nat, l: Link, t: seq<Reply>)
    requires !Finished(retries, t)
    ensures var turn := NextTurn(w, model, retries, l, FinalBuffer(t));
            Converse(w, model, retries, l, t) == Converse(w, model, retries, turn.link, t + [turn.reply])
  {
    CounterStep(retries, t, NextTurn(w, model, retries, l, FinalBuffer(t)).reply);
  }

  lemma ConverseStopped(w: World, model: DeviceModel, retries: nat, l: Link, t: seq<Reply>)
    requires Finished(retries, t)
    ensures Converse(w, model, retries, l, t) == Conversation(t, l)
  {
  }

  lemma SleepStep(initial: nat, t: seq<Reply>, r: Reply)
    ensures BackoffTotal(initial, t + [r]) ==
            BackoffTotal(initial, t) + (if Stops(r) then 0 else Backoff(initial, Busies(t + [r])))
  {
    assert Init(t + [r]) == t;
  }

  /** isCRCcorrect */
  method CheckCrc(p: array<byte>) returns (correct: bool)
    requires p.Length == HID_REPORT_SIZE
    ensures correct == IsCrcCorrect(p[..])
  {
    var crc := StmCrc32(p, 1, 60);
    CoveredCrcIs(p[..]);
    correct := Word(p[..][CRC_OFFSET..]) == crc;
  }

  /** recv, counted, and the status translation: one turn of the receive loop. */
  method ReceiveOnce(dev: Device, resp: array<byte>) returns (ghost reply: Reply, status: int, lost: bool)
    requires resp.Length == HID_REPORT_SIZE
    modifies dev`handle, dev`counters, dev.host`usb, dev.host`slept, dev.host`trace, resp
    ensures dev.host.slept == old(dev.host.slept)
                            + Paused(dev.retryTimeout, old(dev.counters.lowLevelReconnect), dev.counters.lowLevelReconnect)
    ensures dev.host.trace == old(dev.host.trace) + Locks.Guarded(Locks.RecvEvent(dev.host.Transaction()))
    ensures Turn(reply, dev.Connection())
         == NextTurn(dev.host.world, dev.model, dev.retryReceivingCount, old(dev.Connection()), old(resp[..]))
    ensures dev.counters == old(dev.counters).(recvExecuted := old(dev.counters.recvExecuted) + 1,
                                               lowLevelReconnect := dev.counters.lowLevelReconnect)
    ensures lost == reply.Lost?
    ensures !lost ==> resp[..] == reply.packet && status == reply.status
  {
    hide Receive, Paused, Locks.Guarded;
    dev.counters := dev.counters.(recvExecuted := dev.counters.recvExecuted + 1);
    var io := dev.Recv(resp);
    if io.Thrown? {
      return Lost, 0, true;
    }
    TranslateInPlace(dev.model, resp);
    return Reply(io.status, resp[..]), io.status, false;
  }

  /** A rejected response: its checksum is looked at for the statistics only. */
  method RecordRejection(dev: Device, resp: array<byte>)
    requires resp.Length == HID_REPORT_SIZE
    modifies dev`counters
    ensures dev.counters == old(dev.counters).(
              totalRetries := old(dev.counters.totalRetries) + 1,
              wrongCrc := old(dev.counters.wrongCrc) + (if IsCrcCorrect(resp[..]) then 0 else 1))
  {
    hide IsCrcCorrect;
    var correct := CheckCrc(resp);
    if !correct {
      dev.counters := dev.counters.(wrongCrc := dev.counters.wrongCrc + 1);
    }
    dev.counters := dev.counters.(totalRetries := dev.counters.totalRetries + 1);
  }

  /** The receive loop of run. */
  method ReceiveLoop(dev: Device, resp: array<byte>, sent: int, ghost begun: Locks.Program)
    returns (status: int, receivingRetryCounter: int, lost: bool, ghost t: seq<Reply>)
    requires resp.Length == HID_REPORT_SIZE && resp[..] == Zeroed() && sent > 0
    requires dev.host.trace == Locks.RunSoFar(begun, dev.host.Transaction(), 0)
    modifies dev`handle, dev`counters, dev.host`usb, dev.host`slept, dev.host`trace, resp
    ensures Conversation(t, dev.Connection())
         == Converse(dev.host.world, dev.model, dev.retryReceivingCount, old(dev.Connection()), [])
    ensures dev.counters == Counted(old(dev.counters), t).(lowLevelReconnect := dev.counters.lowLevelReconnect)
    ensures dev.host.slept == old(dev.host.slept) + BackoffTotal(dev.retryTimeout, t)
                            + Paused(dev.retryTimeout, old(dev.counters.lowLevelReconnect), dev.counters.lowLevelReconnect)
    ensures dev.host.trace == Locks.RunSoFar(begun, dev.host.Transaction(), |t|)
    ensures lost <==> t != [] && Last(t).Lost?
    ensures !lost ==>
              && resp[..] == FinalBuffer(t)
              && status == (if t == [] then sent else Last(t).status)
              && receivingRetryCounter == FinalCounter(dev.retryReceivingCount, t)
  {
    hide Converse, IsCrcCorrect, NextTurn, Counted, BackoffTotal, Backoff, Left, BusyCounter, Busies,
      Remaining, Paused, Locks.RunSoFar, Locks.Guarded;
    var retries := dev.retryReceivingCount;
    ghost var w, l0 := dev.host.world, dev.Connection();
    status := sent;
    lost := false;
    t := [];
    receivingRetryCounter := retries;
    var busyCounter := 0;
    var retryTimeout := dev.retryTimeout;
    LoopStart(retries, retryTimeout, dev.counters);
    PausedOnce(retryTimeout, dev.counters.lowLevelReconnect);
    // The loop test decrements the counter before every turn and once more when it fails.
    var more := receivingRetryCounter > 0;
    receivingRetryCounter := receivingRetryCounter - 1;
    while more
      invariant more <==> Left(retries, t) > 0
      invariant Left(retries, t) >= 0
      invariant receivingRetryCounter == Left(retries, t) - 1
      invariant busyCounter == BusyCounter(t)
      invariant retryTimeout == Backoff(dev.retryTimeout, Busies(t))
      invariant !lost && (t == [] || !Stops(Last(t)))
      invariant resp[..] == FinalBuffer(t)
      invariant status == if t == [] then sent else Last(t).status
      invariant Converse(w, dev.model, retries, dev.Connection(), t) == Converse(w, dev.model, retries, l0, [])
      invariant dev.counters == Counted(old(dev.counters), t).(lowLevelReconnect := dev.counters.lowLevelReconnect)
      invariant dev.host.slept == old(dev.host.slept) + BackoffTotal(dev.retryTimeout, t)
                                + Paused(dev.retryTimeout, old(dev.counters.lowLevelReconnect), dev.counters.lowLevelReconnect)
      invariant dev.host.trace == Locks.RunSoFar(begun, dev.host.Transaction(), |t|)
      decreases Remaining(retries, t)
    {
      Locks.RunReceives(begun, dev.host.Transaction(), |t|);
      ConverseStep(w, dev.model, retries, dev.Connection(), t);
      ghost var r, reconnects := *, dev.counters.lowLevelReconnect;
      r, status, lost := ReceiveOnce(dev, resp);
      PausedAdds(dev.retryTimeout, old(dev.counters.lowLevelReconnect), reconnects, dev.counters.lowLevelReconnect);
      CountStep(old(dev.counters), t, r);
      CounterStep(retries, t, r);
      SleepStep(dev.retryTimeout, t, r);
      RemainingStep(retries, t, r);
      DelayStep(dev.retryTimeout, t, r);
      t := t + [r];
      if lost {
        ConverseStopped(w, dev.model, retries, dev.Connection(), t);
        return;
      }
      if resp[1] == 0 && (resp[61] != 0 || resp[62] != 0 || resp[63] != 0 || resp[64] != 0) {
        break;
      }
      if resp[1] == 1 {
        dev.counters := dev.counters.(busy := dev.counters.busy + 1);
        busyCounter := busyCounter + 1;
        if busyCounter <= 10 {
          receivingRetryCounter := receivingRetryCounter + 1;
        } else {
          retryTimeout := retryTimeout * 2;
          retryTimeout := Min(retryTimeout, 300);
          busyCounter := 0;
        }
      }
      if resp[1] == 1 && resp[23] == 4 {
        break;
      }
      RecordRejection(dev, resp);
      dev.host.slept := dev.host.slept + retryTimeout;
      more := receivingRetryCounter > 0;
      receivingRetryCounter := receivingRetryCounter - 1;
    }
    ConverseStopped(w, dev.model, retries, dev.Connection(), t);
  }

  lemma LoopStart(retries: nat, initial: nat, c: ErrorCounters)
    ensures Left(retries, []) == retries && BusyCounter([]) == 0 && Busies([]) == 0
    ensures Backoff(initial, 0) == initial && BackoffTotal(initial, []) == 0
    ensures Counted(c, []) == c
  {
  }

  /** Everything one call of run does to the device and to the world. */
  datatype Exchange = Exchange(
    outcome: Outcome, link: Link, counters: ErrorCounters, slept: int, commandStatus: Option<byte>)

  datatype Settings = Settings(model: DeviceModel, retries: nat, retryTimeout: nat, sendReceiveDelay: nat)

  function Exchanged(w: World, d: Settings, l: Link, c: ErrorCounters, request: Packet): Exchange {
    var s := Send(w, l, request);
    if s.io.Thrown? then
      Exchange(NotConnected, s.link, Started(c).(lowLevelReconnect := s.link.reconnects), 0, None)
    else if s.io.status <= 0 then
      var c' := Started(c);
      Exchange(SendingFailure, s.link,
               c'.(sendingError := c'.sendingError + 1, lowLevelReconnect := s.link.reconnects), 0, None)
    else
      var v := Converse(w, d.model, d.retries, s.link, []);
      var t := v.replies;
      Exchange(Conclude(d.retries, t), v.link,
               Closing(Counted(Started(c), t), d.model, d.retries, t).(lowLevelReconnect := v.link.reconnects),
               d.sendReceiveDelay + BackoffTotal(d.retryTimeout, t)
               + Paused(d.retryTimeout, s.link.reconnects, v.link.reconnects),
               if t != [] && Last(t).Lost? then None else Some(CommandStatus(FinalBuffer(t))))
  }

  ghost function SettingsOf(dev: Device): Settings
    reads dev`retryTimeout, dev`sendReceiveDelay
  {
    Settings(dev.model, dev.retryReceivingCount, dev.retryTimeout, dev.sendReceiveDelay)
  }

  /** The sending loop of run: the request, the wait and the receive loop, for as many requests as configured. */
  method SendAndReceive(dev: Device, outp: array<byte>, resp: array<byte>, ghost begun: Locks.Program)
    returns (thrown: Option<Outcome>, status: int, receivingRetryCounter: int, ghost t: seq<Reply>)
    requires dev.retrySendingCount == 1
    requires outp.Length == resp.Length == HID_REPORT_SIZE && outp != resp && resp[..] == Zeroed()
    requires dev.host.trace == begun + [Locks.Acquire(Locks.SEND_RECEIVE)]
    modifies dev`handle, dev`counters, dev.host`usb, dev.host`slept, dev.host`trace, resp
    ensures dev.host.trace == Locks.RunSoFar(begun, dev.host.Transaction(), |t|)
    ensures |t| == dev.counters.recvExecuted - old(dev.counters.recvExecuted)
    ensures var s := Usb.Send(dev.host.world, old(dev.Connection()), old(outp[..]));
            var begun := Begun(old(dev.counters));
            if s.io.Thrown? then
              && thrown == Some(NotConnected)
              && dev.Connection() == s.link
              && dev.counters == begun.(lowLevelReconnect := dev.counters.lowLevelReconnect)
              && dev.host.slept == old(dev.host.slept)
            else if s.io.status <= 0 then
              && thrown == Some(SendingFailure)
              && dev.Connection() == s.link
              && dev.counters == begun.(sendingError := begun.sendingError + 1,
                                        lowLevelReconnect := dev.counters.lowLevelReconnect)
              && dev.host.slept == old(dev.host.slept)
            else
              && Conversation(t, dev.Connection())
                 == Converse(dev.host.world, dev.model, dev.retryReceivingCount, s.link, [])
              && dev.counters == Counted(begun, t).(lowLevelReconnect := dev.counters.lowLevelReconnect)
              && dev.host.slept == old(dev.host.slept) + dev.sendReceiveDelay + BackoffTotal(dev.retryTimeout, t)
                                   + Paused(dev.retryTimeout, s.link.reconnects, dev.counters.lowLevelReconnect)
              && thrown == (if t != [] && Last(t).Lost? then Some(NotConnected) else None)
              && (thrown == None ==>
                    && resp[..] == FinalBuffer(t)
                    && status == (if t == [] then s.io.status else Last(t).status)
                    && receivingRetryCounter == FinalCounter(dev.retryReceivingCount, t))
  {
    hide Converse, Usb.Send, BackoffTotal, Counted, IsCrcCorrect, FinalCounter, FinalBuffer, Paused,
      Locks.RunSoFar, Locks.Guarded;
    Locks.RunSends(begun, dev.host.Transaction());
    ghost var s := Usb.Send(dev.host.world, dev.Connection(), outp[..]);
    thrown, status, receivingRetryCounter, t := None, 0, 0, [];
    var sendingRetryCounter := dev.retrySendingCount;
    while sendingRetryCounter > 0
      invariant sendingRetryCounter <= 1
      invariant sendingRetryCounter == 1 ==>
                  && dev.Connection() == old(dev.Connection())
                  && dev.counters == old(dev.counters)
                  && dev.host.slept == old(dev.host.slept)
                  && dev.host.trace == old(dev.host.trace)
                  && resp[..] == Zeroed() && t == []
      invariant sendingRetryCounter == 0 ==>
                  && s.io.Returned? && s.io.status > 0
                  && Conversation(t, dev.Connection())
                     == Converse(dev.host.world, dev.model, dev.retryReceivingCount, s.link, [])
                  && dev.counters == Counted(Begun(old(dev.counters)), t)
                                     .(lowLevelReconnect := dev.counters.lowLevelReconnect)
                  && dev.host.slept == old(dev.host.slept) + dev.sendReceiveDelay + BackoffTotal(dev.retryTimeout, t)
                                   + Paused(dev.retryTimeout, s.link.reconnects, dev.counters.lowLevelReconnect)
                  && !(t != [] && Last(t).Lost?)
                  && resp[..] == FinalBuffer(t)
                  && status == (if t == [] then s.io.status else Last(t).status)
                  && receivingRetryCounter == FinalCounter(dev.retryReceivingCount, t)
                  && dev.host.trace == Locks.RunSoFar(begun, dev.host.Transaction(), |t|)
                  && |t| == dev.counters.recvExecuted - old(dev.counters.recvExecuted)
    {
      sendingRetryCounter := sendingRetryCounter - 1;
      dev.counters := dev.counters.(sendsExecuted := dev.counters.sendsExecuted + 1);
      var io := dev.Send(outp);
      if io.Thrown? {
        thrown := Some(NotConnected);
        return;
      }
      status := io.status;
      if status <= 0 {
        dev.counters := dev.counters.(sendingError := dev.counters.sendingError + 1);
        thrown := Some(SendingFailure);
        return;
      }
      dev.host.slept := dev.host.slept + dev.sendReceiveDelay;
      var lost;
      ghost var before := dev.counters;
      status, receivingRetryCounter, lost, t := ReceiveLoop(dev, resp, status, begun);
      CountedReceives(before, t);
      CountedIgnoresReconnects(before, Begun(old(dev.counters)), t);
      if lost {
        thrown := Some(NotConnected);
        return;
      }
    }
  }

  /** The counters once the request is about to go out; run itself has been counted by its caller. */
  function Begun(c: ErrorCounters): ErrorCounters {
    c.(sendsExecuted := c.sendsExecuted + 1)
  }

  lemma CountedIgnoresReconnects(c: ErrorCounters, d: ErrorCounters, t: seq<Reply>)
    requires c == d.(lowLevelReconnect := c.lowLevelReconnect)
    ensures forall n: nat :: Counted(c, t).(lowLevelReconnect := n) == Counted(d, t).(lowLevelReconnect := n)
  {
  }

  lemma CountedReceives(c: ErrorCounters, t: seq<Reply>)
    ensures Counted(c, t).recvExecuted == c.recvExecuted + |t|
  {
  }

  /** The exits of run, in their order. */
  method Leave(dev: Device, resp: array<byte>, status: int, receivingRetryCounter: int, ghost t: seq<Reply>)
    returns (outcome: Outcome)
    requires resp.Length == HID_REPORT_SIZE && resp[..] == FinalBuffer(t)
    requires t == [] || !Last(t).Lost?
    requires if t == [] then status > 0 else status == Last(t).status
    requires receivingRetryCounter == FinalCounter(dev.retryReceivingCount, t)
    modifies dev`counters, dev`lastCommandStatus
    ensures outcome == Conclude(dev.retryReceivingCount, t)
    ensures dev.counters == Closing(old(dev.counters), dev.model, dev.retryReceivingCount, t)
    ensures dev.lastCommandStatus == CommandStatus(FinalBuffer(t))
  {
    hide FinalCounter, FinalBuffer, Conclude;
    ExitTaken(dev.retryReceivingCount, t, status, receivingRetryCounter);
    dev.lastCommandStatus := resp[7];
    if status <= 0 {
      dev.counters := dev.counters.(receivingError := dev.counters.receivingError + 1);
      outcome := ReceivingFailure;
      return;
    }
    if resp[1] == 1 && resp[23] == 4 {
      dev.counters := dev.counters.(busyProgressbar := dev.counters.busyProgressbar + 1);
      outcome := LongOperation(resp[2], resp[1], resp[24]);
      return;
    }
    if resp[61] == 0 && resp[62] == 0 && resp[63] == 0 && resp[64] == 0 {
      outcome := InvalidCrcReceived;
      return;
    }
    if receivingRetryCounter <= 0 {
      outcome := ReceivingFailure;
      return;
    }
    dev.counters := dev.counters.(communicationSuccessful := dev.counters.communicationSuccessful + 1);
    if resp[7] != 0 {
      dev.counters := dev.counters.(commandResultNotEqual0Recv := dev.counters.commandResultNotEqual0Recv + 1);
      outcome := CommandFailed(resp[2], resp[7]);
      return;
    }
    dev.counters := dev.counters.(commandSuccessfulRecv := dev.counters.commandSuccessfulRecv + 1);
    if dev.model == STORAGE && resp[2] >= 0x20 && resp[2] < 0x60 {
      dev.counters := dev.counters.(successfulStorageCommands := dev.counters.successfulStorageCommands + 1);
    }
    outcome := Completed(resp[..]);
  }

  /** The exits in terms of what run has got at hand. */
  lemma ExitTaken(retries: nat, t: seq<Reply>, status: int, receivingRetryCounter: int)
    requires t == [] || !Last(t).Lost?
    requires if t == [] then status > 0 else status == Last(t).status
    requires receivingRetryCounter == FinalCounter(retries, t)
    ensures status <= 0 <==> t != [] && Last(t).status <= 0
    ensures var p := FinalBuffer(t);
            Conclude(retries, t) ==
              if status <= 0 then ReceivingFailure
              else if IsLongOperation(p) then LongOperation(CommandId(p), DeviceStatus(p), Progress(p))
              else if !HasCrc(p) then InvalidCrcReceived
              else if receivingRetryCounter <= 0 then ReceivingFailure
              else if CommandStatus(p) != 0 then CommandFailed(CommandId(p), CommandStatus(p))
              else Completed(p)
  {
  }

  lemma LostExit(retries: nat, t: seq<Reply>)
    requires t != [] && Last(t).Lost?
    ensures Conclude(retries, t) == NotConnected
  {
  }

  function ModifiedBy(dev: Device?): set<Device> {
    if dev == null then {} else {dev}
  }

  /** run: with send_receive_mtx held, send the request, wait, receive, and leave through the first exit that applies. */
  method Run(host: Host, dev: Device?, command: byte, payload: seq<byte>)
    returns (outcome: Outcome, ghost e: Exchange, ghost call: Locks.Call)
    requires |payload| <= PAYLOAD_CAPACITY
    requires dev != null ==> dev.retrySendingCount == 1 && dev.host == host
    modifies host`usb, host`slept, host`runs, host`trace
    modifies ModifiedBy(dev)`handle, ModifiedBy(dev)`counters, ModifiedBy(dev)`lastCommandStatus
    ensures host.trace == old(host.trace) + Locks.CallProgram(call)
    ensures dev == null ==>
              outcome == NotConnected && host.usb == old(host.usb) && host.slept == old(host.slept)
              && call == Locks.RunWithoutDevice
    ensures dev != null ==>
              && e == old(Exchanged(host.world, SettingsOf(dev), dev.Connection(), dev.counters,
                                    Outgoing(command, payload)))
              && outcome == e.outcome
              && dev.Connection() == e.link
              && dev.counters == e.counters
              && host.slept == old(host.slept) + e.slept
              && dev.lastCommandStatus
                 == (if e.commandStatus.Some? then e.commandStatus.value else old(dev.lastCommandStatus))
              && call.RunCall? && call.tx == host.Transaction()
              && call.receives == dev.counters.recvExecuted - old(dev.counters.recvExecuted)
  {
    hide Exchanged, Outgoing, Locks.RunSoFar;
    ghost var begun := host.trace;
    host.Lock(Locks.SEND_RECEIVE);
    host.runs := host.runs + 1;
    if dev == null {
      outcome, call := NotConnected, Locks.RunWithoutDevice;
      e := *;
    } else {
      ghost var n;
      outcome, e, n := RunLocked(dev, command, payload, begun);
      call := Locks.RunCall(host.Transaction(), n);
      Locks.RunEnds(begun, host.Transaction(), n);
    }
    host.Unlock(Locks.SEND_RECEIVE);
  }

  method RunLocked(dev: Device, command: byte, payload: seq<byte>, ghost begun: Locks.Program)
    returns (outcome: Outcome, ghost e: Exchange, ghost received: nat)
    requires |payload| <= PAYLOAD_CAPACITY && dev.retrySendingCount == 1
    requires dev.host.trace == begun + [Locks.Acquire(Locks.SEND_RECEIVE)]
    modifies dev`handle, dev`counters, dev`lastCommandStatus, dev.host`usb, dev.host`slept, dev.host`trace
    ensures e == old(Exchanged(dev.host.world, SettingsOf(dev), dev.Connection(), dev.counters,
                               Outgoing(command, payload)))
    ensures outcome == e.outcome && dev.Connection() == e.link && dev.counters == e.counters
    ensures dev.host.slept == old(dev.host.slept) + e.slept
    ensures dev.lastCommandStatus
         == (if e.commandStatus.Some? then e.commandStatus.value else old(dev.lastCommandStatus))
    ensures received == dev.counters.recvExecuted - old(dev.counters.recvExecuted)
    ensures dev.host.trace == Locks.RunSoFar(begun, dev.host.Transaction(), received)
  {
    hide Converse, Usb.Send, Outgoing, BackoffTotal, Counted, IsCrcCorrect, Paused, Conclude,
      Locks.RunSoFar;
    e := Exchanged(dev.host.world, SettingsOf(dev), dev.Connection(), dev.counters, Outgoing(command, payload));
    dev.counters := dev.counters.(totalCommRuns := dev.counters.totalCommRuns + 1);
    var outp := PrepareRequest(command, payload);
    var resp := new byte[HID_REPORT_SIZE](_ => 0);
    assert resp[..] == Zeroed();
    var thrown, status, receivingRetryCounter;
    ghost var t;
    thrown, status, receivingRetryCounter, t := SendAndReceive(dev, outp, resp, begun);
    received := |t|;
    if thrown.Some? {
      if t != [] && Last(t).Lost? {
        LostExit(dev.retryReceivingCount, t);
      }
      outcome := thrown.value;
      return;
    }
    outcome := Leave(dev, resp, status, receivingRetryCounter, t);
  }

  method PrepareRequest(command: byte, payload: seq<byte>) returns (outp: array<byte>)
    requires |payload| <= PAYLOAD_CAPACITY
    ensures fresh(outp) && outp.Length == HID_REPORT_SIZE && outp[..] == Outgoing(command, payload)
  {
    hide CoveredCrc;
    outp := new byte[HID_REPORT_SIZE];
    FillOutgoing(outp, command, payload);
    UpdateCrc(outp);
  }
}
