/** What one run, and any sequence of runs, promises whatever the device does. */
module RunProperties {
  import opened Bytes
  import opened Packet
  import opened Replies
  import opened Usb
  import opened Device
  import opened Transaction

  // ---------- Outcome ----------

  /** The next n replies of a device, were the loop never to stop. */
  function Stream(w: World, model: DeviceModel, retries: nat, l: Link, t: seq<Reply>, n: nat): seq<Reply>
    decreases n
  {
    if n == 0 then t
    else
      var turn := NextTurn(w, model, retries, l, FinalBuffer(t));
      Stream(w, model, retries, turn.link, t + [turn.reply], n - 1)
  }

  lemma {:induction false} StreamExtends(w: World, model: DeviceModel, retries: nat, l: Link, t: seq<Reply>, n: nat)
    ensures t <= Stream(w, model, retries, l, t, n)
    decreases n
  {
    if n != 0 {
      var turn := NextTurn(w, model, retries, l, FinalBuffer(t));
      StreamExtends(w, model, retries, turn.link, t + [turn.reply], n - 1);
    }
  }

  /** The loop consumes a prefix of the stream. */
  lemma {:induction false} ConverseIsPrefix(w: World, model: DeviceModel, retries: nat, l: Link, t: seq<Reply>, n: nat)
    requires n >= Remaining(retries, t)
    ensures Converse(w, model, retries, l, t).replies <= Stream(w, model, retries, l, t, n)
    decreases n
  {
    hide Remaining, NextTurn, FinalBuffer;
    if Finished(retries, t) {
      StreamExtends(w, model, retries, l, t, n);
    } else {
      var turn := NextTurn(w, model, retries, l, FinalBuffer(t));
      RemainingStep(retries, t, turn.reply);
      ConverseStep(w, model, retries, l, t);
      ConverseIsPrefix(w, model, retries, turn.link, t + [turn.reply], n - 1);
    }
  }

  /** All replies that can matter to a request sent on this link. */
  function Answers(w: World, d: Settings, l: Link, request: Packet): seq<Reply> {
    Stream(w, d.model, d.retries, Send(w, l, request).link, [], 11 * d.retries)
  }

  predicate WasSent(w: World, l: Link, request: Packet) {
    var io := Send(w, l, request).io;
    io.Returned? && io.status > 0
  }

  lemma AnswersConsumed(w: World, d: Settings, l: Link, request: Packet)
    ensures var t := Converse(w, d.model, d.retries, Send(w, l, request).link, []).replies;
            && t <= Answers(w, d, l, request)
            && Underway(d.retries, t) && Finished(d.retries, t) && Chained(d.model, t)
  {
    var l' := Send(w, l, request).link;
    assert Underway(d.retries, []) && Chained(d.model, []);
    assert Remaining(d.retries, []) <= 11 * d.retries;
    hide *;
    ConverseIsPrefix(w, d.model, d.retries, l', [], 11 * d.retries);
    ConverseIsRun(w, d.model, d.retries, l', []);
  }

  /**
   run hands back a response exactly when the request went out and the first of the device's answers that
   stops the loop is plain, acceptable, of status 0, and comes while at least two retries are left.
   */
  lemma RunCompletesIff(w: World, d: Settings, l: Link, c: ErrorCounters, request: Packet, p: Packet)
    ensures Exchanged(w, d, l, c, request).outcome == Completed(p) <==>
            WasSent(w, l, request) && exists k: nat :: CompletesAt(d.retries, Answers(w, d, l, request), k, p)
  {
    hide Converse, Send, Answers, CompletesAt, Closing, Conclude;
    if WasSent(w, l, request) {
      var t := Converse(w, d.model, d.retries, Send(w, l, request).link, []).replies;
      AnswersConsumed(w, d, l, request);
      CompletedIff(d.retries, Answers(w, d, l, request), t, p);
    }
  }

  /** The first stopping answer, arriving in time, decides how a run that got its request out ends. */
  lemma RunVerdict(w: World, d: Settings, l: Link, c: ErrorCounters, request: Packet, k: nat)
    requires WasSent(w, l, request)
    requires FirstStop(Answers(w, d, l, request), k) && Left(d.retries, Answers(w, d, l, request)[..k]) > 0
    ensures var s := Answers(w, d, l, request);
            Exchanged(w, d, l, c, request).outcome == Verdict(Left(d.retries, s[..k]), s[k])
  {
    hide Converse, Send, Answers, Closing, Conclude, FirstStop, Verdict, Left;
    var t := Converse(w, d.model, d.retries, Send(w, l, request).link, []).replies;
    AnswersConsumed(w, d, l, request);
    StoppedVerdict(d.retries, Answers(w, d, l, request), t, k);
  }

  // ---------- Losing the connection ----------

  /** The connection after n turns of the loop, were it never to stop. */
  function LinkAfter(w: World, model: DeviceModel, retries: nat, l: Link, t: seq<Reply>, n: nat): Link
    decreases n
  {
    if n == 0 then l
    else
      var turn := NextTurn(w, model, retries, l, FinalBuffer(t));
      LinkAfter(w, model, retries, turn.link, t + [turn.reply], n - 1)
  }

  lemma {:induction false} StreamLost(w: World, model: DeviceModel, retries: nat, l: Link, t: seq<Reply>, n: nat, k: nat)
    requires k < n
    ensures |Stream(w, model, retries, l, t, n)| == |t| + n
    ensures Stream(w, model, retries, l, t, n)[|t| + k].Lost?
            <==> ReadLosesHandle(w, LinkAfter(w, model, retries, l, t, k), retries)
    decreases n
  {
    hide FinalBuffer, ReadLosesHandle, Receive, Translate;
    var turn := NextTurn(w, model, retries, l, FinalBuffer(t));
    var t' := t + [turn.reply];
    StreamExtends(w, model, retries, turn.link, t', n - 1);
    if k == 0 {
      ReceiveThrowsIff(w, l, FinalBuffer(t), retries);
    } else {
      StreamLost(w, model, retries, turn.link, t', n - 1, k - 1);
    }
    if n == 1 {
      assert Stream(w, model, retries, turn.link, t', 0) == t';
    } else {
      StreamLost(w, model, retries, turn.link, t', n - 1, 0);
    }
  }

  /** The connection on which answer number k of the device is read. */
  function AnswerLink(w: World, d: Settings, l: Link, request: Packet, k: nat): Link {
    LinkAfter(w, d.model, d.retries, Send(w, l, request).link, [], k)
  }

  /** After k answers that do not stop the loop, with turns left, the next recv loses the handle. */
  ghost predicate LosesHandleAt(w: World, d: Settings, l: Link, request: Packet, k: nat) {
    var s := Answers(w, d, l, request);
    && k < |s|
    && (forall j :: 0 <= j < k ==> !Stops(s[j]))
    && Left(d.retries, s[..k]) > 0
    && ReadLosesHandle(w, AnswerLink(w, d, l, request, k), d.retries)
  }

  lemma LosesHandleIff(w: World, d: Settings, l: Link, request: Packet, k: nat)
    ensures LosesHandleAt(w, d, l, request, k) <==> LostAt(d.retries, Answers(w, d, l, request), k)
  {
    hide Left, ReadLosesHandle, Send;
    var s, l' := Answers(w, d, l, request), Send(w, l, request).link;
    if 11 * d.retries > 0 {
      StreamLost(w, d.model, d.retries, l', [], 11 * d.retries, 0);
    }
    if k < |s| {
      StreamLost(w, d.model, d.retries, l', [], 11 * d.retries, k);
    }
  }

  /** run throws DeviceNotConnected exactly when the handle is lost, in sending or in one of the recvs it comes to. */
  lemma NotConnectedIff(w: World, d: Settings, l: Link, c: ErrorCounters, request: Packet)
    ensures Exchanged(w, d, l, c, request).outcome == NotConnected <==>
            || SendLosesHandle(w, l, 2)
            || (WasSent(w, l, request) && exists k: nat :: LosesHandleAt(w, d, l, request, k))
  {
    SendThrowsIff(w, l, request);
    hide Converse, Send, Answers, Closing, Conclude, SendLosesHandle, LosesHandleAt, LostAt;
    if WasSent(w, l, request) {
      var s, t := Answers(w, d, l, request), Converse(w, d.model, d.retries, Send(w, l, request).link, []).replies;
      AnswersConsumed(w, d, l, request);
      LostIff(d.retries, s, t);
      forall k: nat ensures LosesHandleAt(w, d, l, request, k) <==> LostAt(d.retries, s, k) {
        LosesHandleIff(w, d, l, request, k);
      }
    }
  }

  /** It throws the sending failure exactly when the handle is not lost in sending and nothing has been sent. */
  lemma SendingFailureIff(w: World, d: Settings, l: Link, c: ErrorCounters, request: Packet)
    ensures Exchanged(w, d, l, c, request).outcome == SendingFailure <==>
            !SendLosesHandle(w, l, 2) && !WasSent(w, l, request)
  {
    SendThrowsIff(w, l, request);
    hide Converse, Send, SendLosesHandle;
  }

  /** On a device without a handle nothing is sent, read, opened or closed; the run is counted, but no sending error. */
  lemma WithoutHandle(w: World, d: Settings, l: Link, c: ErrorCounters, request: Packet)
    requires l.handle == None
    ensures var e := Exchanged(w, d, l, c, request);
            && e.outcome == NotConnected && e.link == l && e.slept == 0 && e.commandStatus == None
            && e.counters == c.(totalCommRuns := c.totalCommRuns + 1, sendsExecuted := c.sendsExecuted + 1,
                                lowLevelReconnect := l.reconnects)
  {
  }

  // ---------- Exhaustion ----------

  /** The device's answers use up all retries, and the last of them has been read with a zero CRC field. */
  ghost predicate GaveUpWithoutCrc(w: World, d: Settings, l: Link, request: Packet) {
    exists n: nat :: GivesUpAt(d.retries, Answers(w, d, l, request), n)
  }

  /** Without one the run fails, in InvalidCrcReceived exactly if the retries end on a read answer with a zero CRC field. */
  lemma RunExhausted(w: World, d: Settings, l: Link, c: ErrorCounters, request: Packet)
    requires WasSent(w, l, request)
    requires forall k: nat :: FirstStop(Answers(w, d, l, request), k) ==>
               Left(d.retries, Answers(w, d, l, request)[..k]) <= 0
    ensures Exchanged(w, d, l, c, request).outcome
         == if GaveUpWithoutCrc(w, d, l, request) then InvalidCrcReceived else ReceivingFailure
  {
    hide Converse, Send, Answers, Closing, Conclude, FirstStop, Left, GivesUpAt;
    var t := Converse(w, d.model, d.retries, Send(w, l, request).link, []).replies;
    AnswersConsumed(w, d, l, request);
    ExhaustedVerdict(d.retries, Answers(w, d, l, request), t);
    NoStaleAcceptance(d.model, d.retries, t);
    GivesUpIff(d.retries, Answers(w, d, l, request), t);
  }

  lemma InvalidCrcIff(w: World, d: Settings, l: Link, c: ErrorCounters, request: Packet)
    ensures Exchanged(w, d, l, c, request).outcome == InvalidCrcReceived <==>
            WasSent(w, l, request) && GaveUpWithoutCrc(w, d, l, request)
  {
    hide Converse, Send, Answers, Closing, Conclude, Left, GivesUpAt;
    if WasSent(w, l, request) {
      var t := Converse(w, d.model, d.retries, Send(w, l, request).link, []).replies;
      AnswersConsumed(w, d, l, request);
      NoStaleAcceptance(d.model, d.retries, t);
      GivesUpIff(d.retries, Answers(w, d, l, request), t);
    }
  }

  // ---------- Answers that do not help ----------

  /** A device that answers every read with the same report. */
  function RepeatingWorld(p: Packet): World {
    World(_ => 65, _ => ReadResult(65, p), _ => true)
  }

  /** As long as that is not acceptable, every run on it fails, and the CRC field alone decides how. */
  lemma RepeatedRejection(d: Settings, l: Link, c: ErrorCounters, request: Packet, p: Packet)
    requires d.retries > 0 && l.handle.Some? && !IsAcceptable(Translate(d.model, p))
    ensures WasSent(RepeatingWorld(p), l, request)
    ensures Exchanged(RepeatingWorld(p), d, l, c, request).outcome
         == if HasCrc(p) then ReceivingFailure else InvalidCrcReceived
  {
    var w := RepeatingWorld(p);
    var l' := Send(w, l, request).link;
    assert WasSent(w, l, request) && l'.handle.Some?;
    RepeatedReplies(w, d, l', [], p);
    AnswersConsumed(w, d, l, request);
    var t := Converse(w, d.model, d.retries, l', []).replies;
    hide Converse, Send, Closing, Counted;
    assert t != [] ==> Last(t) in t;
    TranslateKeepsCrc(d.model, p);
    hide Translate;
  }

  lemma TranslateKeepsCrc(model: DeviceModel, p: Packet)
    ensures HasCrc(Translate(model, p)) == HasCrc(p)
  {
  }

  lemma {:induction false} RepeatedReplies(w: World, d: Settings, l: Link, t: seq<Reply>, p: Packet)
    requires w == RepeatingWorld(p) && l.handle.Some?
    requires forall r :: r in t ==> r == Reply(65, Translate(d.model, p))
    ensures forall r :: r in Converse(w, d.model, d.retries, l, t).replies ==> r == Reply(65, Translate(d.model, p))
    decreases Remaining(d.retries, t)
  {
    hide Remaining, FinalBuffer, Translate;
    if !Finished(d.retries, t) {
      var turn := NextTurn(w, d.model, d.retries, l, FinalBuffer(t));
      RemainingStep(d.retries, t, turn.reply);
      RepeatedReplies(w, d, turn.link, t + [turn.reply], p);
    }
  }

  /** For instance a Storage that stays in state 5, 7 or 8: its answers are in order otherwise, and yet every run fails. */
  lemma StuckStorageFails(d: Settings, l: Link, c: ErrorCounters, request: Packet, p: Packet)
    requires d.retries > 0 && l.handle.Some?
    requires IsStorageCommand(d.model, p) && StorageStatus(p) !in {0, 1, 3, 4, 6} && HasCrc(p)
    ensures WasSent(RepeatingWorld(p), l, request)
    ensures Exchanged(RepeatingWorld(p), d, l, c, request).outcome == ReceivingFailure
  {
    StorageStatuses(d.model, p);
    hide *;
    RepeatedRejection(d, l, c, request, p);
  }

  /** A device whose answers are not ready until read number first + retries, the last that is permitted. */
  function LateWorld(first: nat, retries: nat): World {
    World(_ => 65, n => ReadResult(65, if n + 1 < first + retries then Zeroed() else GoodReport()), _ => true)
  }

  function GoodReport(): Packet {
    Zeroed()[CRC_OFFSET := 1]
  }

  /** The last report a run reads is acceptable and of status 0, and it fails all the same. */
  lemma AcceptableTooLate(d: Settings, l: Link, c: ErrorCounters, request: Packet)
    requires d.retries > 0 && l.handle.Some?
    ensures var w := LateWorld(l.usb.gets, d.retries);
            var e := Exchanged(w, d, l, c, request);
            var n := e.link.usb.gets;
            && WasSent(w, l, request)
            && n > l.usb.gets && w.get(n - 1) == ReadResult(65, GoodReport())
            && IsAcceptable(Translate(d.model, GoodReport())) && CommandStatus(Translate(d.model, GoodReport())) == 0
            && e.outcome == ReceivingFailure
  {
    var w := LateWorld(l.usb.gets, d.retries);
    var s := Send(w, l, request);
    assert s.io == Returned(65) && s.link.handle.Some? && s.link.usb.gets == l.usb.gets;
    LateReplies(w, d.model, l.usb.gets, d.retries, s.link, []);
    hide Converse;
  }

  predicate AllZero(t: seq<Reply>) {
    forall k :: 0 <= k < |t| ==> t[k] == Reply(65, Zeroed())
  }

  lemma {:induction false} LateReplies(
    w: World, model: DeviceModel, first: nat, retries: nat, l: Link, t: seq<Reply>)
    requires w == LateWorld(first, retries) && l.handle.Some? && l.usb.gets == first + |t|
    requires AllZero(t) && |t| < retries
    ensures var v := Converse(w, model, retries, l, t);
            && v.link.usb.gets == first + retries
            && Conclude(retries, v.replies) == ReceivingFailure
    decreases retries - |t|
  {
    ZerosCount(t);
    var turn := NextTurn(w, model, retries, l, FinalBuffer(t));
    ConverseStep(w, model, retries, l, t);
    if |t| + 1 < retries {
      LateReplies(w, model, first, retries, turn.link, t + [turn.reply]);
    } else {
      assert turn.reply == Reply(65, GoodReport());
      CounterStep(retries, t, turn.reply);
      ConverseStopped(w, model, retries, turn.link, t + [turn.reply]);
    }
  }

  lemma {:induction false} ZerosCount(t: seq<Reply>)
    requires AllZero(t)
    ensures Busies(t) == 0 && (t == [] || !Stops(Last(t)))
  {
    if t != [] {
      ZerosCount(Init(t));
    }
  }

  /** p is the translation of a report read by one of the calls from first up to last. */
  predicate ReadBetween(w: World, model: DeviceModel, first: nat, last: nat, p: Packet) {
    exists n: nat :: first <= n < last && w.get(n).status > 0 && p == Translate(model, w.get(n).data)
  }

  /** The outcome is what the report p says. */
  predicate Reports(p: Packet, o: Outcome) {
    match o
    case Completed(response) => p == response
    case CommandFailed(id, status) => CommandId(p) == id && CommandStatus(p) == status != 0
    case LongOperation(id, status, progress) =>
      IsLongOperation(p) && CommandId(p) == id && DeviceStatus(p) == status && Progress(p) == progress
    case InvalidCrcReceived => !HasCrc(p)
    case _ => false
  }

  /** A response, a failed command, a long operation and, with any retries at all, a zero CRC field were really read in this run. */
  lemma OutcomeWasRead(w: World, d: Settings, l: Link, c: ErrorCounters, request: Packet)
    ensures var e := Exchanged(w, d, l, c, request);
            e.outcome in {NotConnected, SendingFailure, ReceivingFailure}
            || (e.outcome == InvalidCrcReceived && d.retries == 0)
            || exists p :: ReadBetween(w, d.model, l.usb.gets, e.link.usb.gets, p) && Reports(p, e.outcome)
  {
    hide Closing, Counted, ReadBetween, Converse, Conclude, Reports, Finished, Underway, Chained;
    SendEffects(w, l, request, 3, -1);
    var s := Send(w, l, request);
    hide Send, SendRest;
    if s.io.Returned? && s.io.status > 0 {
      AnswersConsumed(w, d, l, request);
      LastReplyWasRead(w, d.model, d.retries, s.link, []);
      var v := Converse(w, d.model, d.retries, s.link, []);
      ConcludeReports(d.retries, v.replies);
      if v.replies != [] && Last(v.replies).Reply? && Last(v.replies).status > 0 {
        assert ReadBetween(w, d.model, l.usb.gets, v.link.usb.gets, Last(v.replies).packet);
      }
    }
  }

  lemma ConcludeReports(retries: nat, t: seq<Reply>)
    requires Finished(retries, t)
    ensures var o := Conclude(retries, t);
            o in {NotConnected, SendingFailure, ReceivingFailure}
            || (o == InvalidCrcReceived && t == [] && retries == 0)
            || (t != [] && Last(t).Reply? && Last(t).status > 0 && Reports(Last(t).packet, o))
  {
  }

  /** A run the device has answered, with data or with a status, leaves the connection open. */
  lemma AnsweredStaysOpen(w: World, d: Settings, l: Link, c: ErrorCounters, request: Packet)
    requires var o := Exchanged(w, d, l, c, request).outcome; o.Completed? || o.CommandFailed? || o.LongOperation?
    ensures Exchanged(w, d, l, c, request).link.handle.Some?
  {
    hide Converse, Closing, Counted, ReadBetween;
    LastReplyWasRead(w, d.model, d.retries, Send(w, l, request).link, []);
  }

  lemma {:induction false} LastReplyWasRead(w: World, model: DeviceModel, retries: nat, l: Link, t: seq<Reply>)
    ensures var c := Converse(w, model, retries, l, t);
            && l.usb.gets <= c.link.usb.gets
            && t <= c.replies
            && (|c.replies| == |t| ==> c.link == l)
            && (|c.replies| > |t| && Last(c.replies).Reply? && Last(c.replies).status > 0 ==>
                  && c.link.handle.Some?
                  && ReadBetween(w, model, l.usb.gets, c.link.usb.gets, Last(c.replies).packet))
    decreases Remaining(retries, t)
  {
    hide FinalBuffer, Translate, Left, BusyCounter, Stops, Remaining;
    if !Finished(retries, t) {
      var turn := NextTurn(w, model, retries, l, FinalBuffer(t));
      RemainingStep(retries, t, turn.reply);
      ReceiveEffects(w, l, FinalBuffer(t), retries, 0);
      LastReplyWasRead(w, model, retries, turn.link, t + [turn.reply]);
      if turn.reply.Reply? && turn.reply.status > 0 {
        var n := turn.link.usb.gets - 1;
        assert w.get(n).status > 0 && turn.reply.packet == Translate(model, w.get(n).data);
      }
    }
  }

  // ---------- Cost ----------

  /** One run transmits its request at most once, and nothing else. */
  lemma RunSendsOnce(w: World, d: Settings, l: Link, c: ErrorCounters, request: Packet)
    ensures var e := Exchanged(w, d, l, c, request);
            && e.link.usb.sent == (if WasSent(w, l, request) then l.usb.sent + [request] else l.usb.sent)
            && (e.outcome !in {NotConnected, SendingFailure} ==> WasSent(w, l, request))
  {
    var l' := Send(w, l, request).link;
    SendEffects(w, l, request, 3, -1);
    assert Underway(d.retries, []) && Chained(d.model, []);
    hide Converse, SendRest, Conclude, Closing, Counted;
    ConverseIsRun(w, d.model, d.retries, l', []);
  }

  /** The two nested retry loops together: at most 11 * R * (R + 1) feature-report reads for one request. */
  lemma RunReadBound(w: World, d: Settings, l: Link, c: ErrorCounters, request: Packet)
    ensures Exchanged(w, d, l, c, request).link.usb.gets <= l.usb.gets + 11 * d.retries * (d.retries + 1)
  {
    hide Converse, Conclude, Closing, Counted, SendRest, BackoffTotal;
    SendEffects(w, l, request, 3, -1);
    ReadBound(w, d.model, d.retries, Send(w, l, request).link);
  }

  /** A device that is busy once, after some failed reads, and is never heard of again. */
  ghost function SilentBusyWorld(first: nat, retries: nat, busy: Packet): World {
    World(_ => 65, n => if n == first + retries then ReadResult(65, busy) else ReadResult(-1, busy), _ => true)
  }

  function BusyReport(): Packet {
    Zeroed()[1 := 1]
  }

  /** The bound is exact: for any device, on any open connection, some world makes one run read exactly that often. */
  lemma ReadBoundReached(d: Settings, l: Link, c: ErrorCounters, request: Packet)
    requires l.handle.Some?
    ensures var w := SilentBusyWorld(l.usb.gets, d.retries, BusyReport());
            Exchanged(w, d, l, c, request).link.usb.gets == l.usb.gets + 11 * d.retries * (d.retries + 1)
  {
    var w := SilentBusyWorld(l.usb.gets, d.retries, BusyReport());
    var s := Send(w, l, request);
    assert s.io == Returned(65) && s.link.handle.Some? && s.link.usb.gets == l.usb.gets;
    SilentlyBusy(w, d.model, l.usb.gets, d.retries, BusyReport(), s.link, []);
    hide Converse;
  }

  predicate AllBusy(t: seq<Reply>, busy: Packet) {
    forall k :: 0 <= k < |t| ==> t[k].Reply? && t[k].packet == busy
  }

  lemma {:induction false} SilentlyBusy(
    w: World, model: DeviceModel, first: nat, retries: nat, busy: Packet, l: Link, t: seq<Reply>)
    requires w == SilentBusyWorld(first, retries, busy)
    requires IsBusy(busy) && StorageStatus(busy) != 4 && Translate(model, busy) == busy
    requires AllBusy(t, busy) && |t| <= 11 * retries
    requires l.handle.Some? && l.usb.gets == first + |t| * (retries + 1)
    ensures Converse(w, model, retries, l, t).link.usb.gets == first + 11 * retries * (retries + 1)
    decreases 11 * retries - |t|
  {
    BusyCountsAll(t, busy);
    if |t| < 11 * retries {
      SilentRead(w, model, first, retries, busy, l, t);
      var turn := NextTurn(w, model, retries, l, FinalBuffer(t));
      ConverseStep(w, model, retries, l, t);
      OneMore(|t|, retries + 1);
      SilentlyBusy(w, model, first, retries, busy, turn.link, t + [turn.reply]);
    }
  }

  lemma {:induction false} BusyCountsAll(t: seq<Reply>, busy: Packet)
    requires AllBusy(t, busy) && IsBusy(busy) && StorageStatus(busy) != 4
    ensures Busies(t) == |t| && (t == [] || !Stops(Last(t)))
  {
    if t != [] {
      BusyCountsAll(Init(t), busy);
    }
  }

  lemma SilentRead(w: World, model: DeviceModel, first: nat, retries: nat, busy: Packet, l: Link, t: seq<Reply>)
    requires w == SilentBusyWorld(first, retries, busy) && Translate(model, busy) == busy
    requires l.handle.Some? && l.usb.gets == first + |t| * (retries + 1) && AllBusy(t, busy)
    ensures var turn := NextTurn(w, model, retries, l, FinalBuffer(t));
            && turn.reply.Reply? && turn.reply.packet == busy
            && turn.link.handle.Some? && turn.link.usb.gets == l.usb.gets + retries + 1
  {
    if t != [] {
      assert l.usb.gets >= first + retries + 1;
    }
    AllReadsFail(w, l, FinalBuffer(t), retries, 0);
  }

  /** A recv all of whose reads but possibly the last fail uses all its retries. */
  lemma {:induction false} AllReadsFail(w: World, l: Link, buffer: Packet, retries: nat, failed: nat)
    requires failed <= retries && l.handle.Some?
    requires forall n: nat :: w.open(n)
    requires forall n: nat :: l.usb.gets <= n < l.usb.gets + retries - failed ==> w.get(n).status <= 0
    ensures var r := ReceiveRest(w, l, buffer, retries, failed);
            var last := w.get(l.usb.gets + retries - failed);
            && r.io == Returned(last.status)
            && r.buffer == (if last.status > 0 then last.data else buffer)
            && r.link.handle.Some?
            && r.link.usb.gets == l.usb.gets + retries - failed + 1
    decreases retries - failed
  {
    if failed < retries {
      var l' := l.(usb := l.usb.(gets := l.usb.gets + 1));
      AllReadsFail(w, Reconnected(w, l'), buffer, retries, failed + 1);
    }
  }

  /**
   All the time one run sleeps: before the first recv, between the replies, and inside recv after each of its at
   most R reconnects.
   */
  lemma RunSleepBound(w: World, d: Settings, l: Link, c: ErrorCounters, request: Packet)
    ensures 0 <= Exchanged(w, d, l, c, request).slept <=
            d.sendReceiveDelay + 11 * d.retries * LongestDelay(d.retryTimeout) + d.retryTimeout * (11 * d.retries * d.retries)
  {
    var l' := Send(w, l, request).link;
    var v := Converse(w, d.model, d.retries, l', []);
    AnswersConsumed(w, d, l, request);
    SleepBound(d.retries, d.retryTimeout, v.replies);
    assert Underway(d.retries, []) && Chained(d.model, []);
    ConverseIsRun(w, d.model, d.retries, l', []);
    ReceiveBound(d.retries, v.replies);
    hide Converse, Send, Conclude, Closing, Counted, LongestDelay, BackoffTotal, Underway, Chained;
    TimesMonotone(|v.replies|, 11 * d.retries, d.retries);
    PauseBound(d.retryTimeout, l'.reconnects, v.link.reconnects, 11 * d.retries * d.retries);
  }

  /** A run whose request is sent sleeps before its first recv, after each rejected reply, and after each reconnect. */
  lemma RunSleeps(w: World, d: Settings, l: Link, c: ErrorCounters, request: Packet)
    requires WasSent(w, l, request)
    ensures var e, t := Exchanged(w, d, l, c, request), Seen(w, d, l, request);
            && e.slept == d.sendReceiveDelay + BackoffTotal(d.retryTimeout, t)
                          + Paused(d.retryTimeout, Send(w, l, request).link.reconnects, e.link.reconnects)
            && BackoffTotal(d.retryTimeout, t) >= Rejections(t) * Min(d.retryTimeout, 300)
            && (Busies(t) == 0 ==> BackoffTotal(d.retryTimeout, t) == Rejections(t) * d.retryTimeout)
  {
    BackoffTotalAtLeast(d.retryTimeout, Seen(w, d, l, request));
    hide Converse, Send, Conclude, Closing, Counted, BackoffTotal, Busies, Rejections, CrcErrors, Paused;
  }

  lemma {:induction false} BackoffTotalAtLeast(initial: nat, t: seq<Reply>)
    ensures BackoffTotal(initial, t) >= Rejections(t) * Min(initial, 300)
    ensures Busies(t) == 0 ==> BackoffTotal(initial, t) == Rejections(t) * initial
  {
    if t != [] {
      BackoffTotalAtLeast(initial, Init(t));
      BackoffAtLeast(initial, Busies(t));
      OneMore(Rejections(Init(t)), Min(initial, 300));
      OneMore(Rejections(Init(t)), initial);
    }
  }

  lemma BackoffAtLeast(initial: nat, busies: nat)
    ensures Backoff(initial, busies) >= Min(initial, 300)
    ensures busies < 11 ==> Backoff(initial, busies) == initial
  {
    if busies >= 11 {
      TwoPositive(busies / 11);
      TimesMonotone(1, Power(2, busies / 11), initial);
    }
  }

  lemma {:induction false} TwoPositive(n: nat)
    ensures Power(2, n) > 0
  {
    if n > 0 {
      TwoPositive(n - 1);
    }
  }

  lemma PauseBound(timeout: nat, before: nat, after: nat, n: nat)
    requires before <= after <= before + n
    ensures 0 <= Paused(timeout, before, after) <= timeout * n
  {
    assert timeout * n - timeout * (after - before) == timeout * (n - (after - before));
  }

  /** One run leaves every other device's handle alone and never overwrites an open one. */
  lemma RunKeepsOthers(w: World, d: Settings, l: Link, c: ErrorCounters, request: Packet)
    requires Owns(l)
    ensures KeepsOthers(l, Exchanged(w, d, l, c, request).link)
  {
    var l' := Send(w, l, request).link;
    SendKeepsOthers(w, l, request, 3, -1);
    ConverseKeepsOthers(w, d.model, d.retries, l', []);
    KeepsOthersTransitive(l, l', Converse(w, d.model, d.retries, l', []).link);
  }

  // ---------- Statistics over any sequence of runs ----------

  datatype Session = Session(link: Link, counters: ErrorCounters)

  /** A device used for any requests one after the other, whether the runs succeed or throw. */
  function AfterRuns(w: World, d: Settings, s: Session, requests: seq<Packet>): Session
    decreases |requests|
  {
    if requests == [] then s
    else
      var e := Exchanged(w, d, s.link, s.counters, requests[0]);
      AfterRuns(w, d, Session(e.link, e.counters), requests[1..])
  }

  /** The replies a run gets to see. */
  function Seen(w: World, d: Settings, l: Link, request: Packet): seq<Reply> {
    if WasSent(w, l, request) then Converse(w, d.model, d.retries, Send(w, l, request).link, []).replies else []
  }

  function One(b: bool): nat {
    if b then 1 else 0
  }

  /** What one run adds to each counter: by how it ends, and by the replies it has seen. */
  lemma RunCounts(w: World, d: Settings, l: Link, c: ErrorCounters, request: Packet)
    ensures var e := Exchanged(w, d, l, c, request);
            var o, t := e.outcome, Seen(w, d, l, request);
            && e.counters.totalCommRuns == c.totalCommRuns + 1
            && e.counters.sendsExecuted == c.sendsExecuted + 1
            && e.counters.sendingError == c.sendingError + One(o == SendingFailure)
            && e.counters.receivingError
               == c.receivingError + One(o == ReceivingFailure && t != [] && Last(t).status <= 0)
            && e.counters.communicationSuccessful == c.communicationSuccessful + One(o.Completed? || o.CommandFailed?)
            && e.counters.commandSuccessfulRecv == c.commandSuccessfulRecv + One(o.Completed?)
            && e.counters.commandResultNotEqual0Recv == c.commandResultNotEqual0Recv + One(o.CommandFailed?)
            && e.counters.busyProgressbar == c.busyProgressbar + One(o.LongOperation?)
            && e.counters.successfulStorageCommands
               == c.successfulStorageCommands
                  + One(o.Completed? && d.model == STORAGE && 0x20 <= CommandId(o.response) < 0x60)
            && e.counters.lowLevelReconnect == e.link.reconnects
            && e.counters.recvExecuted == c.recvExecuted + |t|
            && e.counters.busy == c.busy + |Where(t, r => IsBusyReply(r))|
            && e.counters.totalRetries == c.totalRetries + |Where(t, r => !Stops(r))|
            && e.counters.wrongCrc == c.wrongCrc + |Where(t, r => !Stops(r) && !IsCrcCorrect(r.packet))|
  {
    var t := Seen(w, d, l, request);
    BusiesCount(t);
    RejectionsCount(t);
    hide Converse, Send, Where, IsCrcCorrect, Busies, Rejections, CrcErrors;
    assert t == [] ==> Busies(t) == 0 && Rejections(t) == 0 && CrcErrors(t) == 0 by { NothingSeen(); }
  }

  lemma NothingSeen()
    ensures Busies([]) == 0 && Rejections([]) == 0 && CrcErrors([]) == 0
  {
  }

  /** The command status a run leaves behind for its device. */
  lemma RunStatus(w: World, d: Settings, l: Link, c: ErrorCounters, request: Packet)
    ensures var e := Exchanged(w, d, l, c, request);
            match e.outcome
            case Completed(_) => e.commandStatus == Some(0)
            case CommandFailed(_, status) => e.commandStatus == Some(status)
            case NotConnected => e.commandStatus == None
            case SendingFailure => e.commandStatus == None
            case _ => e.commandStatus.Some?
  {
    hide Converse, Send, Closing, Counted, BackoffTotal;
  }

  lemma RunConserves(w: World, d: Settings, l: Link, c: ErrorCounters, request: Packet)
    requires Conserved(c)
    ensures Conserved(Exchanged(w, d, l, c, request).counters)
  {
    hide Converse, Send, Counted, Closing, Conclude;
    ConservedByReplies(c, d.model, d.retries, Converse(w, d.model, d.retries, Send(w, l, request).link, []).replies);
  }

  /** The counter identities hold after every sequence of runs, and each run was counted once. */
  lemma {:induction false} StatisticsConserved(w: World, d: Settings, s: Session, requests: seq<Packet>)
    requires Conserved(s.counters)
    ensures Conserved(AfterRuns(w, d, s, requests).counters)
    ensures AfterRuns(w, d, s, requests).counters.totalCommRuns == s.counters.totalCommRuns + |requests|
    decreases |requests|
  {
    hide Conserved, Converse, Send, Conclude;
    if requests != [] {
      var e := Exchanged(w, d, s.link, s.counters, requests[0]);
      RunConserves(w, d, s.link, s.counters, requests[0]);
      StatisticsConserved(w, d, Session(e.link, e.counters), requests[1..]);
    }
  }

  lemma FreshDeviceConserved()
    ensures Conserved(ZERO_COUNTERS)
  {
  }

  /** A newly constructed device, whatever it has been used for. */
  lemma NewDeviceConserved(w: World, d: Settings, l: Link, requests: seq<Packet>)
    ensures var c := AfterRuns(w, d, Session(l, ZERO_COUNTERS), requests).counters;
            Conserved(c) && c.totalCommRuns == |requests|
  {
    FreshDeviceConserved();
    hide Conserved, AfterRuns;
    StatisticsConserved(w, d, Session(l, ZERO_COUNTERS), requests);
  }
}
