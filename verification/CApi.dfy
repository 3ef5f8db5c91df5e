/** The status codes of the C interface (NK_C_API.cc). */
module CApi {
  import opened Bytes
  import opened Packet
  import opened Replies
  import opened Usb
  import opened Device
  import opened Transaction
  import opened RunProperties
  import Locks

  datatype CommunicationKind = NOT_CONNECTED | SENDING_FAILURE | RECEIVING_FAILURE | INVALID_CRC

  /** The exceptions a wrapper catches; LongOperationInProgressException is a CommandFailedException. */
  datatype Failure = Command(status: byte) | Library(id: byte) | Communication(kind: CommunicationKind)

  const TOO_LONG_STRING: byte := 200
  const INVALID_SLOT: byte := 201
  const INVALID_HEX_STRING: byte := 202
  const TARGET_BUFFER_TOO_SMALL: byte := 203

  /** What run throws, if anything. */
  function Thrown(o: Outcome): Option<Failure> {
    match o
    case Completed(_) => None
    case CommandFailed(_, status) => Some(Command(status))
    case LongOperation(_, deviceStatus, _) => Some(Command(deviceStatus))
    case NotConnected => Some(Communication(NOT_CONNECTED))
    case SendingFailure => Some(Communication(SENDING_FAILURE))
    case ReceivingFailure => Some(Communication(RECEIVING_FAILURE))
    case InvalidCrcReceived => Some(Communication(INVALID_CRC))
  }

  /** getType() through a reference to the base class: it is not virtual. */
  function BaseType(): byte { 1 }

  /** get_without_result */
  function CodeWithoutResult(f: Option<Failure>): byte {
    match f
    case None => 0
    case Some(Command(status)) => status
    case Some(Library(id)) => id
    case Some(Communication(INVALID_CRC)) => 0
    case Some(Communication(_)) => 256 - BaseType()
  }

  /** get_with_status */
  function CodeWithStatus(f: Option<Failure>): byte {
    match f
    case None => 0
    case Some(Command(status)) => status
    case Some(Library(id)) => id
    case Some(Communication(_)) => 256 - BaseType()
  }

  /** A step of a command: a check of the library's own, or a request to the device. */
  datatype Step = Check(rejected: Option<byte>) | Request(command: byte, payload: seq<byte>)

  predicate IsStep(s: Step) {
    match s
    case Check(rejected) => rejected.Some? ==> 200 <= rejected.value <= 203
    case Request(_, payload) => |payload| <= PAYLOAD_CAPACITY
  }

  datatype Performance = Performance(failure: Option<Failure>, session: Session)

  /** The steps of a command up to the first that throws. */
  function Perform(w: World, d: Settings, s: Session, steps: seq<Step>): Performance
    requires forall i :: 0 <= i < |steps| ==> IsStep(steps[i])
    decreases |steps|
  {
    if steps == [] then Performance(None, s)
    else
      assert IsStep(steps[0]);
      match steps[0]
      case Check(Some(id)) => Performance(Some(Library(id)), s)
      case Check(None) => Perform(w, d, s, steps[1..])
      case Request(command, payload) =>
        var e := Exchanged(w, d, s.link, s.counters, Outgoing(command, payload));
        var s' := Session(e.link, e.counters);
        if Thrown(e.outcome).Some? then Performance(Thrown(e.outcome), s') else Perform(w, d, s', steps[1..])
  }

  /** The same without a device: the first request throws DeviceNotConnected. */
  function WithoutDevice(steps: seq<Step>): Option<Failure> {
    if steps == [] then None
    else
      match steps[0]
      case Check(Some(id)) => Some(Library(id))
      case Check(None) => WithoutDevice(steps[1..])
      case Request(_, _) => Some(Communication(NOT_CONNECTED))
  }

  class CApi {
    var lastCommandStatus: byte

    constructor ()
      ensures lastCommandStatus == 0
    {
      lastCommandStatus := 0;
    }

    /** NK_get_last_command_status: reading clears. */
    method GetLastCommandStatus() returns (status: byte)
      modifies this
      ensures status == old(lastCommandStatus) && lastCommandStatus == 0
    {
      status := lastCommandStatus;
      lastCommandStatus := 0;
    }

    /** A void command through get_without_result, on the manager's current device if there is one. */
    method VoidCommand(host: Host, dev: Device?, steps: seq<Step>) returns (code: byte, ghost f: Option<Failure>)
      requires forall i :: 0 <= i < |steps| ==> IsStep(steps[i])
      requires dev != null ==> dev.retrySendingCount == 1 && dev.host == host
      modifies this, host`usb, host`slept, host`runs, host`trace
      modifies ModifiedBy(dev)`handle, ModifiedBy(dev)`counters, ModifiedBy(dev)`lastCommandStatus
      ensures Locks.Operating(old(host.trace), host.trace)
      ensures dev == null ==> f == WithoutDevice(steps)
      ensures dev != null ==>
                Performance(f, Session(dev.Connection(), dev.counters))
                == old(Perform(dev.host.world, SettingsOf(dev), Session(dev.Connection(), dev.counters), steps))
      ensures code == lastCommandStatus == CodeWithoutResult(f)
    {
      hide Locks.Operating;
      lastCommandStatus := 0;
      var failure := Execute(host, dev, steps);
      f := failure;
      match failure {
        case None => return 0, f;
        case Some(Command(status)) => lastCommandStatus := status;
        case Some(Library(id)) => lastCommandStatus := id;
        case Some(Communication(INVALID_CRC)) =>
        case Some(Communication(_)) => lastCommandStatus := 256 - BaseType();
      }
      return lastCommandStatus, f;
    }
  }

  method Execute(host: Host, dev: Device?, steps: seq<Step>) returns (failure: Option<Failure>)
    requires forall i :: 0 <= i < |steps| ==> IsStep(steps[i])
    requires dev != null ==> dev.retrySendingCount == 1 && dev.host == host
    modifies host`usb, host`slept, host`runs, host`trace
    modifies ModifiedBy(dev)`handle, ModifiedBy(dev)`counters, ModifiedBy(dev)`lastCommandStatus
    ensures Locks.Operating(old(host.trace), host.trace)
    ensures dev == null ==> failure == WithoutDevice(steps)
    ensures dev != null ==>
              Performance(failure, Session(dev.Connection(), dev.counters))
              == old(Perform(dev.host.world, SettingsOf(dev), Session(dev.Connection(), dev.counters), steps))
  {
    hide Exchanged, Outgoing, Locks.Operating;
    Locks.NoOperation(host.trace);
    for i := 0 to |steps|
      invariant Locks.Operating(old(host.trace), host.trace)
      invariant dev == null ==> WithoutDevice(steps[i..]) == WithoutDevice(steps)
      invariant dev != null ==>
                  && SettingsOf(dev) == old(SettingsOf(dev))
                  && Perform(dev.host.world, SettingsOf(dev), Session(dev.Connection(), dev.counters), steps[i..])
                     == old(Perform(dev.host.world, SettingsOf(dev), Session(dev.Connection(), dev.counters), steps))
    {
      assert steps[i..][0] == steps[i] && steps[i..][1..] == steps[i + 1..];
      match steps[i] {
        case Check(Some(id)) => return Some(Library(id));
        case Check(None) =>
        case Request(command, payload) =>
          var outcome;
          ghost var e, call;
          ghost var before := host.trace;
          outcome, e, call := Run(host, dev, command, payload);
          Locks.OneUnlocked(before, call);
          Locks.MoreOperations(old(host.trace), before, host.trace);
          if Thrown(outcome).Some? {
            return Thrown(outcome);
          }
      }
    }
    return None;
  }

  // ---------- What the codes mean ----------

  /** Storage-range responses carry one of three command statuses after translation. */
  lemma TranslatedStatus(model: DeviceModel, p: Packet)
    requires Translate(model, p) == p && IsStorageCommand(model, p)
    ensures CommandStatus(p) in {0, 4, 10}
  {
  }

  /** What a run can end in, for a device of this model. */
  predicate IsRunOutcome(model: DeviceModel, o: Outcome) {
    match o
    case LongOperation(_, deviceStatus, _) => deviceStatus == 1
    case CommandFailed(id, status) =>
      status != 0 && (model == STORAGE && 0x20 <= id < 0x60 ==> status in {4, 10})
    case _ => true
  }

  /** What a single run can throw. */
  lemma RunFailures(w: World, d: Settings, l: Link, c: ErrorCounters, request: Packet)
    ensures IsRunOutcome(d.model, Exchanged(w, d, l, c, request).outcome)
  {
    hide Converse, Send, Closing, Counted, Underway;
    AnswersConsumed(w, d, l, request);
    var t := Converse(w, d.model, d.retries, Send(w, l, request).link, []).replies;
    if t != [] && Last(t).Reply? && IsStorageCommand(d.model, Last(t).packet) {
      TranslatedStatus(d.model, Last(t).packet);
    }
  }

  /** The outcome of the request that ended a command, if one did. */
  function Ending(w: World, d: Settings, s: Session, steps: seq<Step>): Option<Outcome>
    requires forall i :: 0 <= i < |steps| ==> IsStep(steps[i])
    decreases |steps|
  {
    if steps == [] then None
    else
      assert IsStep(steps[0]);
      match steps[0]
      case Check(Some(_)) => None
      case Check(None) => Ending(w, d, s, steps[1..])
      case Request(command, payload) =>
        var e := Exchanged(w, d, s.link, s.counters, Outgoing(command, payload));
        if Thrown(e.outcome).Some? then Some(e.outcome) else Ending(w, d, Session(e.link, e.counters), steps[1..])
  }

  /** A command fails in a check of the library's own or in what its last request has thrown. */
  predicate IsFailure(model: DeviceModel, f: Option<Failure>, ending: Option<Outcome>) {
    match ending
    case Some(o) => f == Thrown(o) && f.Some? && IsRunOutcome(model, o)
    case None => f == None || (f.value.Library? && 200 <= f.value.id <= 203)
  }

  lemma {:induction false} PerformFailures(w: World, d: Settings, s: Session, steps: seq<Step>)
    requires forall i :: 0 <= i < |steps| ==> IsStep(steps[i])
    ensures IsFailure(d.model, Perform(w, d, s, steps).failure, Ending(w, d, s, steps))
    decreases |steps|
  {
    hide Exchanged, Outgoing;
    if steps != [] {
      assert IsStep(steps[0]);
      match steps[0]
      case Check(None) => PerformFailures(w, d, s, steps[1..]);
      case Check(Some(_)) =>
      case Request(command, payload) =>
        var e := Exchanged(w, d, s.link, s.counters, Outgoing(command, payload));
        RunFailures(w, d, s.link, s.counters, Outgoing(command, payload));
        PerformFailures(w, d, Session(e.link, e.counters), steps[1..]);
    }
  }

  /**
   The code of a void command of any number of requests: by the outcome of the one that ended it, or else 0 or the
   error of a check of the library's own.
   */
  lemma VoidCommandCode(w: World, d: Settings, s: Session, steps: seq<Step>)
    requires forall i :: 0 <= i < |steps| ==> IsStep(steps[i])
    ensures var f := Perform(w, d, s, steps).failure;
            var code := CodeWithoutResult(f);
            && (code == 0 <==> f == None || f == Some(Communication(INVALID_CRC)))
            && match Ending(w, d, s, steps)
               case None => code == 0 || 200 <= code <= 203
               case Some(LongOperation(_, _, _)) => code == 1
               case Some(CommandFailed(id, status)) =>
                 code == status && (d.model == STORAGE && 0x20 <= id < 0x60 ==> code in {4, 10})
               case Some(InvalidCrcReceived) => code == 0
               case Some(_) => code == 255
  {
    PerformFailures(w, d, s, steps);
    hide Perform, Ending;
    FailureCode(d.model, Perform(w, d, s, steps).failure, Ending(w, d, s, steps));
  }

  /** Without a device a void command returns 255, unless a check of the library's own fails first. */
  lemma {:induction false} WithoutDeviceCode(steps: seq<Step>)
    requires forall i :: 0 <= i < |steps| ==> IsStep(steps[i])
    ensures var f := WithoutDevice(steps);
            && (f == None <==> forall i :: 0 <= i < |steps| ==> steps[i] == Check(None))
            && (CodeWithoutResult(f) == 0 <==> f == None)
            && (f.Some? && !f.value.Library? ==> CodeWithoutResult(f) == 255)
  {
    if steps != [] {
      assert IsStep(steps[0]);
      if steps[0] == Check(None) {
        WithoutDeviceCode(steps[1..]);
        assert forall i :: 0 <= i < |steps| - 1 ==> steps[1..][i] == steps[i + 1];
        if WithoutDevice(steps) == None {
          forall i | 0 <= i < |steps| ensures steps[i] == Check(None) {
            assert i > 0 ==> steps[i] == steps[1..][i - 1];
          }
        }
      }
    }
  }

  lemma FailureCode(model: DeviceModel, f: Option<Failure>, ending: Option<Outcome>)
    requires IsFailure(model, f, ending)
    ensures var code := CodeWithoutResult(f);
            && (code == 0 <==> f == None || f == Some(Communication(INVALID_CRC)))
            && match ending
               case None => code == 0 || 200 <= code <= 203
               case Some(LongOperation(_, _, _)) => code == 1
               case Some(CommandFailed(id, status)) =>
                 code == status && (model == STORAGE && 0x20 <= id < 0x60 ==> code in {4, 10})
               case Some(InvalidCrcReceived) => code == 0
               case Some(_) => code == 255
  {
  }

  /** The codes of a command that is one request, by the way its run ends. */
  lemma SingleRunCode(w: World, d: Settings, s: Session, command: byte, payload: seq<byte>)
    requires |payload| <= PAYLOAD_CAPACITY
    ensures var outcome := Exchanged(w, d, s.link, s.counters, Outgoing(command, payload)).outcome;
            var code := CodeWithoutResult(Perform(w, d, s, [Request(command, payload)]).failure);
            && (code == 0 <==> outcome.Completed? || outcome == InvalidCrcReceived)
            && (outcome.LongOperation? ==> code == 1)
            && (outcome in {NotConnected, SendingFailure, ReceivingFailure} ==> code == 255)
            && (outcome.CommandFailed? ==> code == outcome.commandStatus)
            && (outcome.CommandFailed? && d.model == STORAGE && 0x20 <= outcome.commandId < 0x60 ==> code in {4, 10})
  {
    hide Exchanged, Outgoing;
    RunFailures(w, d, s.link, s.counters, Outgoing(command, payload));
  }

  /** get_with_status differs from get_without_result in exactly one case. */
  lemma WrappersDiffer(f: Option<Failure>)
    ensures CodeWithStatus(f) == CodeWithoutResult(f) <==> f != Some(Communication(INVALID_CRC))
    ensures f == Some(Communication(INVALID_CRC)) ==> CodeWithStatus(f) == 255 && CodeWithoutResult(f) == 0
  {
  }

  /** The device gave the answer the command waits for, in time. */
  ghost predicate Answered(w: World, d: Settings, l: Link, request: Packet) {
    exists k: nat, p: Packet :: CompletesAt(d.retries, Answers(w, d, l, request), k, p)
  }

  lemma AnsweredIff(w: World, d: Settings, l: Link, c: ErrorCounters, request: Packet)
    ensures Exchanged(w, d, l, c, request).outcome.Completed? <==> WasSent(w, l, request) && Answered(w, d, l, request)
  {
    hide Exchanged, Answers, CompletesAt;
    var o := Exchanged(w, d, l, c, request).outcome;
    if o.Completed? {
      RunCompletesIff(w, d, l, c, request, o.response);
    }
    if k: nat, p: Packet :| WasSent(w, l, request) && CompletesAt(d.retries, Answers(w, d, l, request), k, p) {
      RunCompletesIff(w, d, l, c, request, p);
    }
  }

  /** Every check passes, and every request is sent and gets its answer. */
  ghost predicate CarriedOut(w: World, d: Settings, s: Session, steps: seq<Step>)
    requires forall i :: 0 <= i < |steps| ==> IsStep(steps[i])
    decreases |steps|
  {
    if steps == [] then true
    else
      assert IsStep(steps[0]);
      match steps[0]
      case Check(rejected) => rejected == None && CarriedOut(w, d, s, steps[1..])
      case Request(command, payload) =>
        var request := Outgoing(command, payload);
        && WasSent(w, s.link, request) && Answered(w, d, s.link, request)
        && CarriedOut(w, d, After(w, d, s, request), steps[1..])
  }

  /** So it goes up to a request whose loop gives up after a report with a zero CRC field; nothing follows that. */
  ghost predicate StopsSilently(w: World, d: Settings, s: Session, steps: seq<Step>)
    requires forall i :: 0 <= i < |steps| ==> IsStep(steps[i])
    decreases |steps|
  {
    if steps == [] then false
    else
      assert IsStep(steps[0]);
      match steps[0]
      case Check(rejected) => rejected == None && StopsSilently(w, d, s, steps[1..])
      case Request(command, payload) =>
        var request := Outgoing(command, payload);
        && WasSent(w, s.link, request)
        && (GaveUpWithoutCrc(w, d, s.link, request)
            || (Answered(w, d, s.link, request) && StopsSilently(w, d, After(w, d, s, request), steps[1..])))
  }

  function After(w: World, d: Settings, s: Session, request: Packet): Session {
    var e := Exchanged(w, d, s.link, s.counters, request);
    Session(e.link, e.counters)
  }

  /**
   Code 0 is not a promise that a command was carried out: exactly when it was, and exactly when it was not and the
   code is 0 all the same. There is no third way to get 0.
   */
  lemma {:induction false} CodeZeroIff(w: World, d: Settings, s: Session, steps: seq<Step>)
    requires forall i :: 0 <= i < |steps| ==> IsStep(steps[i])
    ensures var f := Perform(w, d, s, steps).failure;
            && (f == None <==> CarriedOut(w, d, s, steps))
            && (f == Some(Communication(INVALID_CRC)) <==> StopsSilently(w, d, s, steps))
            && (CodeWithoutResult(f) == 0 <==> CarriedOut(w, d, s, steps) || StopsSilently(w, d, s, steps))
    decreases |steps|
  {
    hide Exchanged, Outgoing, Answered, GaveUpWithoutCrc, WasSent;
    if steps != [] {
      assert IsStep(steps[0]);
      match steps[0]
      case Check(Some(_)) =>
      case Check(None) => CodeZeroIff(w, d, s, steps[1..]);
      case Request(command, payload) =>
        var request := Outgoing(command, payload);
        RunFailures(w, d, s.link, s.counters, request);
        AnsweredIff(w, d, s.link, s.counters, request);
        InvalidCrcIff(w, d, s.link, s.counters, request);
        CodeZeroIff(w, d, After(w, d, s, request), steps[1..]);
    }
  }

  /** A request comes before any check that fails. */
  predicate Sends(steps: seq<Step>) {
    if steps == [] then false
    else
      match steps[0]
      case Check(rejected) => rejected == None && Sends(steps[1..])
      case Request(_, _) => true
  }

  /** For instance, with a device that answers every read with zeros, every void command that sends anything. */
  lemma {:induction false} ZeroAnswersReportSuccess(d: Settings, s: Session, steps: seq<Step>)
    requires forall i :: 0 <= i < |steps| ==> IsStep(steps[i])
    requires d.retries > 0 && s.link.handle.Some?
    ensures var w := RepeatingWorld(Zeroed());
            && (StopsSilently(w, d, s, steps) <==> Sends(steps))
            && (Sends(steps) ==> CodeWithoutResult(Perform(w, d, s, steps).failure) == 0 && !CarriedOut(w, d, s, steps))
    decreases |steps|
  {
    hide Exchanged, Outgoing, Answered, GaveUpWithoutCrc, WasSent;
    var w := RepeatingWorld(Zeroed());
    CodeZeroIff(w, d, s, steps);
    if steps != [] {
      assert IsStep(steps[0]);
      match steps[0]
      case Check(Some(_)) =>
      case Check(None) => ZeroAnswersReportSuccess(d, s, steps[1..]);
      case Request(command, payload) =>
        var request := Outgoing(command, payload);
        ZeroedRejected(d.model);
        RepeatedRejection(d, s.link, s.counters, request, Zeroed());
        InvalidCrcIff(w, d, s.link, s.counters, request);
    }
  }
}
