/**
 The receive loop of Transaction::run as a pure function of the replies it sees
 (libnitrokey/device_proto.h). A reply is the response buffer as it stands after one call of
 Device::recv and the in-place status translation, with the value recv returned.
 */
module Replies {
  import opened Bytes
  import opened Packet

  datatype DeviceModel = PRO | STORAGE | LIBREM

  /** What one turn of the receive loop leaves behind; Lost when recv threw DeviceNotConnected. */
  datatype Reply = Lost | Reply(status: int, packet: Packet)

  // ---------- Fields of a response ----------

  function DeviceStatus(p: Packet): byte { p[1] }
  function CommandId(p: Packet): byte { p[2] }
  function CommandStatus(p: Packet): byte { p[7] }
  function StorageStatus(p: Packet): byte { p[23] }
  function Progress(p: Packet): byte { p[24] }

  /** isValid: the CRC field is not zero. */
  predicate HasCrc(p: Packet) {
    p[61] != 0 || p[62] != 0 || p[63] != 0 || p[64] != 0
  }

  /** The parts of a response in the order they are sent; a Storage's status stands at position 21. */
  datatype Parts = Parts(
    zero: byte, deviceStatus: byte, commandId: byte, commandCrc: seq<byte>, commandStatus: byte, before: seq<byte>,
    counter: byte, storageCommand: byte, storageStatus: byte, progress: byte, after: seq<byte>, crc: seq<byte>)

  predicate ArePartsSized(r: Parts) {
    |r.commandCrc| == |r.crc| == 4 && |r.before| == 21 - 8 && |r.after| == HID_REPORT_SIZE - 25 - 4
  }

  function Encoded(r: Parts): Packet
    requires ArePartsSized(r)
  {
    [r.zero, r.deviceStatus, r.commandId] + r.commandCrc + [r.commandStatus] + r.before
    + [r.counter, r.storageCommand, r.storageStatus, r.progress] + r.after + r.crc
  }

  lemma ResponseLayout(r: Parts)
    requires ArePartsSized(r)
    ensures var p := Encoded(r);
            && DeviceStatus(p) == r.deviceStatus && CommandId(p) == r.commandId && CommandStatus(p) == r.commandStatus
            && StorageStatus(p) == r.storageStatus && Progress(p) == r.progress
            && (HasCrc(p) <==> r.crc != [0, 0, 0, 0])
  {
    var p := Encoded(r);
    assert p[61..] == r.crc;
    assert p[61] == r.crc[0] && p[62] == r.crc[1] && p[63] == r.crc[2] && p[64] == r.crc[3];
  }

  predicate IsBusy(p: Packet) { DeviceStatus(p) == 1 }

  /** A busy response that reports a progress bar. */
  predicate IsLongOperation(p: Packet) { IsBusy(p) && StorageStatus(p) == 4 }

  /** What ends the receive loop successfully. */
  predicate IsAcceptable(p: Packet) {
    (DeviceStatus(p) == 0 && HasCrc(p)) || IsLongOperation(p)
  }

  predicate IsStorageCommand(model: DeviceModel, p: Packet) {
    model == STORAGE && 0x20 <= CommandId(p) < 0x60
  }

  // ---------- Status translation ----------

  function TranslatedDeviceStatus(storageStatus: byte): byte {
    match storageStatus
    case 0 | 1 | 3 | 6 => 0
    case 2 | 4 => 1
    case other => other
  }

  function TranslatedCommandStatus(storageStatus: byte): byte {
    match storageStatus
    case 3 => 4
    case 6 => 10
    case _ => 0
  }

  function Translate(model: DeviceModel, p: Packet): Packet {
    if IsStorageCommand(model, p)
    then p[7 := TranslatedCommandStatus(StorageStatus(p))][1 := TranslatedDeviceStatus(StorageStatus(p))]
    else p
  }

  /** What is left alone: every report but a Storage's answer to a Storage command, and there all but two octets. */
  lemma TranslateScope(model: DeviceModel, p: Packet)
    ensures !(model == STORAGE && 0x20 <= p[2] < 0x60) ==> Translate(model, p) == p
    ensures forall i :: 0 <= i < |p| && i != 1 && i != 7 ==> Translate(model, p)[i] == p[i]
  {
  }

  lemma TranslateIdempotent(model: DeviceModel, p: Packet)
    ensures Translate(model, Translate(model, p)) == Translate(model, p)
  {
  }

  /** The cleared response buffer is left alone by the translation and is not acceptable. */
  lemma ZeroedRejected(model: DeviceModel)
    ensures Translate(model, Zeroed()) == Zeroed() && !IsAcceptable(Zeroed()) && !HasCrc(Zeroed())
  {
  }

  /**
   A Storage-range response is accepted in state 4, and in states 0, 1, 3 and 6 with a CRC field; never in state 2, 5,
   7, 8 or any unknown one; it is busy in states 2 and 4. Those that are plainly accepted have status 0, 4 or 10.
   */
  lemma StorageStatuses(model: DeviceModel, p: Packet)
    requires IsStorageCommand(model, p)
    ensures var t := Translate(model, p);
            && (IsAcceptable(t) <==> StorageStatus(p) == 4 || (StorageStatus(p) in {0, 1, 3, 6} && HasCrc(p)))
            && (IsBusy(t) <==> StorageStatus(p) in {2, 4})
            && (IsAcceptable(t) && !IsLongOperation(t) ==>
                  CommandStatus(t) == if StorageStatus(p) == 3 then 4 else if StorageStatus(p) == 6 then 10 else 0)
  {
  }

  // ---------- The loop ----------

  function Last<T>(t: seq<T>): T
    requires t != []
  {
    t[|t| - 1]
  }

  function Init<T>(t: seq<T>): seq<T>
    requires t != []
  {
    t[..|t| - 1]
  }

  predicate Stops(r: Reply) {
    r.Lost? || IsAcceptable(r.packet)
  }

  predicate IsBusyReply(r: Reply) {
    r.Reply? && IsBusy(r.packet)
  }

  function Busies(t: seq<Reply>): (n: nat)
    ensures n <= |t|
  {
    if t == [] then 0 else Busies(Init(t)) + (if IsBusyReply(Last(t)) then 1 else 0)
  }

  /** receiving_retry_counter at the loop head: every eleventh busy reply costs one, every other reply costs one. */
  function Left(retries: nat, t: seq<Reply>): int {
    retries - (|t| - Busies(t)) - Busies(t) / 11
  }

  /** busy_counter at the loop head. */
  function BusyCounter(t: seq<Reply>): (n: nat)
    ensures n <= 10
  {
    Busies(t) % 11
  }

  /** retry_timeout in milliseconds after a number of busy replies. */
  function Backoff(initial: nat, busies: nat): nat {
    if busies < 11 then initial else Min(initial * Power(2, busies / 11), 300)
  }

  /** Every reply before the last has been rejected while retries were left. */
  predicate Underway(retries: nat, t: seq<Reply>) {
    forall k :: 0 <= k < |t| ==> Left(retries, t[..k]) > 0 && (k + 1 < |t| ==> !Stops(t[k]))
  }

  /** t is all the receive loop gets to see: it was running up to here and stops now. */
  predicate Finished(retries: nat, t: seq<Reply>) {
    (t != [] && Stops(Last(t))) || Left(retries, t) <= 0
  }

  /** Time slept between rejected replies. */
  function BackoffTotal(initial: nat, t: seq<Reply>): nat {
    if t == [] then 0
    else BackoffTotal(initial, Init(t)) + (if Stops(Last(t)) then 0 else Backoff(initial, Busies(t)))
  }

  lemma BusiesStep(t: seq<Reply>, r: Reply)
    ensures Busies(t + [r]) == Busies(t) + (if IsBusyReply(r) then 1 else 0)
  {
    assert Init(t + [r]) == t;
  }

  /** One turn of the loop, as the code's two counters see it. */
  lemma CounterStep(retries: nat, t: seq<Reply>, r: Reply)
    ensures var refunded := IsBusyReply(r) && BusyCounter(t) < 10;
            && Left(retries, t + [r]) == (if refunded then Left(retries, t) else Left(retries, t) - 1)
            && BusyCounter(t + [r]) ==
               (if !IsBusyReply(r) then BusyCounter(t) else if refunded then BusyCounter(t) + 1 else 0)
  {
    BusiesStep(t, r);
  }

  /** The delay doubles, up to 300 ms, with every eleventh busy reply. */
  lemma BackoffStep(initial: nat, busies: nat)
    ensures Backoff(initial, busies + 1) ==
            if busies % 11 == 10 then Min(Backoff(initial, busies) * 2, 300) else Backoff(initial, busies)
  {
    var n := busies / 11;
    if busies % 11 == 10 {
      assert (busies + 1) / 11 == n + 1;
      assert initial * Power(2, n + 1) == initial * Power(2, n) * 2;
      if busies < 11 {
        assert n == 0 && initial * Power(2, 0) == initial;
      }
    } else {
      assert (busies + 1) / 11 == n;
    }
  }

  lemma DelayStep(initial: nat, t: seq<Reply>, r: Reply)
    ensures Backoff(initial, Busies(t + [r])) ==
            if IsBusyReply(r) && BusyCounter(t) == 10 then Min(Backoff(initial, Busies(t)) * 2, 300)
            else Backoff(initial, Busies(t))
  {
    BusiesStep(t, r);
    BackoffStep(initial, Busies(t));
  }

  lemma BackoffBounded(initial: nat, busies: nat)
    ensures Backoff(initial, busies) <= LongestDelay(initial)
  {
  }

  lemma {:induction false} LeftDecreases(retries: nat, t: seq<Reply>, k: nat)
    requires k <= |t|
    ensures Left(retries, t) <= Left(retries, t[..k])
    decreases |t|
  {
    if k == |t| {
      assert t[..k] == t;
    } else {
      LeftDecreases(retries, Init(t), k);
      assert Init(t)[..k] == t[..k];
      assert t == Init(t) + [Last(t)];
      CounterStep(retries, Init(t), Last(t));
    }
  }

  /** A loop that still runs has seen fewer than eleven replies per permitted retry. */
  lemma RunningBound(retries: nat, t: seq<Reply>)
    requires Left(retries, t) > 0
    ensures |t| + 10 * (|t| - Busies(t)) < 11 * retries
  {
  }

  /** However the device behaves, one run of the loop receives at most 11 * retries times. */
  lemma ReceiveBound(retries: nat, t: seq<Reply>)
    requires Underway(retries, t)
    ensures |t| <= 11 * retries
  {
    if t != [] {
      assert Left(retries, t[..|t| - 1]) > 0;
      RunningBound(retries, t[..|t| - 1]);
    }
  }

  /** The bound is met: a device that stays busy is asked exactly that often. */
  lemma {:induction false} AlwaysBusy(retries: nat, r: Reply, n: nat)
    requires IsBusyReply(r) && !Stops(r) && n <= 11 * retries
    ensures var t := seq(n, _ => r); Underway(retries, t) && Busies(t) == n
    ensures n == 11 * retries <==> Finished(retries, seq(n, _ => r))
  {
    var t := seq(n, _ => r);
    if n != 0 {
      var u := seq(n - 1, _ => r);
      AlwaysBusy(retries, r, n - 1);
      assert t == u + [r];
      BusiesStep(u, r);
      forall k | 0 <= k < n ensures Left(retries, t[..k]) > 0 {
        assert t[..k] == u[..k];
        if k == n - 1 { assert u[..k] == u; }
      }
    }
  }

  /** The longest delay the back-off can reach. */
  function LongestDelay(initial: nat): nat {
    if initial < 300 then 300 else initial
  }

  lemma {:induction false} BackoffTotalBounded(initial: nat, t: seq<Reply>)
    ensures BackoffTotal(initial, t) <= |t| * LongestDelay(initial)
  {
    if t != [] {
      BackoffTotalBounded(initial, Init(t));
      BackoffBounded(initial, Busies(t));
      OneMore(|t| - 1, LongestDelay(initial));
    }
  }

  /** Total time slept in one receive loop. */
  lemma SleepBound(retries: nat, initial: nat, t: seq<Reply>)
    requires Underway(retries, t)
    ensures BackoffTotal(initial, t) <= 11 * retries * LongestDelay(initial)
  {
    ReceiveBound(retries, t);
    BackoffTotalBounded(initial, t);
    TimesMonotone(|t|, 11 * retries, LongestDelay(initial));
  }

  lemma TimesMonotone(m: nat, n: nat, c: nat)
    requires m <= n
    ensures m * c <= n * c
  {
  }

  // ---------- How run ends ----------

  datatype Outcome =
    | Completed(response: Packet)
    | CommandFailed(commandId: byte, commandStatus: byte)
    | LongOperation(commandId: byte, deviceStatus: byte, progress: byte)
    | NotConnected
    | SendingFailure
    | ReceivingFailure
    | InvalidCrcReceived

  /** The response buffer after the loop. */
  function FinalBuffer(t: seq<Reply>): Packet {
    if t == [] || Last(t).Lost? then Zeroed() else Last(t).packet
  }

  /** receiving_retry_counter after the loop: the failing loop test decrements it once more. */
  function FinalCounter(retries: nat, t: seq<Reply>): int {
    if t != [] && Stops(Last(t)) then Left(retries, t) else -1
  }

  /** The ordered exits of run after a request has been sent with a positive status. */
  function Conclude(retries: nat, t: seq<Reply>): Outcome {
    var p := FinalBuffer(t);
    if t != [] && Last(t).Lost? then NotConnected
    else if t != [] && Last(t).status <= 0 then ReceivingFailure
    else if IsLongOperation(p) then LongOperation(CommandId(p), DeviceStatus(p), Progress(p))
    else if !HasCrc(p) then InvalidCrcReceived
    else if FinalCounter(retries, t) <= 0 then ReceivingFailure
    else if CommandStatus(p) != 0 then CommandFailed(CommandId(p), CommandStatus(p))
    else Completed(p)
  }

  /** s[k] is the first reply of a stream that stops the loop. */
  predicate FirstStop(s: seq<Reply>, k: nat) {
    k < |s| && Stops(s[k]) && forall j :: 0 <= j < k ==> !Stops(s[j])
  }

  lemma RejectedWhileRunning(retries: nat, t: seq<Reply>, k: nat)
    requires Underway(retries, t) && k + 1 < |t|
    ensures !Stops(t[k])
  {
    assert Left(retries, t[..k]) > 0;
  }

  /** A loop that sees a stopping reply at all sees the stream's first one, while retries are left. */
  lemma StopSeen(retries: nat, s: seq<Reply>, t: seq<Reply>, k: nat)
    requires t <= s && Underway(retries, t) && Finished(retries, t)
    requires FirstStop(s, k)
    ensures Left(retries, s[..k]) > 0 <==> t == s[..k + 1]
    ensures Left(retries, s[..k]) <= 0 ==> |t| <= k && (t == [] || !Stops(Last(t))) && Left(retries, t) <= 0
  {
    if |t| > k + 1 {
      RejectedWhileRunning(retries, t, k);
      assert false;
    } else if |t| == k + 1 {
      assert t[..k] == s[..k];
    } else {
      assert t == [] || Last(t) == s[|t| - 1];
      assert t == s[..k][..|t|];
      LeftDecreases(retries, s[..k], |t|);
    }
  }

  /** When no reply of the stream stops the loop, it runs out of retries. */
  lemma NeverStopped(retries: nat, s: seq<Reply>, t: seq<Reply>)
    requires t <= s && Underway(retries, t) && Finished(retries, t)
    ensures (t != [] && Stops(Last(t))) ==> FirstStop(s, |t| - 1)
  {
  }

  /** What a stopping reply means for run, with the retries left before it arrived. */
  function Verdict(left: int, r: Reply): Outcome
    requires Stops(r)
  {
    if r.Lost? then NotConnected
    else if r.status <= 0 then ReceivingFailure
    else if IsLongOperation(r.packet) then
      LongOperation(CommandId(r.packet), DeviceStatus(r.packet), Progress(r.packet))
    else if left < 2 then ReceivingFailure
    else if CommandStatus(r.packet) != 0 then CommandFailed(CommandId(r.packet), CommandStatus(r.packet))
    else Completed(r.packet)
  }

  /** The first stopping reply of a stream decides the outcome when it arrives in time. */
  lemma StoppedVerdict(retries: nat, s: seq<Reply>, t: seq<Reply>, k: nat)
    requires t <= s && Underway(retries, t) && Finished(retries, t)
    requires FirstStop(s, k) && Left(retries, s[..k]) > 0
    ensures Conclude(retries, t) == Verdict(Left(retries, s[..k]), s[k])
  {
    StopSeen(retries, s, t, k);
    assert Last(t) == s[k];
    StopCounts(retries, s, t);
  }

  /** Without one, run fails, and the last buffer's CRC field alone decides between the two failures. */
  lemma ExhaustedVerdict(retries: nat, s: seq<Reply>, t: seq<Reply>)
    requires t <= s && Underway(retries, t) && Finished(retries, t)
    requires forall k: nat :: FirstStop(s, k) ==> Left(retries, s[..k]) <= 0
    ensures Left(retries, t) <= 0 && (t == [] || !Stops(Last(t)))
    ensures Conclude(retries, t) ==
            if (t == [] || Last(t).status > 0) && !HasCrc(FinalBuffer(t)) then InvalidCrcReceived else ReceivingFailure
  {
    NeverStopped(retries, s, t);
    if t != [] && Stops(Last(t)) {
      StoppedInTime(retries, s, t);
      assert false;
    }
  }

  lemma StoppedInTime(retries: nat, s: seq<Reply>, t: seq<Reply>)
    requires t <= s && Underway(retries, t) && t != []
    ensures Left(retries, s[..|t| - 1]) > 0
  {
    assert s[..|t| - 1] == t[..|t| - 1];
  }

  /** The first n replies of a stream are rejected and use up all retries. */
  predicate ExhaustedAt(retries: nat, s: seq<Reply>, n: nat) {
    && n <= |s|
    && Left(retries, s[..n]) <= 0
    && (forall k :: 0 <= k < n ==> Left(retries, s[..k]) > 0 && !Stops(s[k]))
  }

  /** They do, and the last of them, if there is any, has been read with a zero CRC field. */
  predicate GivesUpAt(retries: nat, s: seq<Reply>, n: nat) {
    && ExhaustedAt(retries, s, n)
    && (n > 0 ==> s[n - 1].status > 0)
    && !HasCrc(FinalBuffer(s[..n]))
  }

  /** run ends in InvalidCRCReceived exactly when the device's replies use up all retries and leave a zero CRC field. */
  lemma GivesUpIff(retries: nat, s: seq<Reply>, t: seq<Reply>)
    requires t <= s && Underway(retries, t) && Finished(retries, t) && NoneAcceptedUnread(t)
    ensures Conclude(retries, t) == InvalidCrcReceived <==> exists n: nat :: GivesUpAt(retries, s, n)
  {
    assert s[..|t|] == t;
    if Conclude(retries, t) == InvalidCrcReceived {
      forall k | 0 <= k < |t| ensures Left(retries, s[..k]) > 0 && !Stops(s[k]) {
        assert s[..k] == t[..k] && s[k] == t[k];
      }
      assert GivesUpAt(retries, s, |t|);
    }
    if n: nat :| GivesUpAt(retries, s, n) {
      ExhaustionIsEnd(retries, s, t, n);
    }
  }

  /** What stops the loop without being lost is acceptable and has been read. */
  predicate NoneAcceptedUnread(t: seq<Reply>) {
    forall k :: 0 <= k < |t| && t[k].Reply? && IsAcceptable(t[k].packet) ==> t[k].status > 0
  }

  lemma ExhaustionIsEnd(retries: nat, s: seq<Reply>, t: seq<Reply>, n: nat)
    requires t <= s && Underway(retries, t) && Finished(retries, t) && ExhaustedAt(retries, s, n)
    ensures t == s[..n]
  {
    SamePrefix(s, t, n);
    if |t| != n {
      assert false;
    }
  }

  lemma SamePrefix(s: seq<Reply>, t: seq<Reply>, n: nat)
    requires t <= s && n <= |s|
    ensures n <= |t| ==> t[..n] == s[..n]
    ensures t == s[..|t|] && (t != [] ==> Last(t) == s[|t| - 1])
  {
  }

  predicate CompletesAt(retries: nat, s: seq<Reply>, k: nat, p: Packet) {
    && FirstStop(s, k)
    && Left(retries, s[..k]) >= 2
    && s[k].Reply?
    && s[k].status > 0
    && s[k].packet == p
    && !IsLongOperation(p)
    && CommandStatus(p) == 0
  }

  /**
   run returns normally exactly when the first reply that stops the loop is a plain acceptable one that was
   really read, has command status 0, and arrives while at least two retries are left.
   */
  lemma CompletedIff(retries: nat, s: seq<Reply>, t: seq<Reply>, p: Packet)
    requires t <= s && Underway(retries, t) && Finished(retries, t)
    ensures Conclude(retries, t) == Completed(p) <==> exists k: nat :: CompletesAt(retries, s, k, p)
  {
    if k: nat :| FirstStop(s, k) && Left(retries, s[..k]) > 0 {
      StoppedVerdict(retries, s, t, k);
      if Conclude(retries, t) == Completed(p) {
        assert CompletesAt(retries, s, k, p);
      }
    } else {
      ExhaustedVerdict(retries, s, t);
    }
  }

  /** The first reply that stops the loop is a recv that threw, while retries were left. */
  predicate LostAt(retries: nat, s: seq<Reply>, k: nat) {
    FirstStop(s, k) && Left(retries, s[..k]) > 0 && s[k].Lost?
  }

  lemma LostIff(retries: nat, s: seq<Reply>, t: seq<Reply>)
    requires t <= s && Underway(retries, t) && Finished(retries, t)
    ensures Conclude(retries, t) == NotConnected <==> exists k: nat :: LostAt(retries, s, k)
  {
    if k: nat :| FirstStop(s, k) && Left(retries, s[..k]) > 0 {
      StoppedVerdict(retries, s, t, k);
      if Conclude(retries, t) == NotConnected {
        assert LostAt(retries, s, k);
      }
    } else {
      ExhaustedVerdict(retries, s, t);
    }
  }

  // ---------- What the trace functions count ----------

  /** The positions of the replies of a kind. */
  ghost function Where(t: seq<Reply>, kind: Reply -> bool): set<nat> {
    set k: nat | k < |t| && kind(t[k])
  }

  lemma WhereStep(t: seq<Reply>, kind: Reply -> bool)
    requires t != []
    ensures |Where(t, kind)| == |Where(Init(t), kind)| + (if kind(Last(t)) then 1 else 0)
  {
    var init, all, n := Where(Init(t), kind), Where(t, kind), |t| - 1;
    forall k: nat ensures k in all <==> k in init || (k == n && kind(Last(t))) {
      assert k < n ==> t[k] == Init(t)[k];
    }
    assert all == if kind(Last(t)) then init + {n} else init;
  }

  lemma {:induction false} BusiesCount(t: seq<Reply>)
    ensures Busies(t) == |Where(t, r => IsBusyReply(r))|
  {
    if t != [] {
      BusiesCount(Init(t));
      WhereStep(t, r => IsBusyReply(r));
    }
  }

  /** An accepted reply that is not busy costs one of the retries left before it. */
  lemma StopCounts(retries: nat, s: seq<Reply>, t: seq<Reply>)
    requires t <= s && t != [] && Stops(Last(t))
    ensures Last(t).Reply? && !IsBusyReply(Last(t)) ==>
              FinalCounter(retries, t) == Left(retries, s[..|t| - 1]) - 1
  {
    assert s[..|t| - 1] == Init(t);
    assert t == Init(t) + [Last(t)];
    CounterStep(retries, Init(t), Last(t));
  }

  // ---------- Stale buffers ----------

  /** A failed read leaves the buffer as it was, and every buffer has been through the translation. */
  predicate Chained(model: DeviceModel, t: seq<Reply>) {
    forall k :: 0 <= k < |t| && t[k].Reply? ==>
      && (t[k].status <= 0 ==> t[k].packet == FinalBuffer(t[..k]))
      && Translate(model, t[k].packet) == t[k].packet
  }

  /** The loop never accepts on a failed read: a retained buffer is one it has already rejected. */
  lemma NoStaleAcceptance(model: DeviceModel, retries: nat, t: seq<Reply>)
    requires Chained(model, t) && Underway(retries, t)
    ensures NoneAcceptedUnread(t)
  {
    forall k | 0 <= k < |t| && t[k].Reply? && t[k].status <= 0 ensures !IsAcceptable(t[k].packet) {
      RetainedIsRejected(model, retries, t, k);
    }
  }

  lemma RetainedIsRejected(model: DeviceModel, retries: nat, t: seq<Reply>, k: nat)
    requires Chained(model, t) && Underway(retries, t)
    requires k < |t| && t[k].Reply? && t[k].status <= 0
    ensures !IsAcceptable(t[k].packet)
  {
    if k > 0 {
      RejectedWhileRunning(retries, t, k - 1);
      assert Last(t[..k]) == t[k - 1];
    }
  }

  /** So for the replies of a real device the outcome needs no look at the read status. */
  lemma AcceptedMeansRead(model: DeviceModel, retries: nat, t: seq<Reply>)
    requires Chained(model, t) && Underway(retries, t) && Finished(retries, t)
    requires t != [] && Last(t).Reply? && IsAcceptable(Last(t).packet)
    ensures Conclude(retries, t) !in {NotConnected, InvalidCrcReceived}
    ensures Conclude(retries, t) == ReceivingFailure <==> !IsLongOperation(Last(t).packet) && Left(retries, Init(t)) < 2
  {
    NoStaleAcceptance(model, retries, t);
    StopCounts(retries, t, t);
  }
}
