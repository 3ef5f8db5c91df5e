/** Device connections: Device::send, recv, _reconnect, connect and disconnect (device.cc). */
module Device {
  import opened Bytes
  import opened Packet
  import opened Replies
  import opened Usb
  import Locks

  /** Device::ErrorCounters */
  datatype ErrorCounters = ErrorCounters(
    wrongCrc: nat, busy: nat, totalRetries: nat, sendingError: nat, receivingError: nat, totalCommRuns: nat,
    successfulStorageCommands: nat, commandSuccessfulRecv: nat, recvExecuted: nat, sendsExecuted: nat,
    busyProgressbar: nat, commandResultNotEqual0Recv: nat, communicationSuccessful: nat, lowLevelReconnect: nat)

  const ZERO_COUNTERS := ErrorCounters(0, 0, 0, 0, 0, 0, 0, 0, 0, 0, 0, 0, 0, 0)

  /**
   hidapi, which is called with mex_dev_com held only, what all devices share, the time slept, and what the thread has done to the mutexes. Its n-th
   transaction goes by the number numbering(n), which may be chosen to differ from those of any other thread.
   */
  class Host {
    const world: World
    const numbering: nat -> nat
    var usb: UsbState
    var instances: int
    var defaultDelay: nat
    var slept: nat
    var runs: nat
    var trace: Locks.Program

    constructor (world: World, numbering: nat -> nat)
      ensures this.world == world && this.numbering == numbering
      ensures instances == 0 && defaultDelay == 0 && slept == 0 && runs == 0 && trace == []
      ensures usb == UsbState(0, 0, 0, {}, 0, 0, [])
    {
      this.world, this.numbering := world, numbering;
      usb := UsbState(0, 0, 0, {}, 0, 0, []);
      instances, defaultDelay, slept, runs, trace := 0, 0, 0, 0, [];
    }

    method Lock(m: Locks.Mutex)
      modifies this`trace
      ensures trace == old(trace) + [Locks.Acquire(m)]
    {
      trace := trace + [Locks.Acquire(m)];
    }

    /** A lock_guard goes out of scope. */
    method Unlock(m: Locks.Mutex)
      modifies this`trace
      ensures trace == old(trace) + [Locks.Release(m)]
    {
      trace := trace + [Locks.Release(m)];
    }

    /** The number of the transaction in progress. */
    function Transaction(): nat
      reads this`runs
    {
      numbering(runs)
    }

    /** A call of Device::send or Device::recv */
    method Record(e: Locks.Event)
      modifies this`trace
      ensures trace == old(trace) + [Locks.Emit(e)]
    {
      trace := trace + [Locks.Emit(e)];
    }

    method HidOpen() returns (handle: Option<nat>)
      requires Locks.Holds(trace, Locks.DEVICE_COM)
      modifies this`usb
      ensures var l := Link(old(usb), None, 0, 0);
              usb == Opened(world, l).usb && handle == Opened(world, l).handle
    {
      if world.open(usb.opens) {
        handle := Some(usb.opens);
        usb := usb.(opens := usb.opens + 1, open := usb.open + {usb.opens});
      } else {
        handle := None;
        usb := usb.(opens := usb.opens + 1);
      }
    }

    method HidClose(handle: nat)
      requires Locks.Holds(trace, Locks.DEVICE_COM)
      modifies this`usb
      ensures usb == old(usb).(open := old(usb.open) - {handle})
    {
      usb := usb.(open := usb.open - {handle});
    }

    method HidExit()
      requires Locks.Holds(trace, Locks.DEVICE_COM)
      modifies this`usb
      ensures usb == old(usb).(
                exits := old(usb.exits) + 1,
                rashExits := old(usb.rashExits) + (if old(usb.open) != {} then 1 else 0))
    {
      usb := usb.(exits := usb.exits + 1, rashExits := usb.rashExits + (if usb.open != {} then 1 else 0));
    }

    method HidSendFeatureReport(packet: array<byte>) returns (r: int)
      requires Locks.Holds(trace, Locks.DEVICE_COM)
      requires packet.Length == HID_REPORT_SIZE
      modifies this`usb
      ensures r == world.send(old(usb.sends))
      ensures usb == old(usb).(sends := old(usb.sends) + 1,
                               sent := if r > 0 then old(usb.sent) + [packet[..]] else old(usb.sent))
    {
      r := world.send(usb.sends);
      usb := usb.(sends := usb.sends + 1, sent := if r > 0 then usb.sent + [packet[..]] else usb.sent);
    }

    /** A read that fails leaves the buffer untouched. */
    method HidGetFeatureReport(packet: array<byte>) returns (r: int)
      requires Locks.Holds(trace, Locks.DEVICE_COM)
      requires packet.Length == HID_REPORT_SIZE
      modifies this`usb, packet
      ensures r == world.get(old(usb.gets)).status
      ensures usb == old(usb).(gets := old(usb.gets) + 1)
      ensures packet[..] == if r > 0 then world.get(old(usb.gets)).data else old(packet[..])
    {
      var result := world.get(usb.gets);
      r := result.status;
      if r > 0 {
        for i := 0 to HID_REPORT_SIZE
          modifies packet
          invariant forall k :: 0 <= k < i ==> packet[k] == result.data[k]
        {
          packet[i] := result.data[i];
        }
        assert packet[..] == result.data;
      }
      usb := usb.(gets := usb.gets + 1);
    }
  }

  class Device {
    const host: Host
    const model: DeviceModel
    const retrySendingCount: nat
    const retryReceivingCount: nat
    var retryTimeout: nat
    var sendReceiveDelay: nat
    var handle: Option<nat>
    var path: string
    var counters: ErrorCounters
    var lastCommandStatus: byte

    /** Everything connection operations work on. */
    ghost function Connection(): Link
      reads this`handle, this`counters, host`usb, host`instances
    {
      Link(host.usb, handle, host.instances, counters.lowLevelReconnect)
    }

    constructor (host: Host, model: DeviceModel, sendReceiveDelay: nat, retryReceivingCount: nat, retryTimeout: nat)
      modifies host`instances
      ensures this.host == host && this.model == model && this.retryReceivingCount == retryReceivingCount
      ensures this.sendReceiveDelay == sendReceiveDelay && this.retryTimeout == retryTimeout
      ensures retrySendingCount == 1 && handle == None && path == ""
      ensures counters == ZERO_COUNTERS && lastCommandStatus == 0
      ensures host.instances == old(host.instances) + 1
    {
      this.host, this.model := host, model;
      this.sendReceiveDelay, this.retryReceivingCount, this.retryTimeout :=
        sendReceiveDelay, retryReceivingCount, retryTimeout;
      retrySendingCount, handle, path, counters, lastCommandStatus := 1, None, "", ZERO_COUNTERS, 0;
      new;
      host.instances := host.instances + 1;
    }

    method SetPath(path: string)
      modifies this`path
      ensures this.path == path
    {
      this.path := path;
    }

    /** get_last_command_status: reading the status clears it. */
    method GetLastCommandStatus() returns (status: byte)
      modifies this`lastCommandStatus
      ensures status == old(lastCommandStatus) && lastCommandStatus == 0
    {
      status, lastCommandStatus := lastCommandStatus, 0;
    }

    /** set_default_device_speed's delay, if one has been set, takes the place of both of the device's own. */
    method SetDefaultDelay()
      modifies this`retryTimeout, this`sendReceiveDelay
      ensures if host.defaultDelay == 0
              then retryTimeout == old(retryTimeout) && sendReceiveDelay == old(sendReceiveDelay)
              else retryTimeout == sendReceiveDelay == host.defaultDelay
    {
      if host.defaultDelay != 0 {
        retryTimeout, sendReceiveDelay := host.defaultDelay, host.defaultDelay;
      }
    }

    method SetReceivingDelay(delay: nat)
      modifies this`sendReceiveDelay, host`trace
      ensures sendReceiveDelay == delay
      ensures host.trace == old(host.trace) + Locks.CallProgram(Locks.DeviceCall)
    {
      host.Lock(Locks.DEVICE_COM);
      sendReceiveDelay := delay;
      host.Unlock(Locks.DEVICE_COM);
    }

    method SetRetryDelay(delay: nat)
      modifies this`retryTimeout, host`trace
      ensures retryTimeout == delay
      ensures host.trace == old(host.trace) + Locks.CallProgram(Locks.DeviceCall)
    {
      host.Lock(Locks.DEVICE_COM);
      retryTimeout := delay;
      host.Unlock(Locks.DEVICE_COM);
    }

    /** could_be_enumerated(): enumerable says whether hid_enumerate lists a device with the ids of this one. */
    method CouldBeEnumerated(enumerable: bool) returns (listed: bool)
      modifies host`trace
      ensures listed == (handle.Some? && enumerable)
      ensures host.trace == old(host.trace) + Locks.CallProgram(Locks.DeviceCall)
    {
      host.Lock(Locks.DEVICE_COM);
      listed := if handle == None then false else enumerable;
      host.Unlock(Locks.DEVICE_COM);
    }

    /** connect() */
    method Connect() returns (success: bool)
      modifies this`handle, host`usb, host`trace
      ensures Connection() == Opened(host.world, old(Connection()))
      ensures success == handle.Some?
      ensures host.trace == old(host.trace) + Locks.CallProgram(Locks.DeviceCall)
    {
      host.Lock(Locks.DEVICE_COM);
      Locks.HoldsStep(old(host.trace), Locks.Acquire(Locks.DEVICE_COM), Locks.DEVICE_COM);
      success := ConnectLocked();
      host.Unlock(Locks.DEVICE_COM);
    }

    /** _connect() */
    method ConnectLocked() returns (success: bool)
      requires Locks.Holds(host.trace, Locks.DEVICE_COM)
      modifies this`handle, host`usb
      ensures Connection() == Opened(host.world, old(Connection()))
      ensures success == handle.Some?
    {
      handle := host.HidOpen();
      success := handle.Some?;
    }

    /** disconnect() */
    method Disconnect() returns (closed: bool)
      modifies this`handle, host`usb, host`trace
      ensures Connection() == Closed(old(Connection()))
      ensures closed == old(handle).Some?
      ensures host.trace == old(host.trace) + Locks.CallProgram(Locks.DeviceCall)
    {
      host.Lock(Locks.DEVICE_COM);
      Locks.HoldsStep(old(host.trace), Locks.Acquire(Locks.DEVICE_COM), Locks.DEVICE_COM);
      closed := DisconnectLocked();
      host.Unlock(Locks.DEVICE_COM);
    }

    /** _disconnect() */
    method DisconnectLocked() returns (closed: bool)
      requires Locks.Holds(host.trace, Locks.DEVICE_COM)
      modifies this`handle, host`usb
      ensures Connection() == Closed(old(Connection()))
      ensures closed == old(handle).Some?
    {
      if handle == None {
        return false;
      }
      host.HidClose(handle.value);
      handle := None;
      if host.instances == 1 {
        host.HidExit();
      }
      return true;
    }

    /** _reconnect() */
    method Reconnect()
      requires Locks.Holds(host.trace, Locks.DEVICE_COM)
      modifies this`handle, this`counters, host`usb
      ensures Connection() == Reconnected(host.world, old(Connection()))
      ensures counters == old(counters).(lowLevelReconnect := old(counters.lowLevelReconnect) + 1)
    {
      counters := counters.(lowLevelReconnect := counters.lowLevelReconnect + 1);
      var _ := DisconnectLocked();
      var _ := ConnectLocked();
    }

    /** send() */
    method Send(packet: array<byte>) returns (io: Io)
      requires packet.Length == HID_REPORT_SIZE
      modifies this`handle, this`counters, host`usb, host`trace
      ensures Sending(io, Connection()) == Usb.Send(host.world, old(Connection()), old(packet[..]))
      ensures counters == old(counters).(lowLevelReconnect := counters.lowLevelReconnect)
      ensures host.trace == old(host.trace) + Locks.Guarded(Locks.SendEvent(host.Transaction()))
    {
      hide Usb.Send, Locks.Holds;
      host.Lock(Locks.DEVICE_COM);
      Locks.HoldsStep(old(host.trace), Locks.Acquire(Locks.DEVICE_COM), Locks.DEVICE_COM);
      Locks.HoldsStep(host.trace, Locks.Emit(Locks.SendEvent(host.Transaction())), Locks.DEVICE_COM);
      host.Record(Locks.SendEvent(host.Transaction()));
      io := SendLocked(packet);
      host.Unlock(Locks.DEVICE_COM);
    }

    /** Up to three attempts, reconnecting after each failed one. */
    method SendLocked(packet: array<byte>) returns (io: Io)
      requires Locks.Holds(host.trace, Locks.DEVICE_COM)
      requires packet.Length == HID_REPORT_SIZE
      modifies this`handle, this`counters, host`usb
      ensures Sending(io, Connection()) == Usb.Send(host.world, old(Connection()), old(packet[..]))
      ensures counters == old(counters).(lowLevelReconnect := counters.lowLevelReconnect)
    {
      hide Reconnected, Locks.Holds;
      var sendFeatureReport := -1;
      var i := 0;
      while i < 3 && sendFeatureReport < 0
        invariant 0 <= i <= 3
        invariant SendRest(host.world, Connection(), packet[..], 3 - i, sendFeatureReport)
               == Usb.Send(host.world, old(Connection()), packet[..])
        invariant counters == old(counters).(lowLevelReconnect := counters.lowLevelReconnect)
      {
        if handle == None {
          return Thrown;
        }
        SendAgain(host.world, Connection(), packet[..], 3 - i, sendFeatureReport);
        sendFeatureReport := host.HidSendFeatureReport(packet);
        if sendFeatureReport < 0 {
          Reconnect();
        }
        i := i + 1;
      }
      return Returned(sendFeatureReport);
    }

    /** recv() */
    method Recv(packet: array<byte>) returns (io: Io)
      requires packet.Length == HID_REPORT_SIZE
      modifies this`handle, this`counters, host`usb, host`slept, host`trace, packet
      ensures Receiving(io, packet[..], Connection())
           == Receive(host.world, old(Connection()), old(packet[..]), retryReceivingCount)
      ensures counters == old(counters).(lowLevelReconnect := counters.lowLevelReconnect)
      ensures host.slept == old(host.slept)
                          + Paused(retryTimeout, old(counters.lowLevelReconnect), counters.lowLevelReconnect)
      ensures host.trace == old(host.trace) + Locks.Guarded(Locks.RecvEvent(host.Transaction()))
    {
      hide Receive, Paused, Locks.Holds;
      host.Lock(Locks.DEVICE_COM);
      Locks.HoldsStep(old(host.trace), Locks.Acquire(Locks.DEVICE_COM), Locks.DEVICE_COM);
      Locks.HoldsStep(host.trace, Locks.Emit(Locks.RecvEvent(host.Transaction())), Locks.DEVICE_COM);
      host.Record(Locks.RecvEvent(host.Transaction()));
      io := RecvLocked(packet);
      host.Unlock(Locks.DEVICE_COM);
    }

    /** Reads until a report arrives or the retries are used up, reconnecting and pausing in between. */
    method RecvLocked(packet: array<byte>) returns (io: Io)
      requires Locks.Holds(host.trace, Locks.DEVICE_COM)
      requires packet.Length == HID_REPORT_SIZE
      modifies this`handle, this`counters, host`usb, host`slept, packet
      ensures Receiving(io, packet[..], Connection())
           == Receive(host.world, old(Connection()), old(packet[..]), retryReceivingCount)
      ensures counters == old(counters).(lowLevelReconnect := counters.lowLevelReconnect)
      ensures host.slept == old(host.slept)
                          + Paused(retryTimeout, old(counters.lowLevelReconnect), counters.lowLevelReconnect)
    {
      hide Paused, Reconnected, Locks.Holds;
      var status;
      var retryCount := 0;
      PausedOnce(retryTimeout, counters.lowLevelReconnect);
      while true
        invariant 0 <= retryCount <= retryReceivingCount
        invariant ReceiveRest(host.world, Connection(), packet[..], retryReceivingCount, retryCount)
               == Receive(host.world, old(Connection()), old(packet[..]), retryReceivingCount)
        invariant counters == old(counters).(lowLevelReconnect := counters.lowLevelReconnect)
        invariant host.slept == old(host.slept)
                              + Paused(retryTimeout, old(counters.lowLevelReconnect), counters.lowLevelReconnect)
        decreases retryReceivingCount - retryCount
      {
        if handle == None {
          return Thrown;
        }
        ghost var l := Connection();
        status := host.HidGetFeatureReport(packet);
        if status > 0 {
          break;
        }
        if retryCount >= retryReceivingCount {
          break;
        }
        ReceiveAgain(host.world, l, packet[..], retryReceivingCount, retryCount);
        retryCount := retryCount + 1;
        PausedOnce(retryTimeout, counters.lowLevelReconnect);
        PausedAdds(retryTimeout, old(counters.lowLevelReconnect), counters.lowLevelReconnect,
                   counters.lowLevelReconnect + 1);
        Reconnect();
        host.slept := host.slept + retryTimeout;
      }
      return Returned(status);
    }
  }
}
