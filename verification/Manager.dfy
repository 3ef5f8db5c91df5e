/** The manager's devices and who holds which HID handle (NitrokeyManager.cc, device.cc). */
module Manager {
  import opened Bytes
  import opened Packet
  import opened Replies
  import opened Usb
  import opened Device
  import opened Transaction
  import opened RunProperties
  import opened Enumeration
  import Locks
  import Text

  /** How Stick10, Stick20 and LibremKey are set up while the default delay is this one, 0 meaning none. */
  function DefaultSettings(model: DeviceModel, delay: nat): Settings {
    var own := if model == STORAGE then Settings(STORAGE, 55, 40, 40) else Settings(model, 15, 100, 100);
    if delay == 0 then own else own.(retryTimeout := delay, sendReceiveDelay := delay)
  }

  ghost predicate IsNew(d: Device, model: DeviceModel, path: string)
    reads d`path, d`counters, d`retryTimeout, d`sendReceiveDelay, d.host`defaultDelay
  {
    d.path == path && d.counters == ZERO_COUNTERS && SettingsOf(d) == DefaultSettings(model, d.host.defaultDelay)
  }

  /** DeviceCommunicationException and what is derived from it. */
  predicate IsCommunicationFailure(o: Outcome) {
    o in {NotConnected, SendingFailure, ReceivingFailure, InvalidCrcReceived}
  }

  datatype Result = Answered(success: bool) | UnknownModel | Threw(outcome: Outcome)

  /** The first letter decides; a zero-terminated empty name has none of them. */
  function ModelNamed(name: string): Option<DeviceModel> {
    if name == "" then None
    else
      match name[0]
      case 'P' => Some(PRO)
      case 'S' => Some(STORAGE)
      case 'L' => Some(LIBREM)
      case _ => None
  }

  const MODELS: seq<DeviceModel> := [PRO, STORAGE, LIBREM]

  /** The last of k attempts to open a handle that succeeds, the first being attempt n. */
  function LastOpened(w: World, n: nat, k: nat): (last: Option<nat>)
    ensures last.Some? ==> last.value < k && w.open(n + last.value)
    ensures forall m :: n <= m < n + k && w.open(m) ==> last.Some? && m <= n + last.value
  {
    if k == 0 then None else if w.open(n + k - 1) then Some(k - 1) else LastOpened(w, n, k - 1)
  }

  datatype Opening = Opening(model: DeviceModel, handle: nat)

  /** The first vendor whose listing has a known device at path that can be opened, from attempt n on. */
  function FirstOpened(w: World, n: nat, enumerations: seq<seq<HidInfo>>, path: string): Option<Opening>
    decreases |enumerations|
  {
    if enumerations == [] then None
    else
      var model := ModelAt(enumerations[0], path);
      if model == None then FirstOpened(w, n, enumerations[1..], path)
      else if w.open(n) then Some(Opening(model.value, n))
      else FirstOpened(w, n + 1, enumerations[1..], path)
  }

  method FindModel(infos: seq<HidInfo>, path: string) returns (model: Option<DeviceModel>)
    ensures model == ModelAt(infos, path)
  {
    model := None;
    var i := 0;
    while i < |infos| && model == None
      invariant 0 <= i <= |infos|
      invariant ModelAt(infos, path) == if model == None then ModelAt(infos[i..], path) else model
    {
      if infos[i].path == path {
        model := ProductIdToModel(infos[i].vendorId, infos[i].productId);
      }
      i := i + 1;
    }
  }

  /** What is known of a registered device. */
  datatype Entry = Entry(model: DeviceModel, path: string, connected: bool)

  /** Every entry is a connected Storage device at one of the enumerated paths, under an identifier that names it. */
  ghost predicate AllListed(registry: map<string, Entry>, infos: seq<DeviceInfo>) {
    forall id :: id in registry ==>
      var e := registry[id];
      e.connected && e.model == STORAGE && IsNamed(id, e.path) && IsStorageAt(infos, e.path)
  }

  ghost predicate IsNamed(id: string, path: string) {
    exists o :: IdFor(o, path) == Some(id)
  }

  ghost predicate IsStorageAt(infos: seq<DeviceInfo>, path: string) {
    exists k :: 0 <= k < |infos| && infos[k].model == STORAGE && infos[k].path == path
  }

  lemma NothingListed(infos: seq<DeviceInfo>)
    ensures AllListed(map[], infos)
  {
  }

  lemma AnotherListed(registry: map<string, Entry>, infos: seq<DeviceInfo>, i: nat, id: string, o: Outcome)
    requires AllListed(registry, infos)
    requires i < |infos| && infos[i].model == STORAGE && IdFor(o, infos[i].path) == Some(id)
    ensures AllListed(registry[id := Entry(STORAGE, infos[i].path, true)], infos)
  {
  }

  /**
   A device looked at by list_devices_by_cpuID: the calls of hidapi made before its own hid_open, and the
   connection its status is asked on.
   */
  datatype Visit = Visit(path: string, before: Calls, link: Link, probe: Probe)

  /** GET_DEVICE_STATUS on a new Storage device. */
  function AskStatus(w: World, delay: nat, l: Link): Exchange {
    Exchanged(w, DefaultSettings(STORAGE, delay), l, ZERO_COUNTERS, Outgoing(GET_DEVICE_STATUS, []))
  }

  /** The visit went as hidapi and the device decided. */
  ghost predicate IsVisit(w: World, delay: nat, t: Visit) {
    match t.probe
    case NotOpened => !w.open(t.before.opens)
    case Probed(outcome) =>
      && w.open(t.before.opens) && t.link.handle == Some(t.before.opens) && t.link.reconnects == 0
      && CallsMade(t.link.usb) == t.before.(opens := t.before.opens + 1)
      && outcome == AskStatus(w, delay, t.link).outcome
  }

  /** The calls of hidapi made once the visit is over. */
  function Ended(w: World, delay: nat, t: Visit): Calls {
    match t.probe
    case NotOpened => t.before.(opens := t.before.opens + 1)
    case Probed(_) => CallsMade(AskStatus(w, delay, t.link).link.usb)
  }

  function EndedAll(w: World, delay: nat, first: Calls, visits: seq<Visit>): Calls {
    if visits == [] then first else Ended(w, delay, visits[|visits| - 1])
  }

  /** Each visit begins where the one before it has ended. */
  ghost predicate Consecutive(w: World, delay: nat, first: Calls, visits: seq<Visit>) {
    forall k :: 0 <= k < |visits| ==> visits[k].before == EndedAll(w, delay, first, visits[..k])
  }

  /** The last visit that found an open device. */
  function LastProbed(visits: seq<Visit>): Option<Visit> {
    if visits == [] then None
    else
      var last := visits[|visits| - 1];
      if last.probe.Probed? then Some(last) else LastProbed(visits[..|visits| - 1])
  }

  lemma NextVisit(w: World, delay: nat, first: Calls, visits: seq<Visit>, t: Visit)
    requires Consecutive(w, delay, first, visits) && t.before == EndedAll(w, delay, first, visits)
    ensures Consecutive(w, delay, first, visits + [t]) && EndedAll(w, delay, first, visits + [t]) == Ended(w, delay, t)
    ensures LastProbed(visits + [t]) == if t.probe.Probed? then Some(t) else LastProbed(visits)
  {
    var all := visits + [t];
    assert all[..|visits|] == visits;
    forall k | 0 <= k < |all| ensures all[k].before == EndedAll(w, delay, first, all[..k]) {
      assert k < |visits| ==> all[..k] == visits[..k];
    }
  }

  function Identifier(t: Visit): Option<string> {
    if t.probe.NotOpened? then None else IdFor(t.probe.outcome, t.path)
  }

  function Identifiers(visits: seq<Visit>): seq<string> {
    if visits == [] then []
    else
      var id := Identifier(visits[|visits| - 1]);
      Identifiers(visits[..|visits| - 1]) + (if id == None then [] else [id.value])
  }

  function Paths(visits: seq<Visit>): (paths: seq<string>)
    ensures |paths| == |visits|
  {
    seq(|visits|, i requires 0 <= i < |visits| => visits[i].path)
  }

  /** The paths of the Storage devices, in the order they are enumerated. */
  function StoragePaths(infos: seq<DeviceInfo>): seq<string> {
    if infos == [] then []
    else
      var last := infos[|infos| - 1];
      StoragePaths(infos[..|infos| - 1]) + (if last.model == STORAGE then [last.path] else [])
  }

  /** The listing ended with a command the device refused. */
  predicate EndsInFailure(visits: seq<Visit>, outcome: Outcome) {
    visits != [] && visits[|visits| - 1].probe == Probed(outcome) && outcome.CommandFailed?
  }

  lemma AnotherVisit(visits: seq<Visit>, infos: seq<DeviceInfo>, i: nat, t: Visit)
    requires i < |infos| && infos[i].model == STORAGE && t.path == infos[i].path
    requires Paths(visits) == StoragePaths(infos[..i])
    ensures Paths(visits + [t]) == StoragePaths(infos[..i + 1])
    ensures Identifiers(visits + [t]) == Identifiers(visits) + (if Identifier(t) == None then [] else [Identifier(t).value])
  {
    assert infos[..i + 1][..i] == infos[..i];
    assert (visits + [t])[..|visits|] == visits;
    assert Paths(visits + [t]) == Paths(visits) + [t.path];
  }

  lemma NothingVisited(infos: seq<DeviceInfo>)
    ensures Paths([]) == StoragePaths(infos[..0]) && Identifiers([]) == []
  {
  }

  lemma NoVisit(infos: seq<DeviceInfo>, i: nat)
    requires i < |infos| && infos[i].model != STORAGE
    ensures StoragePaths(infos[..i + 1]) == StoragePaths(infos[..i])
  {
    assert infos[..i + 1][..i] == infos[..i];
  }

  lemma {:induction false} StoragePathsPrefix(infos: seq<DeviceInfo>, n: nat)
    requires n <= |infos|
    ensures StoragePaths(infos[..n]) <= StoragePaths(infos)
    decreases |infos|
  {
    if n == |infos| {
      assert infos[..n] == infos;
    } else {
      var init := infos[..|infos| - 1];
      assert init[..n] == infos[..n];
      StoragePathsPrefix(init, n);
    }
  }

  datatype Request =
    | Connect
    | ConnectModel(name: string)
    | ConnectWithPath(path: string, enumerations: seq<seq<HidInfo>>)
    | ConnectWithId(id: string)
    | ListDevicesById(enumerated: seq<DeviceInfo>)
    | IsConnected(enumerable: bool)
    | Disconnect
    | SetDefaultCommandsDelay(delay: int)
    | SetCurrentDeviceSpeed(retryDelay: int, sendReceiveDelay: int)
    | Command(command: byte, payload: seq<byte>)

  predicate IsRequest(r: Request) {
    r.Command? ==> |r.payload| <= PAYLOAD_CAPACITY
  }

  datatype Probe = NotOpened | Probed(outcome: Outcome)

  /** The identifier a Storage device at path is registered under, after GET_DEVICE_STATUS has ended this way. */
  function IdFor(o: Outcome, path: string): Option<string> {
    match o
    case Completed(p) => Some(StatusId(p, path))
    case LongOperation(_, _, _) => Some(path)
    case _ => None
  }

  /** The smart card's and the SD card's number, ActiveSmartCardID_u32 and ActiveSD_CardID_u32, and the path. */
  function StatusId(p: Packet, path: string): string {
    Text.ToHex(FromLittleEndian(p[50..54])) + ":" + Text.ToHex(FromLittleEndian(p[42..46])) + "_p_" + path
  }

  /** What connect() finds. */
  datatype Start = Start(device: Device?, handle: Option<nat>, opens: nat)

  datatype Listing = Listed(ids: seq<string>) | ListingThrew(outcome: Outcome)

  class Manager {
    const host: Host
    var device: Device?
    var byId: map<string, Device>
    var currentId: string
    /** Every Device object there is: constructed and not yet destroyed. */
    ghost var live: set<Device>

    // ---------- Ownership ----------

    ghost function Handles(): set<nat>
      reads this`live, live`handle
    {
      set d | d in live && d.handle.Some? :: d.handle.value
    }

    /**
     Each open handle is held by exactly one live device, hid_exit was never called while one was open, and the
     statistics of all devices add up.
     */
    ghost predicate Sound()
      reads this`live, host`usb, host`instances, live`handle, live`counters
    {
      && host.instances == |live|
      && (forall d :: d in live ==> d.host == host && d.retrySendingCount == 1 && Conserved(d.counters))
      && (forall d, e :: d in live && e in live && d.handle.Some? && d.handle == e.handle ==> d == e)
      && host.usb.open == Handles()
      && (forall h :: h in host.usb.open ==> h < host.usb.opens)
      && host.usb.rashExits == 0
    }

    /** What the manager refers to; everything else has been destroyed. */
    function Roots(): set<Device>
      reads this`device, this`byId
    {
      Optional(device) + Registered()
    }

    function Registered(): set<Device>
      reads this`byId
    {
      byId.Values
    }

    ghost predicate Valid()
      reads this`device, this`byId, this`live, host`usb, host`instances, live`handle, live`counters
    {
      Sound() && live == Roots()
    }

    lemma SoundOwns(d: Device)
      requires Sound() && d in live
      ensures Owns(d.Connection()) && Conserved(d.counters)
    {
    }

    /** The handles of the other live devices. */
    ghost function OtherHandles(d: Device): set<nat>
      reads this`live, live`handle
    {
      set x | x in live && x != d && x.handle.Some? :: x.handle.value
    }

    twostate lemma OthersBefore(d: Device)
      requires old(Sound()) && d in old(live)
      ensures old(Others(d.Connection()) == OtherHandles(d))
      ensures old(host.instances) == 1 ==> old(OtherHandles(d)) == {}
    {
      if old(host.instances) == 1 {
        Singleton(old(live), d);
      }
    }

    /** Whatever one device does with its own connection, the handles stay in order. */
    twostate lemma StaysSound(d: Device)
      requires old(Sound()) && d in old(live) && live == old(live)
      requires KeepsOthers(old(d.Connection()), d.Connection())
      requires forall x :: x in live && x != d ==> x.handle == old(x.handle) && x.counters == old(x.counters)
      requires Conserved(d.counters)
      ensures Sound()
    {
      hide Conserved;
      var l, l' := old(d.Connection()), d.Connection();
      OthersBefore(d);
      assert OtherHandles(d) == old(OtherHandles(d));
      var own := if d.handle.Some? then {d.handle.value} else {};
      assert host.usb.open == Others(l') + own;
      assert Handles() == OtherHandles(d) + own;
    }

    constructor (host: Host)
      requires host.instances == 0 && host.usb.open == {} && host.usb.rashExits == 0
      ensures this.host == host && device == null && byId == map[] && currentId == "" && live == {}
      ensures Valid()
    {
      this.host, device, byId, currentId, live := host, null, map[], "", {};
    }

    // ---------- Locking ----------

    /** mex_dev_com_manager is taken; p is what had been done before. */
    method Enter() returns (ghost p: Locks.Program)
      modifies host`trace
      ensures p == old(host.trace) && Locks.Managing(p, host.trace)
    {
      p := host.trace;
      host.Lock(Locks.MANAGER);
      Locks.NoCall(host.trace);
    }

    /** The mutex is given up after some calls: that makes it one operation. */
    method Leave(ghost p: Locks.Program)
      requires Locks.Managing(p, host.trace)
      modifies host`trace
      ensures Locks.Operating(p, host.trace)
    {
      hide Locks.Calling, Locks.Managing, Locks.Operating, Locks.Holds;
      Locks.ManagedOperation(p, host.trace);
      host.Unlock(Locks.MANAGER);
    }

    // ---------- Lifetimes ----------

    /** make_shared<Stick10>(), <Stick20>() or <LibremKey>(), and set_path() */
    method Create(model: DeviceModel, path: string) returns (d: Device)
      requires Sound()
      modifies this`live, host`instances
      ensures Sound() && live == old(live) + {d}
      ensures fresh(d) && d.host == host && d.handle == None && IsNew(d, model, path)
      ensures host.instances == old(host.instances) + 1
    {
      hide Conserved, Sound;
      FreshDeviceConserved();
      var s := DefaultSettings(model, 0);
      d := new Device(host, model, s.sendReceiveDelay, s.retries, s.retryTimeout);
      d.SetDefaultDelay();
      d.SetPath(path);
      live := live + {d};
      OneMoreDevice(d);
    }

    /** A new device without a handle. */
    twostate lemma OneMoreDevice(new d: Device)
      requires old(Sound()) && d !in old(live) && live == old(live) + {d}
      requires d.host == host && d.retrySendingCount == 1 && Conserved(d.counters) && d.handle == None
      requires host.usb == old(host.usb) && host.instances == old(host.instances) + 1
      requires forall x :: x in old(live) ==> x.handle == old(x.handle) && x.counters == old(x.counters)
      ensures Sound()
    {
      hide Conserved;
      assert Handles() == old(Handles());
    }

    /** hidapi once d is destroyed. */
    ghost function UsbWithout(d: Device): UsbState
      reads host`usb, host`instances, d`handle, d`counters
    {
      Closed(Link(host.usb, d.handle, host.instances, d.counters.lowLevelReconnect)).usb
    }

    /** ~Device() */
    method Destroy(d: Device)
      requires Sound() && d in live
      modifies this`live, host`usb, host`trace, host`instances, d`handle
      ensures Locks.Calling(old(host.trace), host.trace)
      ensures Sound() && live == old(live) - {d}
      ensures d.handle == None && host.usb == old(UsbWithout(d)) && host.instances == old(host.instances) - 1
      ensures CallsMade(host.usb) == old(CallsMade(host.usb))
    {
      hide Locks.Calling;
      Locks.OneCall(host.trace, Locks.DeviceCall);
      SoundOwns(d);
      ClosedKeepsOthers(d.Connection());
      var _ := d.Disconnect();
      StaysSound(d);
      host.instances := host.instances - 1;
      live := live - {d};
    }

    /** A reference to d goes away: unless another one is left, in the manager or in held, d is destroyed. */
    method Release(d: Device, held: set<Device>)
      requires Sound() && live == Roots() + held + {d}
      modifies this`live, host`usb, host`trace, host`instances, d`handle
      ensures Locks.Calling(old(host.trace), host.trace)
      ensures Sound() && live == Roots() + held && live <= old(live)
      ensures if d in live
              then d.handle == old(d.handle) && host.usb == old(host.usb) && host.instances == old(host.instances)
              else d.handle == None && host.usb == old(UsbWithout(d)) && host.instances == old(host.instances) - 1
      ensures CallsMade(host.usb) == old(CallsMade(host.usb))
    {
      hide Locks.Calling;
      Locks.CallingOrder();
      hide Sound, Registered, UsbWithout;
      if d !in Roots() && d !in held {
        Destroy(d);
      }
    }

    /** connect() on a device that holds no handle. */
    method Open(d: Device) returns (success: bool)
      requires Sound() && d in live && d.handle == None
      modifies host`usb, host`trace, d`handle
      ensures Locks.Calling(old(host.trace), host.trace)
      ensures Sound()
      ensures d.Connection() == Opened(host.world, old(d.Connection()))
      ensures success == d.handle.Some?
    {
      hide Locks.Calling;
      Locks.OneCall(host.trace, Locks.DeviceCall);
      SoundOwns(d);
      OpenedKeepsOthers(host.world, d.Connection());
      success := d.Connect();
      StaysSound(d);
    }

    /** disconnect() */
    method Close(d: Device) returns (closed: bool)
      requires Sound() && d in live
      modifies host`usb, host`trace, d`handle
      ensures Locks.Calling(old(host.trace), host.trace)
      ensures Sound()
      ensures d.Connection() == Closed(old(d.Connection()))
      ensures closed == old(d.handle).Some?
    {
      hide Locks.Calling;
      Locks.OneCall(host.trace, Locks.DeviceCall);
      SoundOwns(d);
      ClosedKeepsOthers(d.Connection());
      closed := d.Disconnect();
      StaysSound(d);
    }

    static function Optional(d: Device?): set<Device> {
      if d == null then {} else {d}
    }

    /** device = d: the previous device loses a reference. */
    method Select(d: Device?, held: set<Device>)
      requires Sound() && live == Roots() + held && (d == null || d in held)
      modifies this`device, this`live, host`usb, host`trace, host`instances, Optional(device)`handle
      ensures Locks.Calling(old(host.trace), host.trace)
      ensures Sound() && live == Roots() + held && live <= old(live) && device == d
      ensures old(device) != null ==>
                old(device).handle == if old(device) in live then old(device.handle) else None
      ensures if old(device) == null || old(device) in live
              then host.usb == old(host.usb) && host.instances == old(host.instances)
              else host.usb == old(UsbWithout(device)) && host.instances == old(host.instances) - 1
      ensures CallsMade(host.usb) == old(CallsMade(host.usb))
    {
      hide Locks.Calling;
      Locks.CallingOrder();
      hide Sound, Handles, UsbWithout, Registered;
      var previous := device;
      device := d;
      if previous != null {
        Release(previous, held);
      }
    }

    lemma RootKept(d: Device)
      requires device == d
      ensures Roots() + {d} == Roots()
    {
    }

    lemma RootsMeaning()
      ensures Roots() == Optional(device) + Registered()
    {
    }

    lemma CurrentIsRoot()
      ensures device != null ==> device in Roots()
    {
    }

    lemma RootsAreLive()
      requires Valid()
      ensures Optional(device) + Registered() <= live && forall id :: RegisteredAs(id) <= live
    {
    }

    lemma CurrentIsLive()
      requires Valid()
      ensures device != null ==> device in live && device.host == host
    {
    }

    /** A command on the current device. */
    method Run(command: byte, payload: seq<byte>) returns (outcome: Outcome)
      requires Sound() && (device != null ==> device in live) && |payload| <= PAYLOAD_CAPACITY
      modifies host`usb, host`slept, host`runs, host`trace
      modifies Optional(device)`handle, Optional(device)`counters, Optional(device)`lastCommandStatus
      ensures Locks.Calling(old(host.trace), host.trace)
      ensures Sound()
      ensures device == null ==> outcome == NotConnected && host.usb == old(host.usb)
      ensures device != null ==>
                var e := old(Exchanged(host.world, SettingsOf(device), device.Connection(), device.counters,
                                       Outgoing(command, payload)));
                outcome == e.outcome && device.Connection() == e.link
    {
      hide Locks.Calling, Exchanged, Outgoing, KeepsOthers, Owns, Conserved;
      if device != null {
        SoundOwns(device);
        RunKeepsOthers(host.world, SettingsOf(device), device.Connection(), device.counters,
                       Outgoing(command, payload));
        RunConserves(host.world, SettingsOf(device), device.Connection(), device.counters,
                     Outgoing(command, payload));
        assert device.host == host && device.retrySendingCount == 1;
      }
      hide Sound;
      ghost var e, call;
      ghost var before := host.trace;
      outcome, e, call := Transaction.Run(host, device, command, payload);
      Locks.OneCall(before, call);
      if device != null {
        StaysSound(device);
      }
    }

    // ---------- Operations ----------

    /** disconnect() */
    method Disconnect() returns (closed: bool)
      requires Valid()
      modifies this`device, this`live, host`usb, host`trace, host`instances, Optional(device)`handle
      ensures Locks.Operating(old(host.trace), host.trace)
      ensures Valid() && live <= old(live) && device == null
      ensures closed == old(device != null && device.handle.Some?)
      ensures old(device) != null ==> old(device).handle == None
      ensures CallsMade(host.usb) == old(CallsMade(host.usb))
    {
      hide Locks.Calling, Locks.Managing, Locks.Operating, Locks.Holds;
      hide Sound, Roots, Registered, CallsMade;
      Locks.CallingOrder();
      ghost var p := Enter();
      Locks.ManagingHolds(p, host.trace);
      closed := DisconnectNoLock();
      Leave(p);
    }

    /** _disconnect_no_lock() */
    method DisconnectNoLock() returns (closed: bool)
      requires Locks.Holds(host.trace, Locks.MANAGER)
      requires Valid()
      modifies this`device, this`live, host`usb, host`trace, host`instances, Optional(device)`handle
      ensures Locks.Calling(old(host.trace), host.trace)
      ensures Valid() && live <= old(live) && device == null
      ensures closed == old(device != null && device.handle.Some?)
      ensures old(device) != null ==> old(device).handle == None
      ensures CallsMade(host.usb) == old(CallsMade(host.usb))
    {
      hide Locks.Calling, Sound, UsbWithout, Registered;
      Locks.CallingOrder();
      CurrentIsLive();
      if device == null {
        return false;
      }
      closed := Close(device);
      Select(null, {});
    }

    /** is_connected(): enumerable says whether hid_enumerate lists a device with the current one's ids. */
    method IsConnected(enumerable: bool) returns (connected: bool)
      requires Valid()
      modifies this`device, this`live, host`usb, host`trace, host`instances, Optional(device)`handle
      ensures Locks.Operating(old(host.trace), host.trace)
      ensures Valid() && live <= old(live)
      ensures connected == old(device != null && device.handle.Some? && enumerable)
      ensures if connected
              then device == old(device) && device.handle == old(device.handle) && host.usb == old(host.usb)
              else device == null && (old(device) != null ==> old(device).handle == None)
    {
      hide Locks.Calling, Locks.Managing, Locks.Operating, Locks.Holds, Sound, Roots, Registered, CallsMade;
      Locks.CallingOrder();
      CurrentIsLive();
      ghost var p := Enter();
      connected := false;
      if device != null {
        Locks.OneCall(host.trace, Locks.DeviceCall);
        connected := device.CouldBeEnumerated(enumerable);
        if !connected {
          Locks.ManagingHolds(p, host.trace);
          var _ := DisconnectNoLock();
        }
      }
      Leave(p);
    }

    /** connect(const char*): the new device replaces the current one even if it cannot be opened. */
    method ConnectModel(name: string) returns (r: Result)
      requires Valid()
      modifies this`device, this`live, host`usb, host`trace, host`instances, Optional(device)`handle
      ensures Locks.Operating(old(host.trace), host.trace)
      ensures Valid()
      ensures r == (if ModelNamed(name) == None then UnknownModel else Answered(host.world.open(old(host.usb.opens))))
      ensures r == UnknownModel ==>
                device == old(device) && live == old(live) && host.usb == old(host.usb)
                && host.instances == old(host.instances) && (device != null ==> device.handle == old(device.handle))
      ensures old(device) != null && old(device) in live ==> old(device).handle == old(device.handle)
      ensures r.Answered? ==>
                && fresh(device) && IsNew(device, ModelNamed(name).value, "")
                && device.handle == (if r.success then Some(old(host.usb.opens)) else None)
      ensures fresh(live - old(live))
    {
      hide Locks.Calling, Locks.Managing, Locks.Operating, Locks.Holds;
      Locks.CallingOrder();
      hide Sound, UsbWithout, Roots, Registered, ModelNamed, IsNew;
      ghost var p := Enter();
      var model := ModelNamed(name);
      r := UnknownModel;
      if model != None {
        var d := Create(model.value, "");
        Select(d, {d});
        var success := Open(d);
        RootKept(d);
        r := Answered(success);
      }
      Leave(p);
    }

    /** The references in held go away, in any order. */
    method ReleaseAll(held: set<Device>)
      requires Sound() && live == Roots() + held
      modifies this`live, host`usb, host`trace, host`instances, held`handle
      ensures Locks.Calling(old(host.trace), host.trace)
      ensures Valid() && live <= old(live)
      ensures device != null ==> device.handle == old(device.handle)
      ensures CallsMade(host.usb) == old(CallsMade(host.usb))
    {
      hide Locks.Calling;
      Locks.CallingOrder();
      hide Sound, Registered, UsbWithout;
      var rest := held;
      while rest != {}
        invariant rest <= held && Sound() && live == Roots() + rest && live <= old(live)
        invariant Locks.Calling(old(host.trace), host.trace)
        invariant device != null ==> device.handle == old(device.handle)
        invariant CallsMade(host.usb) == old(CallsMade(host.usb))
      {
        var d :| d in rest;
        rest := rest - {d};
        Release(d, rest);
      }
    }

    /** New devices that are somewhere in held, of the given models, all different. */
    ghost predicate AreNew(devices: seq<Device>, models: seq<DeviceModel>, held: set<Device>)
      reads held`path, held`counters, held`retryTimeout, held`sendReceiveDelay, host`defaultDelay
    {
      && |devices| == |models|
      && (forall j :: 0 <= j < |devices| ==>
            devices[j] in held && devices[j].host == host && IsNew(devices[j], models[j], ""))
      && (forall j, k :: 0 <= j < k < |devices| ==> devices[j] != devices[k])
    }

    /** The next device to be tried; the current one, which may have been tried before, is not among those to come. */
    lemma NextDevice(devices: seq<Device>, models: seq<DeviceModel>, held: set<Device>, i: nat, last: Option<nat>)
      requires AreNew(devices, models, held) && i < |devices|
      requires if last.Some? then last.value < i && device == devices[last.value] else device !in held
      ensures |devices| == |models|
      ensures devices[i] in held && devices[i].host == host && IsNew(devices[i], models[i], "")
      ensures forall j :: i < j < |devices| ==> devices[j] != devices[i] && devices[j] != device
    {
    }

    static ghost predicate NoneOpen(devices: seq<Device>, i: nat)
      reads devices
    {
      forall j :: i <= j < |devices| ==> devices[j].handle == None
    }

    /** A device of each model. */
    method CreateEach() returns (devices: seq<Device>, held: set<Device>)
      requires Valid()
      modifies this`live, host`instances
      ensures Sound() && live == Roots() + held && fresh(held) && live == old(live) + held
      ensures AreNew(devices, MODELS, held) && NoneOpen(devices, 0) && |devices| == |MODELS|
    {
      hide Sound, Roots, AreNew, NoneOpen;
      var pro := Create(PRO, "");
      var storage := Create(STORAGE, "");
      var librem := Create(LIBREM, "");
      devices, held := [pro, storage, librem], {pro, storage, librem};
      ThreeNew(pro, storage, librem);
    }

    lemma ThreeNew(pro: Device, storage: Device, librem: Device)
      requires pro != storage && pro != librem && storage != librem
      requires pro.host == storage.host == librem.host == host
      requires IsNew(pro, PRO, "") && IsNew(storage, STORAGE, "") && IsNew(librem, LIBREM, "")
      requires pro.handle == storage.handle == librem.handle == None
      ensures AreNew([pro, storage, librem], MODELS, {pro, storage, librem}) && NoneOpen([pro, storage, librem], 0)
    {
    }

    method Try(d: Device, held: set<Device>) returns (success: bool)
      requires Sound() && live == Roots() + held && d in held && d.host == host && d.handle == None
      modifies this`device, this`live, host`usb, host`trace, host`instances, Optional(device)`handle, d`handle
      ensures Locks.Calling(old(host.trace), host.trace)
      ensures Sound() && live == Roots() + held && live <= old(live)
      ensures success == host.world.open(old(host.usb.opens))
      ensures CallsMade(host.usb) == old(CallsMade(host.usb)).(opens := old(host.usb.opens) + 1)
      ensures device == if success then d else old(device)
      ensures d.handle == if success then Some(old(host.usb.opens)) else None
      ensures old(device) != null && old(device) != d && old(device) in live ==>
                old(device).handle == old(device.handle)
    {
      hide Locks.Calling;
      Locks.CallingOrder();
      hide Sound, Roots, UsbWithout;
      success := Open(d);
      if success {
        Select(d, held);
      }
    }

    ghost function Starting(): Start
      reads this`device, host`usb, Optional(device)`handle
    {
      Start(device, if device == null then None else device.handle, host.usb.opens)
    }

    /** The devices before i have been tried since start; last is the one that is current now, if any is. */
    ghost predicate Tried(start: Start, devices: seq<Device>, held: set<Device>, i: nat, last: Option<nat>)
      reads this`device, this`live, host`usb, devices, Optional(start.device)`handle
    {
      && NoneOpen(devices, i) && host.usb.opens == start.opens + i && last == LastOpened(host.world, start.opens, i)
      && start.device !in held
      && (start.device != null && start.device in live ==> start.device.handle == start.handle)
      && if last.Some?
         then last.value < i <= |devices| && device == devices[last.value] && device in held
              && devices[last.value].handle == Some(start.opens + last.value)
         else device == start.device
    }

    lemma NoneTried(devices: seq<Device>, held: set<Device>)
      requires NoneOpen(devices, 0) && device !in held
      ensures Tried(Starting(), devices, held, 0, None)
    {
    }

    /** A turn of the loop of connect(). */
    method TryNext(devices: seq<Device>, ghost models: seq<DeviceModel>, held: set<Device>, i: nat,
                   ghost start: Start, ghost last: Option<nat>)
      returns (success: bool)
      requires i < |devices| && Tried(start, devices, held, i, last) && AreNew(devices, models, held)
      requires Sound() && live == Roots() + held
      modifies this`device, this`live, host`usb, host`trace, host`instances, Optional(device)`handle, {devices[i]}`handle
      ensures Tried(start, devices, held, i + 1, if success then Some(i) else last)
      ensures Sound() && live == Roots() + held && live <= old(live)
      ensures Locks.Calling(old(host.trace), host.trace)
    {
      hide Locks.Calling, Sound, Roots, AreNew, IsNew;
      NextDevice(devices, models, held, i, last);
      success := Try(devices[i], held);
    }

    /** The loop of connect(). */
    method TryEach(devices: seq<Device>, ghost models: seq<DeviceModel>, held: set<Device>)
      returns (connected: bool, ghost last: Option<nat>)
      requires Sound() && live == Roots() + held && device !in held
      requires AreNew(devices, models, held) && NoneOpen(devices, 0)
      modifies this`device, this`live, host`usb, host`trace, host`instances, Optional(device)`handle, held`handle
      ensures Locks.Calling(old(host.trace), host.trace)
      ensures Sound() && live == Roots() + held && live <= old(live)
      ensures connected == last.Some? && AreNew(devices, models, held)
      ensures Tried(old(Starting()), devices, held, |devices|, last)
    {
      hide *;
      Locks.CallingOrder();
      NoneTried(devices, held);
      ghost var start := Starting();
      connected, last := false, None;
      for i := 0 to |devices|
        invariant Sound() && live == Roots() + held && live <= old(live)
        invariant Locks.Calling(old(host.trace), host.trace)
        invariant Tried(start, devices, held, i, last) && connected == last.Some?
        invariant AreNew(devices, models, held)
      {
        MayChange(devices, models, held, i, start, last);
        var success := TryNext(devices, models, held, i, start, last);
        if success {
          connected := true;
          last := Some(i);
        }
      }
    }

    /** What a turn of the loop can change. */
    lemma MayChange(devices: seq<Device>, models: seq<DeviceModel>, held: set<Device>, i: nat,
                    start: Start, last: Option<nat>)
      requires AreNew(devices, models, held) && i < |devices| && Tried(start, devices, held, i, last)
      ensures devices[i] in held && Optional(device) <= held + Optional(start.device)
    {
    }

    /** The device that is current once all have been tried. */
    lemma AllTried(devices: seq<Device>, models: seq<DeviceModel>, held: set<Device>, start: Start, last: Option<nat>)
      requires AreNew(devices, models, held) && Tried(start, devices, held, |devices|, last)
      ensures host.usb.opens == start.opens + |devices| && last == LastOpened(host.world, start.opens, |devices|)
      ensures start.device != null && start.device in live ==> start.device.handle == start.handle
      ensures last == None ==> device == start.device
      ensures last.Some? ==>
                && device != null && device in held && last.value < |models|
                && IsNew(device, models[last.value], "") && device.handle == Some(start.opens + last.value)
    {
      hide IsNew;
    }

    /** connect(): tries one device of each model and keeps the last one that opened. */
    method Connect() returns (connected: bool)
      requires Valid()
      modifies this`device, this`live, host`usb, host`trace, host`instances, Optional(device)`handle
      ensures Locks.Operating(old(host.trace), host.trace)
      ensures Valid()
      ensures var last := LastOpened(host.world, old(host.usb.opens), |MODELS|);
              && connected == last.Some?
              && if connected
                 then fresh(device) && IsNew(device, MODELS[last.value], "")
                      && device.handle == Some(old(host.usb.opens) + last.value)
                 else device == old(device)
      ensures host.usb.opens == old(host.usb.opens) + |MODELS|
      ensures fresh(live - old(live))
      ensures old(device) != null && old(device) in live ==> old(device).handle == old(device.handle)
    {
      hide Locks.Calling, Locks.Managing, Locks.Operating, Locks.Holds;
      Locks.CallingOrder();
      hide Sound, Registered, Roots, UsbWithout, LastOpened, IsNew, AreNew, NoneOpen;
      ghost var p := Enter();
      var devices, held := CreateEach();
      ghost var last;
      ghost var start := Starting();
      connected, last := TryEach(devices, MODELS, held);
      AllTried(devices, MODELS, held, start, last);
      ReleaseAll(held);
      Leave(p);
    }

    /** A new device for path takes the place of the current one if it can be opened. */
    method TryPath(path: string, model: DeviceModel) returns (success: bool)
      requires Valid()
      modifies this`device, this`live, host`usb, host`trace, host`instances, Optional(device)`handle
      ensures Locks.Calling(old(host.trace), host.trace)
      ensures Valid()
      ensures success == host.world.open(old(host.usb.opens))
      ensures CallsMade(host.usb) == old(CallsMade(host.usb)).(opens := old(host.usb.opens) + 1)
      ensures if success
              then fresh(device) && IsNew(device, model, path)
                   && device.handle == Some(old(host.usb.opens))
              else device == old(device) && (device != null ==> device in live)
      ensures fresh(live - old(live))
      ensures old(device) != null && old(device) in live ==> old(device).handle == old(device.handle)
    {
      hide Locks.Calling;
      Locks.CallingOrder();
      hide Sound, UsbWithout, Roots, Registered;
      var p := Create(model, path);
      success := Try(p, {p});
      ReleaseAll({p});
      CurrentIsRoot();
    }

    /** connect_with_path(): enumerations holds what hid_enumerate lists for each vendor. */
    method ConnectWithPath(path: string, enumerations: seq<seq<HidInfo>>) returns (connected: bool)
      requires Valid()
      modifies this`device, this`live, this`currentId, host`usb, host`trace, host`instances, Optional(device)`handle
      ensures Locks.Operating(old(host.trace), host.trace)
      ensures Valid()
      ensures var o := FirstOpened(host.world, old(host.usb.opens), enumerations, path);
              && connected == o.Some?
              && if connected
                 then fresh(device) && IsNew(device, o.value.model, path) && device.handle == Some(o.value.handle)
                      && currentId == path
                 else device == old(device) && currentId == old(currentId)
      ensures fresh(live - old(live))
      ensures old(device) != null && old(device) in live ==> old(device).handle == old(device.handle)
    {
      hide Locks.Calling, Locks.Managing, Locks.Operating, Locks.Holds;
      Locks.CallingOrder();
      hide Valid, Registered;
      ghost var p := Enter();
      ghost var n := host.usb.opens;
      for i := 0 to |enumerations|
        invariant Valid() && device == old(device) && currentId == old(currentId) && fresh(live - old(live))
        invariant device != null ==> device.handle == old(device.handle)
        invariant Locks.Managing(p, host.trace)
        invariant FirstOpened(host.world, n, enumerations, path)
               == FirstOpened(host.world, host.usb.opens, enumerations[i..], path)
      {
        assert enumerations[i..][1..] == enumerations[i + 1..];
        var model := FindModel(enumerations[i], path);
        if model == None {
          continue;
        }
        var success := TryPath(path, model.value);
        if success {
          currentId := path;
          Leave(p);
          return true;
        }
      }
      Leave(p);
      return false;
    }

    /** What hidapi and the instance count are once d has taken the place of the current device. */
    ghost function LinkOnceSelected(d: Device): Link
      reads this`device, this`byId, host`usb, host`instances, d`handle, d`counters
      reads Optional(device)`handle, Optional(device)`counters
    {
      if device == null || device == d || device in Registered()
      then Link(host.usb, d.handle, host.instances, d.counters.lowLevelReconnect)
      else Link(UsbWithout(device), d.handle, host.instances - 1, d.counters.lowLevelReconnect)
    }

    lemma RegisteredFacts(id: string)
      requires Valid() && id in byId
      ensures byId[id].host == host && byId[id] in Registered() && Roots() + {byId[id]} == Roots()
    {
    }

    /** The current device is replaced by a registered one. */
    method SelectRegistered(id: string) returns (d: Device)
      requires Valid() && id in byId
      modifies this`device, this`live, this`currentId, host`usb, host`trace, host`instances, Optional(device)`handle
      ensures Locks.Calling(old(host.trace), host.trace)
      ensures Valid() && live <= old(live) && device == d == byId[id] && currentId == id
      ensures d.host == host && d.handle == old(byId[id].handle)
      ensures Link(host.usb, d.handle, host.instances, d.counters.lowLevelReconnect) == old(LinkOnceSelected(byId[id]))
    {
      hide Locks.Calling;
      Locks.CallingOrder();
      hide Sound, Registered, Roots, UsbWithout;
      d := byId[id];
      RegisteredFacts(id);
      Select(d, {d});
      currentId := id;
      RootKept(d);
      assert forall x :: x in live <==> x == d || x in Registered() by { RootsMeaning(); }
    }

    /** connect_with_ID() */
    method ConnectWithId(id: string) returns (r: Result, ghost e: Option<Exchange>)
      requires Valid()
      modifies this`device, this`live, this`currentId, this`byId, host`usb, host`instances, host`slept, host`runs,
               host`trace, Optional(device)`handle, RegisteredAs(id)
      ensures Locks.Operating(old(host.trace), host.trace)
      ensures Valid() && live <= old(live)
      ensures id !in old(byId) ==>
                && r == Answered(false) && e == None && device == old(device) && currentId == old(currentId)
                && byId == old(byId) && host.usb == old(host.usb)
                && (device != null ==> device.handle == old(device.handle))
      ensures id in old(byId) ==>
                && device == old(byId[id])
                && e == Some(old(Exchanged(host.world, SettingsOf(byId[id]), LinkOnceSelected(byId[id]),
                                           byId[id].counters, Outgoing(GET_STATUS, []))))
                && if IsCommunicationFailure(e.value.outcome)
                   then r == Answered(false) && currentId == "" && byId == old(byId) - {id} && device.handle == None
                   else r == (if e.value.outcome.CommandFailed? then Threw(e.value.outcome) else Answered(true))
                        && currentId == id && byId == old(byId) && device.handle.Some?
    {
      hide Locks.Calling, Locks.Managing, Locks.Operating, Locks.Holds, Sound, Registered, Roots, Exchanged, Outgoing, LinkOnceSelected;
      Locks.CallingOrder();
      ghost var p := Enter();
      e, r := None, Answered(false);
      if id in byId {
        ghost var f;
        Locks.ManagingHolds(p, host.trace);
        r, f := ConnectRegistered(id);
        e := Some(f);
      }
      Leave(p);
    }

    /** A registered device is made the current one and asked for its status. */
    method ConnectRegistered(id: string) returns (r: Result, ghost e: Exchange)
      requires Locks.Holds(host.trace, Locks.MANAGER)
      requires Valid() && id in byId
      modifies this`device, this`live, this`currentId, this`byId, host`usb, host`instances, host`slept, host`runs,
               host`trace, Optional(device)`handle, RegisteredAs(id)
      ensures Locks.Calling(old(host.trace), host.trace)
      ensures Valid() && live <= old(live) && device == old(byId[id])
      ensures e == old(Exchanged(host.world, SettingsOf(byId[id]), LinkOnceSelected(byId[id]),
                                 byId[id].counters, Outgoing(GET_STATUS, [])))
      ensures if IsCommunicationFailure(e.outcome)
              then r == Answered(false) && currentId == "" && byId == old(byId) - {id} && device.handle == None
              else r == (if e.outcome.CommandFailed? then Threw(e.outcome) else Answered(true))
                   && currentId == id && byId == old(byId) && device.handle.Some?
    {
      hide Locks.Calling, Sound, Registered, Exchanged, Outgoing, LinkOnceSelected;
      Locks.CallingOrder();
      e := Exchanged(host.world, SettingsOf(byId[id]), LinkOnceSelected(byId[id]), byId[id].counters,
                     Outgoing(GET_STATUS, []));
      var d := SelectRegistered(id);
      assert d.Connection() == old(LinkOnceSelected(byId[id]));
      CurrentIsRoot();
      var outcome := Run(GET_STATUS, []);
      if IsCommunicationFailure(outcome) {
        Dismiss(id);
        return Answered(false), e;
      }
      AnsweredStaysOpen(host.world, old(SettingsOf(byId[id])), old(LinkOnceSelected(byId[id])),
                        old(byId[id].counters), Outgoing(GET_STATUS, []));
      return if outcome.CommandFailed? then Threw(outcome) else Answered(true), e;
    }

    ghost function RegisteredAs(id: string): set<Device>
      reads this`byId
    {
      if id in byId then {byId[id]} else {}
    }

    /** The current device is disconnected and forgotten as a registered one. */
    method Dismiss(id: string)
      requires Valid() && id in byId && device == byId[id]
      modifies this`byId, this`currentId, host`usb, host`trace, Optional(device)`handle
      ensures Locks.Calling(old(host.trace), host.trace)
      ensures Valid() && device.handle == None && currentId == "" && byId == old(byId) - {id}
    {
      hide Locks.Calling;
      Locks.CallingOrder();
      hide Sound, Registered;
      CurrentIsRoot();
      var _ := Close(device);
      currentId := "";
      byId := byId - {id};
      StillRoots(id);
    }

    twostate lemma StillRoots(id: string)
      requires id in old(byId) && device == old(device) == old(byId[id]) && byId == old(byId) - {id}
      ensures Roots() == old(Roots())
    {
      forall x | x in old(byId).Values ensures x in Roots() {
        var k :| k in old(byId) && old(byId)[k] == x;
        assert k != id ==> byId[k] == x;
      }
    }

    /** Every registered device is disconnected. */
    method CloseRegistered()
      requires Valid()
      modifies host`usb, host`trace, Registered()`handle
      ensures Locks.Calling(old(host.trace), host.trace)
      ensures Valid()
      ensures forall id :: id in byId ==> byId[id].handle == None
      ensures CallsMade(host.usb) == old(CallsMade(host.usb))
    {
      hide Locks.Calling, Sound, Registered;
      Locks.CallingOrder();
      var rest := byId.Keys;
      while rest != {}
        invariant Valid() && rest <= byId.Keys
        invariant CallsMade(host.usb) == old(CallsMade(host.usb))
        invariant Locks.Calling(old(host.trace), host.trace)
        invariant forall id :: id in byId && id !in rest ==> byId[id].handle == None
      {
        var id :| id in rest;
        RegisteredFacts(id);
        var _ := Close(byId[id]);
        rest := rest - {id};
      }
    }

    /** A registration goes, and with it a reference to its device. */
    method Forget(id: string)
      requires Valid() && id in byId
      modifies this`byId, this`live, host`usb, host`trace, host`instances, RegisteredAs(id)`handle
      ensures Locks.Calling(old(host.trace), host.trace)
      ensures Valid() && byId == old(byId) - {id} && live <= old(live) && Registered() <= old(Registered())
      ensures old(byId[id]) in live ==> old(byId[id]).handle == old(byId[id].handle)
      ensures CallsMade(host.usb) == old(CallsMade(host.usb))
    {
      hide Locks.Calling;
      Locks.CallingOrder();
      hide Sound, Registered, Roots, UsbWithout;
      var d := byId[id];
      byId := byId - {id};
      WithoutId(id);
      Release(d, {});
    }

    /** One registration less. */
    twostate lemma WithoutId(id: string)
      requires id in old(byId) && byId == old(byId) - {id} && device == old(device)
      ensures Roots() + {} + {old(byId[id])} == old(Roots())
      ensures Registered() + {old(byId[id])} == old(Registered())
    {
      forall x | x in old(byId).Values ensures x in Registered() + {old(byId[id])} {
        var k :| k in old(byId) && old(byId)[k] == x;
        assert k != id ==> byId[k] == x;
      }
    }

    /** connected_devices_byID.clear() */
    method ClearRegistered()
      requires Valid()
      modifies this`byId, this`live, host`usb, host`trace, host`instances, Registered()`handle
      ensures Locks.Calling(old(host.trace), host.trace)
      ensures Valid() && byId == map[] && live <= old(live)
      ensures CallsMade(host.usb) == old(CallsMade(host.usb))
      ensures device != null ==> device.handle == old(device.handle)
    {
      hide Locks.Calling;
      Locks.CallingOrder();
      hide Sound, Registered, Roots;
      ghost var all := Registered();
      while byId != map[]
        invariant Valid() && live <= old(live) && Registered() <= all
        invariant CallsMade(host.usb) == old(CallsMade(host.usb))
        invariant Locks.Calling(old(host.trace), host.trace)
        invariant device != null ==> device.handle == old(device.handle)
        decreases |byId|
      {
        var id :| id in byId;
        RegisteredFacts(id);
        Forget(id);
        CurrentIsRoot();
      }
    }

    /** connected_devices_byID[id] = device: a device registered there before loses a reference. */
    method Register(id: string)
      requires Valid() && device != null
      modifies this`byId, this`live, host`usb, host`trace, host`instances, RegisteredAs(id)`handle
      ensures Locks.Calling(old(host.trace), host.trace)
      ensures Valid() && byId == old(byId)[id := device] && live <= old(live)
      ensures CallsMade(host.usb) == old(CallsMade(host.usb))
      ensures device.handle == old(device.handle)
      ensures id in old(byId) && old(byId[id]) in live ==> old(byId[id]).handle == old(byId[id].handle)
    {
      hide Locks.Calling;
      Locks.CallingOrder();
      hide Sound, Registered, Roots;
      if id in byId {
        Forget(id);
      }
      CurrentIsRoot();
      label Before: byId := byId[id := device];
      AnotherId@Before(id);
    }

    twostate lemma AnotherId(id: string)
      requires id !in old(byId) && device == old(device) && device != null && byId == old(byId)[id := device]
      ensures Roots() == old(Roots())
    {
      forall x | x in old(byId).Values ensures x in Roots() {
        var k :| k in old(byId) && old(byId)[k] == x;
        assert byId[k] == x;
      }
    }

    /** One turn of list_devices_by_cpuID: l is the connection the status is asked for on. */
    method ListOne(path: string) returns (r: Probe, ghost l: Link)
      requires Valid()
      modifies this`device, this`byId, this`live, host`usb, host`instances, host`slept, host`runs, host`trace,
               Optional(device)`handle, Registered()`handle
      ensures Locks.Calling(old(host.trace), host.trace)
      ensures Valid() && fresh(live - old(live))
      ensures r.NotOpened? <==> !host.world.open(old(host.usb.opens))
      ensures r.NotOpened? ==>
                && device == old(device) && byId == old(byId) && (device != null ==> device.handle == old(device.handle))
                && CallsMade(host.usb) == old(CallsMade(host.usb)).(opens := old(host.usb.opens) + 1)
      ensures r.Probed? ==>
                && fresh(device) && device.path == path && device.model == STORAGE
                && l.handle == Some(old(host.usb.opens)) && l.reconnects == 0
                && CallsMade(l.usb) == old(CallsMade(host.usb)).(opens := old(host.usb.opens) + 1)
                && var e := AskStatus(host.world, host.defaultDelay, l);
                   r.outcome == e.outcome && device.handle == e.link.handle && CallsMade(host.usb) == CallsMade(e.link.usb)
      ensures r.Probed? && IdFor(r.outcome, path).Some? ==>
                byId == old(byId)[IdFor(r.outcome, path).value := device] && device.handle.Some?
      ensures r.Probed? && IdFor(r.outcome, path) == None ==> byId == old(byId)
      ensures Registry() == if r.Probed? && IdFor(r.outcome, path).Some?
                            then old(Registry())[IdFor(r.outcome, path).value := Entry(STORAGE, path, true)]
                            else old(Registry())
    {
      hide Locks.Calling, Sound, Registered, Roots, Exchanged, Outgoing, CallsMade, StatusId, Registry;
      Locks.CallingOrder();
      label Before:
      l := Link(host.usb, None, 0, 0);
      assert Registered() <= live by { RootsMeaning(); }
      var success := TryPath(path, STORAGE);
      if !success {
        assert Registered() <= live by { RootsMeaning(); }
        RegistryAfter@Before(None);
        return NotOpened, l;
      }
      assert Registered() <= live by { RootsMeaning(); }
      RegistryAfter@Before(None);
      CurrentIsLive();
      l := device.Connection();
      ghost var e;
      var outcome;
      outcome, e := AskAndRegister(device, path);
      return Probed(outcome), l;
    }

    /** The new current device is asked for its status, and registered unless that fails. */
    method AskAndRegister(d: Device, path: string) returns (outcome: Outcome, ghost e: Exchange)
      requires Valid() && device == d && d !in Registered() && d.host == host && d.model == STORAGE && d.path == path
      modifies this`byId, this`live, host`usb, host`instances, host`slept, host`runs, host`trace, Registered()`handle
      modifies d`handle, d`counters, d`lastCommandStatus
      ensures Locks.Calling(old(host.trace), host.trace)
      ensures Valid() && live <= old(live)
      ensures outcome == e.outcome && d.handle == e.link.handle && CallsMade(host.usb) == CallsMade(e.link.usb)
      ensures IdFor(outcome, path).Some? ==> byId == old(byId)[IdFor(outcome, path).value := d] && d.handle.Some?
      ensures IdFor(outcome, path) == None ==> byId == old(byId)
      ensures Registry() == if IdFor(outcome, path).Some?
                            then old(Registry())[IdFor(outcome, path).value := Entry(STORAGE, path, true)]
                            else old(Registry())
      ensures e == old(Exchanged(host.world, SettingsOf(d), d.Connection(), d.counters, Outgoing(GET_DEVICE_STATUS, [])))
    {
      hide Locks.Calling, Sound, Registered, Roots, Exchanged, Outgoing, CallsMade, StatusId, Registry;
      Locks.CallingOrder();
      label Before:
      assert Registered() <= live by { RootsMeaning(); }
      CurrentIsRoot();
      ghost var settings, l, counters := SettingsOf(d), d.Connection(), d.counters;
      e := Exchanged(host.world, settings, l, counters, Outgoing(GET_DEVICE_STATUS, []));
      outcome := Run(GET_DEVICE_STATUS, []);
      var id := IdFor(outcome, path);
      if id.Some? {
        AnsweredStaysOpen(host.world, settings, l, counters, Outgoing(GET_DEVICE_STATUS, []));
        if id.value in byId {
          RegisteredFacts(id.value);
        }
        Register(id.value);
      }
      assert Registered() <= live by { RootsMeaning(); }
      RegistryAfter@Before(id);
    }

    ghost function Registry(): map<string, Entry>
      reads this`byId, Registered()`handle, Registered()`path
    {
      map id | id in byId :: Entry(byId[id].model, byId[id].path, byId[id].handle.Some?)
    }

    lemma EmptyRegistry()
      requires byId == map[]
      ensures Registry() == map[]
    {
    }

    twostate lemma RegistryAfter(id: Option<string>)
      requires id.Some? ==> device != null && device.handle.Some?
      requires byId == if id == None then old(byId) else old(byId)[id.value := device]
      requires forall x :: x in old(Registered()) && x in Registered() ==>
                 x.handle == old(x.handle) && x.path == old(x.path)
      ensures Registry() == if id == None then old(Registry())
                            else old(Registry())[id.value := Entry(device.model, device.path, true)]
    {
    }

    /** The current device is the one of the last visit that found an open device. */
    ghost predicate IsCurrent(last: Option<Visit>)
      reads this`device, Optional(device)`handle, Optional(device)`path, host`defaultDelay
    {
      match last
      case None => device == null
      case Some(t) =>
        && device != null && device.model == STORAGE && device.path == t.path
        && device.handle == AskStatus(host.world, host.defaultDelay, t.link).link.handle
    }

    /** list_devices_by_cpuID(): enumerated is what Device::enumerate finds. */
    method ListDevicesById(enumerated: seq<DeviceInfo>) returns (r: Listing, ghost visits: seq<Visit>)
      requires Valid()
      modifies this`device, this`byId, this`live, host`usb, host`instances, host`slept, host`runs, host`trace, live`handle
      ensures Locks.Operating(old(host.trace), host.trace)
      ensures Valid() && fresh(live)
      ensures forall t :: t in visits ==> IsVisit(host.world, host.defaultDelay, t)
      ensures Consecutive(host.world, host.defaultDelay, old(CallsMade(host.usb)), visits)
      ensures match r
              case Listed(ids) => Paths(visits) == StoragePaths(enumerated) && ids == Identifiers(visits)
              case ListingThrew(outcome) => Paths(visits) <= StoragePaths(enumerated) && EndsInFailure(visits, outcome)
      ensures byId.Keys == set id | id in Identifiers(visits)
      ensures AllListed(Registry(), enumerated)
      ensures IsCurrent(LastProbed(visits))
    {
      hide Locks.Calling, Locks.Managing, Locks.Operating, Locks.Holds, Valid, Sound, Roots, CallsMade, AllListed, IsVisit,
        Consecutive, Identifiers, Paths, StoragePaths, LastProbed, AskStatus, EndsInFailure;
      Locks.CallingOrder();
      ghost var p0 := host.trace;
      RootsAreLive();
      var _ := Disconnect();
      ghost var p := Enter();
      RootsAreLive();
      DropRegistered();
      Locks.ManagingHolds(p, host.trace);
      r, visits := ListEach(enumerated);
      ghost var registry := Registry();
      Leave(p);
      assert Registry() == registry;
      Locks.MoreOperations(p0, p, host.trace);
    }

    /** Everything after the release of the devices known so far. */
    method ListEach(enumerated: seq<DeviceInfo>) returns (r: Listing, ghost visits: seq<Visit>)
      requires Locks.Holds(host.trace, Locks.MANAGER)
      requires Valid() && live == {} && device == null && byId == map[]
      modifies this`device, this`byId, this`live, host`usb, host`instances, host`slept, host`runs, host`trace
      ensures Locks.Calling(old(host.trace), host.trace)
      ensures Valid() && fresh(live)
      ensures forall t :: t in visits ==> IsVisit(host.world, host.defaultDelay, t)
      ensures Consecutive(host.world, host.defaultDelay, old(CallsMade(host.usb)), visits)
      ensures match r
              case Listed(ids) => Paths(visits) == StoragePaths(enumerated) && ids == Identifiers(visits)
              case ListingThrew(outcome) => Paths(visits) <= StoragePaths(enumerated) && EndsInFailure(visits, outcome)
      ensures byId.Keys == set id | id in Identifiers(visits)
      ensures AllListed(Registry(), enumerated)
      ensures IsCurrent(LastProbed(visits))
    {
      hide Locks.Calling, Sound, Roots, Registered, Registry, AllListed, IsVisit, Identifiers, Paths, StoragePaths,
        CallsMade, IsCurrent, LastProbed, Consecutive, Ended, EndedAll;
      Locks.CallingOrder();
      ghost var w, delay, first := host.world, host.defaultDelay, CallsMade(host.usb);
      var ids: seq<string> := [];
      visits := [];
      NothingListed(enumerated);
      EmptyRegistry();
      NothingVisited(enumerated);
      NothingCurrent(first);
      for i := 0 to |enumerated|
        invariant Valid() && fresh(live) && AllListed(Registry(), enumerated)
        invariant Locks.Calling(old(host.trace), host.trace)
        invariant forall t :: t in visits ==> IsVisit(w, delay, t)
        invariant Consecutive(w, delay, first, visits) && CallsMade(host.usb) == EndedAll(w, delay, first, visits)
        invariant IsCurrent(LastProbed(visits))
        invariant Paths(visits) == StoragePaths(enumerated[..i]) && ids == Identifiers(visits)
        invariant byId.Keys == set id | id in ids
      {
        var id, threw;
        ghost var t;
        if enumerated[i].model != STORAGE {
          NoVisit(enumerated, i);
          continue;
        }
        assert Optional(device) + Registered() <= live by { RootsMeaning(); }
        id, threw, t := ListNext(enumerated, i, LastProbed(visits));
        AnotherVisit(visits, enumerated, i, t);
        NextVisit(w, delay, first, visits, t);
        visits := visits + [t];
        if threw.Some? {
          StoragePathsPrefix(enumerated, i + 1);
          return ListingThrew(threw.value), visits;
        }
        if id.Some? {
          ids := ids + [id.value];
        }
      }
      assert enumerated[..|enumerated|] == enumerated;
      return Listed(ids), visits;
    }

    lemma NothingCurrent(first: Calls)
      requires device == null
      ensures IsCurrent(LastProbed([])) && Consecutive(host.world, host.defaultDelay, first, [])
      ensures EndedAll(host.world, host.defaultDelay, first, []) == first
    {
    }

    /** The loop's body for a Storage device; a failed command is not caught. */
    method ListNext(infos: seq<DeviceInfo>, i: nat, ghost last: Option<Visit>)
      returns (id: Option<string>, threw: Option<Outcome>, ghost t: Visit)
      requires Valid() && i < |infos| && infos[i].model == STORAGE && AllListed(Registry(), infos) && IsCurrent(last)
      modifies this`device, this`byId, this`live, host`usb, host`instances, host`slept, host`runs, host`trace,
               Optional(device)`handle, Registered()`handle
      ensures Locks.Calling(old(host.trace), host.trace)
      ensures Valid() && fresh(live - old(live)) && AllListed(Registry(), infos)
      ensures IsVisit(host.world, host.defaultDelay, t) && t.path == infos[i].path && id == Identifier(t)
      ensures t.before == old(CallsMade(host.usb)) && CallsMade(host.usb) == Ended(host.world, host.defaultDelay, t)
      ensures IsCurrent(if t.probe.Probed? then Some(t) else last)
      ensures byId.Keys == old(byId.Keys) + (if id == None then {} else {id.value})
      ensures if threw == None then t.probe.Probed? ==> !t.probe.outcome.CommandFailed?
              else t.probe == Probed(threw.value) && threw.value.CommandFailed? && id == None
    {
      hide Locks.Calling, Sound, Roots, Registered, Registry, AllListed, AskStatus;
      ghost var before, registry, l := CallsMade(host.usb), Registry(), *;
      var r;
      r, l := ListOne(infos[i].path);
      t := Visit(infos[i].path, before, l, r);
      id, threw := None, None;
      if r.Probed? {
        id := IdFor(r.outcome, infos[i].path);
        threw := if r.outcome.CommandFailed? then Some(r.outcome) else None;
        if id.Some? {
          AnotherListed(registry, infos, i, id.value, r.outcome);
        }
      }
    }

    /** Every registered device is disconnected and loses its registration. */
    method DropRegistered()
      requires Valid() && device == null
      modifies this`byId, this`live, host`usb, host`trace, host`instances, Registered()`handle
      ensures Locks.Calling(old(host.trace), host.trace)
      ensures Valid() && byId == map[] && live == {}
      ensures CallsMade(host.usb) == old(CallsMade(host.usb))
    {
      hide Locks.Calling, Sound, CallsMade;
      Locks.CallingOrder();
      CloseRegistered();
      ClearRegistered();
    }

    /** ~NitrokeyManager(), which finds the cache of connections empty, and then the destruction of its members. */
    method Shutdown()
      requires Valid()
      modifies this`device, this`byId, this`live, host`usb, host`trace, host`instances, live`handle
      ensures Locks.Operating(old(host.trace), host.trace)
      ensures live == {} && host.usb.open == {} && host.instances == 0 && host.usb.rashExits == 0
    {
      hide Locks.Calling, Locks.Managing, Locks.Operating, Locks.Holds, Sound, Roots, CallsMade;
      Locks.CallingOrder();
      ghost var p := Enter();
      Leave(p);
      ghost var q := host.trace;
      assert Registered() <= live by { RootsMeaning(); }
      ClearRegistered();
      assert Optional(device) <= live by { RootsMeaning(); }
      Select(null, {});
      RootsMeaning();
      NothingLive();
      Locks.UnlockedCalls(q, host.trace);
      Locks.MoreOperations(p, q, host.trace);
    }

    lemma NothingLive()
      requires Sound() && live == {}
      ensures host.usb.open == {} && host.instances == 0 && host.usb.rashExits == 0
    {
    }

    // ---------- Delays ----------

    /** Delays below 20 ms are refused; the default one is for devices constructed from now on. */
    method SetDefaultCommandsDelay(delay: int) returns (accepted: bool)
      modifies host`defaultDelay
      ensures accepted == (delay >= 20)
      ensures host.defaultDelay == if accepted then delay else old(host.defaultDelay)
    {
      if delay < 20 {
        return false;
      }
      host.defaultDelay := delay;
      return true;
    }

    /** The same for the current device, if there is one. */
    method SetCurrentDeviceSpeed(retryDelay: int, sendReceiveDelay: int) returns (accepted: bool)
      requires Valid()
      modifies host`trace, Optional(device)`retryTimeout, Optional(device)`sendReceiveDelay
      ensures Locks.Operating(old(host.trace), host.trace)
      ensures accepted == (retryDelay >= 20 && sendReceiveDelay >= 20 && device != null)
      ensures accepted ==> device.retryTimeout == retryDelay && device.sendReceiveDelay == sendReceiveDelay
      ensures !accepted && device != null ==> SettingsOf(device) == old(SettingsOf(device))
    {
      hide Locks.Calling, Locks.Managing, Locks.Operating, Locks.Holds;
      Locks.CallingOrder();
      if retryDelay < 20 || sendReceiveDelay < 20 {
        Locks.NoOperation(host.trace);
        return false;
      }
      ghost var p := Enter();
      accepted := device != null;
      if device != null {
        Locks.OneCall(host.trace, Locks.DeviceCall);
        device.SetReceivingDelay(sendReceiveDelay);
        Locks.OneCall(host.trace, Locks.DeviceCall);
        device.SetRetryDelay(retryDelay);
      }
      Leave(p);
    }

    // ---------- Every sequence of operations ----------

    method Perform(request: Request)
      requires Valid() && IsRequest(request)
      modifies this`device, this`byId, this`currentId, this`live, live
      modifies host`usb, host`instances, host`slept, host`runs, host`trace, host`defaultDelay
      ensures Locks.Operating(old(host.trace), host.trace)
      ensures Valid() && fresh(live - old(live))
    {
      hide *;
      RootsAreLive();
      match request {
        case Connect => var _ := Connect();
        case ConnectModel(name) => var _ := ConnectModel(name);
        case ConnectWithPath(path, enumerations) => var _ := ConnectWithPath(path, enumerations);
        case ConnectWithId(id) =>
          ghost var e;
          var r;
          r, e := ConnectWithId(id);
        case ListDevicesById(enumerated) =>
          ghost var visits;
          var listing;
          listing, visits := ListDevicesById(enumerated);
        case IsConnected(enumerable) => var _ := IsConnected(enumerable);
        case Disconnect => var _ := Disconnect();
        case SetDefaultCommandsDelay(delay) =>
          Locks.NoOperation(host.trace);
          var _ := SetDefaultCommandsDelay(delay);
        case SetCurrentDeviceSpeed(retryDelay, sendReceiveDelay) =>
          var _ := SetCurrentDeviceSpeed(retryDelay, sendReceiveDelay);
        case Command(_, _) => RunCommand(request);
      }
    }

    /** A command runs outside the manager's mutex. */
    method RunCommand(request: Request)
      requires Valid() && IsRequest(request) && request.Command?
      modifies host`usb, host`slept, host`runs, host`trace
      modifies Optional(device)`handle, Optional(device)`counters, Optional(device)`lastCommandStatus
      ensures Locks.Operating(old(host.trace), host.trace)
      ensures Valid()
    {
      hide Locks.Calling, Locks.Operating, Sound, Registered, Exchanged, Outgoing;
      CurrentIsLive();
      ghost var p := host.trace;
      var _ := Run(request.command, request.payload);
      Locks.UnlockedCalls(p, host.trace);
    }

    /**
     Whatever is asked of a manager, one after the other, it keeps its handles and statistics in order, and what
     it does to the mutexes is a sequence of operations.
     */
    method PerformAll(requests: seq<Request>)
      requires Valid() && forall i :: 0 <= i < |requests| ==> IsRequest(requests[i])
      modifies this`device, this`byId, this`currentId, this`live, live
      modifies host`usb, host`instances, host`slept, host`runs, host`trace, host`defaultDelay
      ensures Locks.Operating(old(host.trace), host.trace)
      ensures Valid() && fresh(live - old(live))
    {
      hide Valid, Locks.Operating;
      Locks.NoOperation(host.trace);
      for i := 0 to |requests|
        invariant Valid() && fresh(live - old(live))
        invariant Locks.Operating(old(host.trace), host.trace)
      {
        ghost var before := host.trace;
        Perform(requests[i]);
        Locks.MoreOperations(old(host.trace), before, host.trace);
      }
    }

    /** Each open handle belongs to one device the manager refers to, and to no other. */
    lemma OneHolder(h: nat) returns (d: Device)
      requires Valid() && h in host.usb.open
      ensures d in Roots() && d.handle == Some(h)
      ensures forall x :: x in Roots() && x.handle == Some(h) ==> x == d
    {
      d :| d in live && d.handle == Some(h);
    }
  }

  lemma Singleton<T>(s: set<T>, x: T)
    requires |s| == 1 && x in s
    ensures s == {x}
  {
    assert |s - {x}| == 0;
  }

  /**
   From a fresh process to the end of it, over any requests: no handle is leaked, hid_exit never comes too early,
   and the thread's actions on the mutexes are whole operations.
   */
  method Lifetime(world: World, numbering: nat -> nat, requests: seq<Request>) returns (host: Host)
    requires forall i :: 0 <= i < |requests| ==> IsRequest(requests[i])
    ensures host.usb.open == {} && host.instances == 0 && host.usb.rashExits == 0
    ensures Locks.IsThread(host.trace)
  {
    hide Locks.Operating;
    host := new Host(world, numbering);
    var m := new Manager(host);
    m.PerformAll(requests);
    ghost var before := host.trace;
    m.Shutdown();
    Locks.MoreOperations([], before, host.trace);
  }
}
