/** Writing and reading OTP slots (NitrokeyManager.cc), against any device whatever. */
module OtpSlot {
  import opened Bytes
  import opened Text
  import opened Usb
  import opened Replies
  import opened Fields
  import Crc32
  import Packet
  import CApi

  // ---------- Commands and the device that answers them ----------

  const WRITE_TO_SLOT: byte := 0x01
  const READ_SLOT: byte := 0x03
  const AUTHORIZE: byte := 0x08
  const SEND_OTP_DATA: byte := 0x17

  const RESPONSE_SIZE: nat := 53

  datatype Command = Command(id: byte, payload: seq<byte>)

  /** The payload part of a response. */
  type Response = d: seq<byte> | |d| == RESPONSE_SIZE witness Fill(RESPONSE_SIZE)

  /** What can be thrown: what a run or the library throws, or std::stoull's exception. */
  datatype Failure = Thrown(failure: CApi.Failure) | InvalidArgument

  datatype Result<+T> = Ok(value: T) | Err(failure: Failure)

  /** What one run can throw: library errors are found before anything is sent. */
  type RunFailure = f: CApi.Failure | !f.Library? witness CApi.Communication(CApi.NOT_CONNECTED)

  datatype Answer = Answered(data: Response) | Failed(failure: RunFailure)

  /** A device answers each run depending on everything it has been sent, the last command being the one at hand. */
  datatype Env = Env(model: DeviceModel, answer: seq<Command> -> Answer)

  /** A result together with all commands sent so far. */
  datatype Trace<+T> = Trace(result: Result<T>, log: seq<Command>)

  function ResultOf(a: Answer): Result<Response> {
    match a
    case Answered(d) => Ok(d)
    case Failed(f) => Err(Failure.Thrown(f))
  }

  function Ask(env: Env, log: seq<Command>, c: Command): Trace<Response> {
    Trace(ResultOf(env.answer(log + [c])), log + [c])
  }

  /** Commands sent one after the other until one fails, and then how the operation ends. */
  datatype Plan = Plan(commands: seq<Command>, ending: Result<()>)

  function Carry(env: Env, log: seq<Command>, p: Plan): Trace<()>
    decreases |p.commands|
  {
    if p.commands == [] then Trace(p.ending, log)
    else
      var t := Ask(env, log, p.commands[0]);
      match t.result
      case Err(f) => Trace(Err(f), t.log)
      case Ok(_) => Carry(env, t.log, Plan(p.commands[1..], p.ending))
  }

  lemma CarryNothing(env: Env, log: seq<Command>, ending: Result<()>)
    ensures Carry(env, log, Plan([], ending)) == Trace(ending, log)
  {
  }

  lemma CarryOne(env: Env, log: seq<Command>, c: Command, ending: Result<()>)
    ensures var t := Ask(env, log, c);
            Carry(env, log, Plan([c], ending))
            == Trace(match t.result case Err(f) => Err(f) case Ok(_) => ending, t.log)
  {
    assert [c][1..] == [];
  }

  /** Commands a followed by commands b. */
  lemma {:induction false} CarryAppend(env: Env, log: seq<Command>, a: seq<Command>, b: seq<Command>, ending: Result<()>)
    ensures var t := Carry(env, log, Plan(a, Ok(())));
            Carry(env, log, Plan(a + b, ending))
            == if t.result.Err? then t else Carry(env, t.log, Plan(b, ending))
    decreases |a|
  {
    if a == [] {
      assert a + b == b;
    } else {
      assert (a + b)[1..] == a[1..] + b;
      CarryAppend(env, Ask(env, log, a[0]).log, a[1..], b, ending);
    }
  }

  lemma CarryStep(env: Env, log: seq<Command>, c: Command, rest: seq<Command>, ending: Result<()>)
    ensures var t := Ask(env, log, c);
            Carry(env, log, Plan([c] + rest, ending))
            == match t.result case Err(f) => Trace(Err(f), t.log) case Ok(_) => Carry(env, t.log, Plan(rest, ending))
  {
    assert ([c] + rest)[1..] == rest;
  }

  /** What every run throws while no device is selected, and most operations before they have come to one. */
  function Disconnected<T>(): Result<T> {
    Err(Failure.Thrown(CApi.Communication(CApi.NOT_CONNECTED)))
  }

  function Library<T>(id: byte): Result<T> {
    Err(Failure.Thrown(CApi.Library(id)))
  }

  // ---------- Firmware versions ----------

  function VersionQuery(model: DeviceModel): Command {
    Command(if model == STORAGE then Packet.GET_DEVICE_STATUS else Packet.GET_STATUS, [])
  }

  /** get_minor_firmware_version: a Storage with a build iteration counts as the next minor version. */
  function MinorIn(model: DeviceModel, d: Response): byte {
    if model != STORAGE then d[0]
    else if d[29] == 0 then d[27]
    else
      (d[27] as int + 1) % 256
  }

  function MinorVersion(env: Env, log: seq<Command>): Trace<byte> {
    var t := Ask(env, log, VersionQuery(env.model));
    Trace(match t.result case Err(f) => Err(f) case Ok(d) => Ok(MinorIn(env.model, d)), t.log)
  }

  /** is_authorization_command_supported */
  predicate HasAuthorization(model: DeviceModel, minor: byte) {
    minor <= (if model == STORAGE then 53 else 7)
  }

  // ---------- Writing ----------

  datatype Slot = Slot(
    number: byte, name: Option<CString>, secret: CString, counter: nat,
    use8Digits: bool, useEnter: bool, useTokenId: bool, tokenId: Option<CString>, password: Option<CString>)

  const PASSWORD_SIZE: nat := 25
  const TOKEN_ID_SIZE: nat := 13
  const NAME_SIZE: nat := 15
  const SECRET_SIZE: nat := 20
  const COUNTER_SIZE: nat := 8
  const CHUNK_SIZE: nat := 30
  const MAXIMUM_OTP_SECRET_SIZE: nat := 40

  function Config(s: Slot): byte {
    (if s.use8Digits then 1 else 0) + (if s.useEnter then 2 else 0) + (if s.useTokenId then 4 else 0)
  }

  /** The counter field of WriteToHOTPSlot: text for a Storage, binary for the others. */
  function CounterField(model: DeviceModel, counter: nat): (field: Option<seq<byte>>)
    ensures field.Some? ==> |field.value| == COUNTER_SIZE
  {
    if model == STORAGE
    then if |Decimal(counter)| > COUNTER_SIZE then None else Some(Padded(Decimal(counter), COUNTER_SIZE))
    else Some(ToLittleEndian(counter, COUNTER_SIZE))
  }

  /** The Authorize command for another one: its future checksum and the temporary password. */
  function Authorization(c: Command, password: seq<byte>): Command
    requires |c.payload| <= Packet.PAYLOAD_CAPACITY
  {
    Command(AUTHORIZE, Crc32.WordBytes(Packet.CrcField(Packet.Outgoing(c.id, c.payload))) + password)
  }

  function HotpWrite(s: Slot, secret: seq<byte>, name: seq<byte>, token: seq<byte>, counter: seq<byte>): Command {
    Command(WRITE_TO_SLOT, [s.number] + name + secret + [Config(s)] + token + counter)
  }

  /** write_HOTP_slot_authorize, s.number being the internal slot number. */
  function AuthorizePlan(model: DeviceModel, s: Slot): Plan {
    match DecodeHex(s.secret)
    case InvalidHexString(_) => Plan([], Library(CApi.INVALID_HEX_STRING))
    case Decoded(bin) =>
      var secret, name := Copied(bin, SECRET_SIZE), Field(s.name, NAME_SIZE);
      var token, counter := Field(s.tokenId, TOKEN_ID_SIZE), CounterField(model, s.counter);
      if secret == None then Plan([], Library(CApi.TARGET_BUFFER_TOO_SMALL))
      else if name == None || token == None || counter == None then Plan([], Library(CApi.TOO_LONG_STRING))
      else
        var write := HotpWrite(s, secret.value, name.value, token.value, counter.value);
        var password := Field(s.password, PASSWORD_SIZE);
        if password == None then Plan([VersionQuery(model)], Library(CApi.TOO_LONG_STRING))
        else Plan([VersionQuery(model), Authorization(write, password.value)] + [write], Ok(()))
  }

  function SendOtpData(password: seq<byte>, kind: char, id: byte, data: seq<byte>): Command
    requires kind as int < 256
  {
    Command(SEND_OTP_DATA, password + [kind as int, id] + data)
  }

  /** The packets that carry a secret in chunks of this size, numbered from id on. */
  function SecretPackets(password: seq<byte>, secret: seq<byte>, id: byte, chunk: nat): seq<Command>
    requires chunk > 0
    decreases |secret|
  {
    if secret == [] then []
    else
      var n := Min(chunk, |secret|);
      [SendOtpData(password, 'S', id, Padded(secret[..n], chunk))]
      + SecretPackets(password, secret[n..], NextId(id), chunk)
  }

  /** id is an unsigned octet. */
  function NextId(id: byte): byte {
    (id as int + 1) % 256
  }

  function OtpWrite(s: Slot, password: seq<byte>, token: seq<byte>): Command {
    Command(WRITE_TO_SLOT, password + [s.number] + ToLittleEndian(s.counter, COUNTER_SIZE) + [Config(s)] + token)
  }

  lemma PacketsStep(password: seq<byte>, bin: seq<byte>, start: nat, id: byte, rest: seq<Command>)
    requires start < |bin|
    ensures var n := Min(CHUNK_SIZE, |bin| - start);
            SecretPackets(password, bin[start..], id, CHUNK_SIZE) + rest
            == [SendOtpData(password, 'S', id, Padded(bin[start..start + n], CHUNK_SIZE))]
               + (SecretPackets(password, bin[start + n..], NextId(id), CHUNK_SIZE) + rest)
  {
    var n := Min(CHUNK_SIZE, |bin| - start);
    assert bin[start..][..n] == bin[start..start + n];
    assert bin[start..][n..] == bin[start + n..];
  }

  lemma NoPackets(password: seq<byte>, bin: seq<byte>, id: byte, rest: seq<Command>)
    ensures SecretPackets(password, bin[|bin|..], id, CHUNK_SIZE) + rest == rest
  {
  }

  /** Sending the slot itself, once the secret is there. */
  function SlotPlan(s: Slot, password: seq<byte>): Plan {
    match Field(s.tokenId, TOKEN_ID_SIZE)
    case None => Plan([], Library(CApi.TOO_LONG_STRING))
    case Some(token) => Plan([OtpWrite(s, password, token)], Ok(()))
  }

  function SecretPlan(s: Slot, password: seq<byte>, secret: seq<byte>): Plan {
    var slot := SlotPlan(s, password);
    Plan(SecretPackets(password, secret, 0, CHUNK_SIZE) + slot.commands, slot.ending)
  }

  function AfterName(s: Slot, password: seq<byte>): Plan {
    match DecodeHex(s.secret)
    case InvalidHexString(_) => Plan([], Library(CApi.INVALID_HEX_STRING))
    case Decoded(bin) =>
      if |bin| > MAXIMUM_OTP_SECRET_SIZE then Plan([], Library(CApi.TARGET_BUFFER_TOO_SMALL))
      else SecretPlan(s, password, bin)
  }

  /** write_OTP_slot_no_authorize: the name goes out before the secret is looked at. */
  function NoAuthorizePlan(s: Slot): Plan {
    var password, name := Field(s.password, PASSWORD_SIZE), Field(s.name, CHUNK_SIZE);
    if password == None || name == None then Plan([], Library(CApi.TOO_LONG_STRING))
    else
      var rest := AfterName(s, password.value);
      Plan([SendOtpData(password.value, 'N', 0, name.value)] + rest.commands, rest.ending)
  }

  function WritePlan(model: DeviceModel, minor: byte, s: Slot): Plan {
    if HasAuthorization(model, minor) then AuthorizePlan(model, s) else NoAuthorizePlan(s)
  }

  function InternalHotpSlot(slot: byte): byte {
    (0x10 + slot) % 256
  }

  /** write_HOTP_slot */
  function WriteHotp(env: Env, log: seq<Command>, s: Slot): Trace<()> {
    if s.number >= 3 then Trace(Library(CApi.INVALID_SLOT), log)
    else
      var v := MinorVersion(env, log);
      match v.result
      case Err(f) => Trace(Err(f), v.log)
      case Ok(minor) => Carry(env, v.log, WritePlan(env.model, minor, s.(number := InternalHotpSlot(s.number))))
  }

  // ---------- Reading ----------

  const SLOT_COUNTER_OFFSET: nat := 29

  function StoredCounter(d: Response): seq<byte> {
    d[SLOT_COUNTER_OFFSET..SLOT_COUNTER_OFFSET + COUNTER_SIZE]
  }

  /** The same slot data with another counter. */
  function WithCounter(d: Response, counter: nat): Response {
    d[..SLOT_COUNTER_OFFSET] + ToLittleEndian(counter, COUNTER_SIZE) + d[SLOT_COUNTER_OFFSET + COUNTER_SIZE..]
  }

  /** ReadSlot asks for the binary format, which only a newer Storage honours. */
  function ReadSlot(number: byte): Command {
    Command(READ_SLOT, [number, 1, 0, 0, 0])
  }

  /** get_OTP_slot_data, on an internal slot number. */
  function ReadOtp(env: Env, log: seq<Command>, number: byte): Trace<Response> {
    var t := Ask(env, log, ReadSlot(number));
    if t.result.Err? || env.model != STORAGE then t
    else
      var v := MinorVersion(env, t.log);
      match v.result
      case Err(f) => Trace(Err(f), v.log)
      case Ok(minor) =>
        if minor > 53 || number >= 0x20 then Trace(t.result, v.log)
        else
          match Stoull(StoredCounter(t.result.value))
          case None => Trace(Err(InvalidArgument), v.log)
          case Some(counter) => Trace(Ok(WithCounter(t.result.value, counter)), v.log)
  }

  /** get_HOTP_slot_data, which takes any slot number. */
  function ReadHotp(env: Env, log: seq<Command>, slot: byte): Trace<Response> {
    ReadOtp(env, log, InternalHotpSlot(slot))
  }

  /** What NK_read_HOTP_slot returns: get_with_status has no handler for std::stoull's exception. */
  function ReadStatus(r: Result<Response>): Option<byte> {
    match r
    case Ok(_) => Some(CApi.CodeWithStatus(None))
    case Err(Thrown(f)) => Some(CApi.CodeWithStatus(Some(f)))
    case Err(InvalidArgument) => None
  }

  function CounterOf(d: Response): nat {
    FromLittleEndian(StoredCounter(d))
  }

  // ---------- The operations ----------

  /** The manager's operations on its current device env, if it has got one. */
  class Session {
    const env: Env
    const connected: bool
    var log: seq<Command>

    constructor (env: Env, connected: bool)
      ensures this.env == env && this.connected == connected && log == []
    {
      this.env, this.connected, log := env, connected, [];
    }

    method Run(c: Command) returns (r: Result<Response>)
      modifies this`log
      ensures connected ==> Trace(r, log) == Ask(env, old(log), c)
      ensures !connected ==> r == Disconnected() && log == old(log)
    {
      if !connected {
        return Disconnected();
      }
      log := log + [c];
      r := ResultOf(env.answer(log));
    }

    method GetMinorFirmwareVersion() returns (r: Result<byte>)
      modifies this`log
      ensures connected ==> Trace(r, log) == MinorVersion(env, old(log))
      ensures !connected ==> r == Disconnected() && log == old(log)
    {
      if !connected {
        return Disconnected();
      }
      var status := Run(VersionQuery(env.model));
      match status {
        case Err(f) => return Err(f);
        case Ok(d) => return Ok(MinorIn(env.model, d));
      }
    }

    method IsAuthorizationCommandSupported() returns (r: Result<bool>)
      modifies this`log
      ensures connected ==>
                var v := MinorVersion(env, old(log));
                log == v.log && r == match v.result
                                     case Err(f) => Err(f)
                                     case Ok(minor) => Ok(HasAuthorization(env.model, minor))
      ensures !connected ==> r == Disconnected() && log == old(log)
    {
      var minor := GetMinorFirmwareVersion();
      match minor {
        case Err(f) => return Err(f);
        case Ok(m) => return Ok(HasAuthorization(env.model, m));
      }
    }

    /** authorize_packet: whether the command is supported is only logged, but asking may throw. */
    method AuthorizePacket(c: Command, temporaryPassword: Option<CString>) returns (r: Result<()>)
      requires |c.payload| <= Packet.PAYLOAD_CAPACITY
      modifies this`log
      ensures connected ==>
                var password := Field(temporaryPassword, PASSWORD_SIZE);
                Trace(r, log) == Carry(env, old(log),
                  if password == None then Plan([VersionQuery(env.model)], Library(CApi.TOO_LONG_STRING))
                  else Plan([VersionQuery(env.model), Authorization(c, password.value)], Ok(())))
      ensures !connected ==> r == Disconnected() && log == old(log)
    {
      hide Packet.Outgoing, Packet.CrcField, Crc32.WordBytes, Carry;
      ghost var query := VersionQuery(env.model);
      CarryOne(env, log, query, Ok(()));
      CarryOne(env, log, query, Library(CApi.TOO_LONG_STRING));
      forall p | |p| == PASSWORD_SIZE
        ensures [query] + [Authorization(c, p)] == [query, Authorization(c, p)]
      {
      }
      ghost var before := log;
      var supported := IsAuthorizationCommandSupported();
      if supported.Err? {
        ghost var p := Field(temporaryPassword, PASSWORD_SIZE);
        if p.Some? {
          CarryAppend(env, before, [query], [Authorization(c, p.value)], Ok(()));
        }
        return Err(supported.failure);
      }
      var password := MakeField(temporaryPassword, PASSWORD_SIZE);
      if password == None {
        return Library(CApi.TOO_LONG_STRING);
      }
      CarryAppend(env, before, [query], [Authorization(c, password.value)], Ok(()));
      CarryOne(env, log, Authorization(c, password.value), Ok(()));
      var crc := Packet.GetCrc(c.id, c.payload);
      var answer := Run(Command(AUTHORIZE, Crc32.WordBytes(crc) + password.value));
      match answer {
        case Err(f) => return Err(f);
        case Ok(_) => return Ok(());
      }
    }

    /** write_HOTP_slot_authorize */
    method WriteHotpSlotAuthorize(s: Slot) returns (r: Result<()>)
      modifies this`log
      ensures connected ==> Trace(r, log) == Carry(env, old(log), AuthorizePlan(env.model, s))
      ensures !connected ==> r == Disconnected() && log == old(log)
    {
      if !connected {
        return Disconnected();
      }
      hide Packet.Outgoing, Packet.CrcField, Authorization, Carry;
      ghost var before := log;
      CarryNothing(env, log, Library(CApi.INVALID_HEX_STRING));
      CarryNothing(env, log, Library(CApi.TARGET_BUFFER_TOO_SMALL));
      CarryNothing(env, log, Library(CApi.TOO_LONG_STRING));
      var bin := HexStringToByte(s.secret);
      if bin.InvalidHexString? {
        return Library(CApi.INVALID_HEX_STRING);
      }
      var secret := Copied(bin.data, SECRET_SIZE);
      if secret == None {
        return Library(CApi.TARGET_BUFFER_TOO_SMALL);
      }
      var name := MakeField(s.name, NAME_SIZE);
      if name == None {
        return Library(CApi.TOO_LONG_STRING);
      }
      var token := MakeField(s.tokenId, TOKEN_ID_SIZE);
      if token == None {
        return Library(CApi.TOO_LONG_STRING);
      }
      var counter := CounterField(env.model, s.counter);
      if counter == None {
        return Library(CApi.TOO_LONG_STRING);
      }
      var write := HotpWrite(s, secret.value, name.value, token.value, counter.value);
      r := AuthorizePacket(write, s.password);
      ghost var password := Field(s.password, PASSWORD_SIZE);
      if password.Some? {
        CarryAppend(env, before, [VersionQuery(env.model), Authorization(write, password.value)], [write], Ok(()));
        CarryOne(env, log, write, Ok(()));
      } else {
        CarryOne(env, before, VersionQuery(env.model), Library(CApi.TOO_LONG_STRING));
      }
      if r.Err? {
        return;
      }
      var answer := Run(write);
      match answer {
        case Err(f) => return Err(f);
        case Ok(_) => return Ok(());
      }
    }

    /** write_OTP_slot_no_authorize */
    method WriteOtpSlotNoAuthorize(s: Slot) returns (r: Result<()>)
      modifies this`log
      ensures connected ==> Trace(r, log) == Carry(env, old(log), NoAuthorizePlan(s))
      ensures !connected ==>
                && log == old(log)
                && r == if Field(s.password, PASSWORD_SIZE) == None || Field(s.name, CHUNK_SIZE) == None
                        then Library(CApi.TOO_LONG_STRING)
                        else Disconnected()
    {
      hide Carry, SecretPackets;
      CarryNothing(env, log, Library(CApi.TOO_LONG_STRING));
      var password := MakeField(s.password, PASSWORD_SIZE);
      if password == None {
        return Library(CApi.TOO_LONG_STRING);
      }
      var name := MakeField(s.name, CHUNK_SIZE);
      if name == None {
        return Library(CApi.TOO_LONG_STRING);
      }
      var first := SendOtpData(password.value, 'N', 0, name.value);
      ghost var rest := AfterName(s, password.value);
      CarryStep(env, log, first, rest.commands, rest.ending);
      var answer := Run(first);
      if answer.Err? {
        return Err(answer.failure);
      }
      CarryNothing(env, log, Library(CApi.INVALID_HEX_STRING));
      CarryNothing(env, log, Library(CApi.TARGET_BUFFER_TOO_SMALL));
      var bin := HexStringToByte(s.secret);
      if bin.InvalidHexString? {
        return Library(CApi.INVALID_HEX_STRING);
      }
      if |bin.data| > MAXIMUM_OTP_SECRET_SIZE {
        return Library(CApi.TARGET_BUFFER_TOO_SMALL);
      }
      r := WriteSecret(s, password.value, bin.data);
    }

    /** The packets of a secret, and then the slot. */
    method WriteSecret(s: Slot, password: seq<byte>, bin: seq<byte>) returns (r: Result<()>)
      requires connected && |password| == PASSWORD_SIZE && Field(s.password, PASSWORD_SIZE) == Some(password)
      modifies this`log
      ensures Trace(r, log) == Carry(env, old(log), SecretPlan(s, password, bin))
    {
      hide Carry, SecretPackets, Decimal, OtpWrite;
      ghost var ending := SlotPlan(s, password);
      var remaining, id: byte := |bin|, 0;
      assert bin[0..] == bin;
      while remaining > 0
        invariant 0 <= remaining <= |bin|
        invariant Carry(env, old(log), SecretPlan(s, password, bin))
               == Carry(env, log, Plan(SecretPackets(password, bin[|bin| - remaining..], id, CHUNK_SIZE)
                                       + ending.commands, ending.ending))
      {
        var bytesToCopy := Min(CHUNK_SIZE, remaining);
        var start := |bin| - remaining;
        var data := Chunk(bin, start, bytesToCopy);
        var packet := SendOtpData(password, 'S', id, data);
        PacketsStep(password, bin, start, id, ending.commands);
        CarryStep(env, log, packet, SecretPackets(password, bin[start + bytesToCopy..], NextId(id), CHUNK_SIZE)
                                    + ending.commands, ending.ending);
        var answer := Run(packet);
        if answer.Err? {
          return Err(answer.failure);
        }
        remaining := remaining - bytesToCopy;
        id := NextId(id);
      }
      NoPackets(password, bin, id, ending.commands);
      var token := MakeField(s.tokenId, TOKEN_ID_SIZE);
      if token == None {
        CarryNothing(env, log, Library(CApi.TOO_LONG_STRING));
        return Library(CApi.TOO_LONG_STRING);
      }
      var write := OtpWrite(s, password, token.value);
      CarryOne(env, log, write, Ok(()));
      var answer := Run(write);
      match answer {
        case Err(f) => return Err(f);
        case Ok(_) => return Ok(());
      }
    }

    /** memset and vector_copy_ranged into the data field. */
    method Chunk(bin: seq<byte>, start: nat, n: nat) returns (data: seq<byte>)
      requires n <= CHUNK_SIZE && start + n <= |bin|
      ensures data == Padded(bin[start..start + n], CHUNK_SIZE)
    {
      var buffer := new byte[CHUNK_SIZE](_ => 0);
      for i := 0 to n
        invariant forall k :: 0 <= k < i ==> buffer[k] == bin[start + k]
        invariant forall k :: i <= k < CHUNK_SIZE ==> buffer[k] == 0
      {
        buffer[i] := bin[start + i];
      }
      data := buffer[..];
    }

    /** write_HOTP_slot */
    method WriteHotpSlot(s: Slot) returns (r: Result<()>)
      modifies this`log
      ensures connected ==> Trace(r, log) == WriteHotp(env, old(log), s)
      ensures !connected ==> log == old(log) && r == if s.number >= 3 then Library(CApi.INVALID_SLOT) else Disconnected()
    {
      hide Carry;
      if s.number >= 3 {
        return Library(CApi.INVALID_SLOT);
      }
      var internal := s.(number := InternalHotpSlot(s.number));
      var supported := IsAuthorizationCommandSupported();
      if supported.Err? {
        return Err(supported.failure);
      }
      if supported.value {
        r := WriteHotpSlotAuthorize(internal);
      } else {
        r := WriteOtpSlotNoAuthorize(internal);
      }
    }

    /** get_OTP_slot_data */
    method GetOtpSlotData(number: byte) returns (r: Result<Response>)
      modifies this`log
      ensures connected ==> Trace(r, log) == ReadOtp(env, old(log), number)
      ensures !connected ==> r == Disconnected() && log == old(log)
    {
      if !connected {
        return Disconnected();
      }
      r := Run(ReadSlot(number));
      if r.Err? {
        return;
      }
      if env.model == STORAGE {
        var minor := GetMinorFirmwareVersion();
        if minor.Err? {
          return Err(minor.failure);
        }
        if minor.value <= 53 && number < 0x20 {
          var counter := Stoull(StoredCounter(r.value));
          if counter == None {
            return Err(InvalidArgument);
          }
          return Ok(WithCounter(r.value, counter.value));
        }
      }
    }

    /** NK_read_HOTP_slot; None when an exception leaves the C interface. */
    method NkReadHotpSlot(slot: byte) returns (status: Option<byte>, data: Option<Response>)
      modifies this`log
      ensures connected ==>
                var t := ReadHotp(env, old(log), slot);
                && log == t.log && status == ReadStatus(t.result)
                && data == (if t.result.Ok? then Some(t.result.value) else None)
      ensures !connected ==> log == old(log) && status == Some(255) && data == None
    {
      var r := GetHotpSlotData(slot);
      match r {
        case Ok(d) => return Some(0), Some(d);
        case Err(Thrown(f)) => return Some(CApi.CodeWithStatus(Some(f))), None;
        case Err(InvalidArgument) => return None, None;
      }
    }

    /** get_HOTP_slot_data */
    method GetHotpSlotData(slot: byte) returns (r: Result<Response>)
      modifies this`log
      ensures connected ==> Trace(r, log) == ReadHotp(env, old(log), slot)
      ensures !connected ==> r == Disconnected() && log == old(log)
    {
      r := GetOtpSlotData(InternalHotpSlot(slot));
    }
  }
}
