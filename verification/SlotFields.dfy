/** What writing and reading a slot puts where, octet by octet (NitrokeyManager.cc). */
module SlotFields {
  import opened Bytes
  import opened Text
  import opened Usb
  import opened Replies
  import opened Fields
  import opened OtpSlot
  import opened OtpProperties
  import StatusLayout
  import Packet
  import CApi

  // ---------- Writing with authorization ----------

  /** The last command of an authorized write holds the slot: its name, secret, options, token identifier and counter. */
  lemma AuthorizedWriteFields(model: DeviceModel, s: Slot)
    requires AuthorizePlan(model, s).ending.Ok?
    ensures var commands, d := AuthorizePlan(model, s).commands, DecodeHex(s.secret);
            && |commands| == 3 && commands[0] == VersionQuery(model)
            && var c := commands[2];
               && c.id == WRITE_TO_SLOT && |c.payload| == 58
               && c.payload[0] == s.number
               && Some(c.payload[1..16]) == Field(s.name, 15)
               && d.Decoded? && |d.data| <= 20 && c.payload[16..36] == d.data + Fill(20 - |d.data|)
               && HasConfig(c.payload[36], s)
               && Some(c.payload[37..50]) == Field(s.tokenId, 13)
               && (model != STORAGE ==> c.payload[50..58] == ToLittleEndian(s.counter, 8))
               && (model == STORAGE ==>
                     |Decimal(s.counter)| <= 8 && c.payload[50..58] == Decimal(s.counter) + Fill(8 - |Decimal(s.counter)|))
  {
    hide Field, DecodeHex, Decimal, ToLittleEndian, Authorization, VersionQuery, HotpWrite;
    var bin := DecodeHex(s.secret).data;
    var secret, name := Copied(bin, SECRET_SIZE).value, Field(s.name, NAME_SIZE).value;
    var token, counter := Field(s.tokenId, TOKEN_ID_SIZE).value, CounterField(model, s.counter).value;
    HotpWriteLayout(s, secret, name, token, counter);
    HotpWriteStarts(s, secret, name, token, counter);
  }

  lemma HotpWriteStarts(s: Slot, secret: seq<byte>, name: seq<byte>, token: seq<byte>, counter: seq<byte>)
    requires |secret| == SECRET_SIZE && |name| == NAME_SIZE && |token| == TOKEN_ID_SIZE && |counter| == COUNTER_SIZE
    ensures var c := HotpWrite(s, secret, name, token, counter);
            c.id == WRITE_TO_SLOT && |c.payload| == 58 && c.payload[0] == s.number && c.payload[50..58] == counter
  {
    var front := [s.number] + name + secret + [Config(s)] + token;
    assert |front| == 50 && HotpWrite(s, secret, name, token, counter).payload == front + counter;
  }

  /** What a field holds: the text and then zeros, or only zeros for null. */
  lemma FieldIs(src: Option<CString>, size: nat)
    requires size < FIELD_WIDTH_MAX && OtpProperties.Fits(src, size)
    ensures Field(src, size) == Some(if src == None then Fill(size) else CharBytes(src.value) + Fill(size - |src.value|))
    ensures src.Some? ==> forall i :: 0 <= i < |src.value| ==> CharBytes(src.value)[i] == src.value[i] as int
  {
    if src.Some? {
      assert Padded(CharBytes(src.value), size) == CharBytes(src.value) + Fill(size - |src.value|);
    }
  }

  // ---------- Writing without ----------

  /** The first command carries the password and the name, the last one everything else but the secret. */
  lemma PlainWriteFields(s: Slot)
    requires NoAuthorizePlan(s).ending.Ok?
    ensures var commands := NoAuthorizePlan(s).commands;
            && |commands| >= 2
            && var n, c := commands[0], commands[|commands| - 1];
               && n.id == SEND_OTP_DATA && |n.payload| == 57
               && Some(n.payload[..25]) == Field(s.password, 25)
               && n.payload[25] == 'N' as int && n.payload[26] == 0
               && Some(n.payload[27..57]) == Field(s.name, 30)
               && c.id == WRITE_TO_SLOT && |c.payload| == 48
               && Some(c.payload[..25]) == Field(s.password, 25)
               && c.payload[25] == s.number && c.payload[26..34] == ToLittleEndian(s.counter, 8)
               && HasConfig(c.payload[34], s)
               && Some(c.payload[35..48]) == Field(s.tokenId, 13)
  {
    hide Field, DecodeHex, SecretPackets, SendOtpData, OtpWrite, ToLittleEndian;
    var password, name := Field(s.password, PASSWORD_SIZE).value, Field(s.name, CHUNK_SIZE).value;
    var token := Field(s.tokenId, TOKEN_ID_SIZE).value;
    NamePacket(password, name);
    OtpWriteLayout(s, password, token);
    OtpWriteIs(s, password, token);
    var rest := AfterName(s, password).commands;
    assert rest[|rest| - 1] == OtpWrite(s, password, token);
    var commands := NoAuthorizePlan(s).commands;
    assert commands[1..] == rest;
    assert commands[|commands| - 1] == rest[|rest| - 1];
  }

  lemma NamePacket(password: seq<byte>, name: seq<byte>)
    requires |password| == PASSWORD_SIZE && |name| == CHUNK_SIZE
    ensures var n := SendOtpData(password, 'N', 0, name);
            && n.id == SEND_OTP_DATA && |n.payload| == 57
            && n.payload[..25] == password && n.payload[25] == 'N' as int && n.payload[26] == 0
            && n.payload[27..57] == name
  {
  }

  lemma OtpWriteIs(s: Slot, password: seq<byte>, token: seq<byte>)
    requires |password| == PASSWORD_SIZE && |token| == TOKEN_ID_SIZE
    ensures var c := OtpWrite(s, password, token);
            && c.id == WRITE_TO_SLOT && |c.payload| == 48
            && c.payload[25] == s.number && c.payload[26..34] == ToLittleEndian(s.counter, 8)
  {
    hide ToLittleEndian, Config;
    var counter := ToLittleEndian(s.counter, COUNTER_SIZE);
    var front, back := password + [s.number], [Config(s)] + token;
    assert OtpWrite(s, password, token).payload == front + (counter + back);
    assert |front| == 26;
  }

  /** The packets in between carry the octets the secret spells, in their order. */
  lemma PlainWriteSecret(s: Slot)
    requires NoAuthorizePlan(s).ending.Ok?
    ensures var commands, d := NoAuthorizePlan(s).commands, DecodeHex(s.secret);
            && d.Decoded? && |commands| >= 2
            && var joined := Joined(commands[1..|commands| - 1]);
               d.data <= joined && forall i :: |d.data| <= i < |joined| ==> joined[i] == 0
  {
    hide NoAuthorizePlan, Field, DecodeHex, SecretPackets, Joined;
    PlainWriteFields(s);
    var commands := NoAuthorizePlan(s).commands;
    OnlyLastWrites(s, |commands| - 1);
    SecretJoined(Field(s.password, PASSWORD_SIZE).value, DecodeHex(s.secret).data, 0, CHUNK_SIZE);
  }

  // ---------- Which slot, which commands ----------

  /** The firmware counts HOTP slots from 16, and authorization went out with versions 0.54 and 0.8. */
  lemma FirmwareNumbers(slot: byte, model: DeviceModel, minor: byte)
    ensures slot < 3 ==> InternalHotpSlot(slot) == 16 + slot
    ensures HasAuthorization(model, minor) <==> if model == STORAGE then minor < 54 else minor < 8
    ensures VersionQuery(STORAGE) == Command(0x20 + 14, []) && VersionQuery(PRO) == VersionQuery(LIBREM) == Command(0, [])
    ensures ReadSlot(slot).id == 3 && |ReadSlot(slot).payload| == 5 && ReadSlot(slot).payload[..2] == [slot, 1]
  {
  }

  /** A write that succeeds has sent its plan, after the question for the version. */
  lemma SuccessfulWrite(env: Env, log: seq<Command>, s: Slot)
    requires WriteHotp(env, log, s).result.Ok?
    ensures s.number < 3 && AnsweredMinor(env, log).Some?
    ensures var p := WritePlan(env.model, AnsweredMinor(env, log).value, s.(number := InternalHotpSlot(s.number)));
            && p.ending.Ok?
            && WriteHotp(env, log, s).log == log + [VersionQuery(env.model)] + p.commands
  {
    hide WritePlan, Carry;
    var asked := log + [VersionQuery(env.model)];
    var p := WritePlan(env.model, AnsweredMinor(env, log).value, s.(number := InternalHotpSlot(s.number)));
    assert WriteHotp(env, log, s) == Carry(env, asked, p);
    CarryEffects(env, asked, p);
    assert p.commands[..|p.commands|] == p.commands;
  }

  /** The command every write ends with, and the slot that it addresses. */
  lemma WrittenSlot(env: Env, log: seq<Command>, s: Slot) returns (c: Command, minor: byte)
    requires WriteHotp(env, log, s).result.Ok?
    ensures s.number < 3 && c.id == WRITE_TO_SLOT
    ensures |c.payload| == if HasAuthorization(env.model, minor) then 58 else 48
    ensures c.payload[if HasAuthorization(env.model, minor) then 0 else 25] == 16 + s.number
    ensures AnsweredMinor(env, log) == Some(minor)
    ensures var sent := WriteHotp(env, log, s).log; sent != [] && c == sent[|sent| - 1]
  {
    hide WriteHotp, AuthorizePlan, NoAuthorizePlan, Field, DecodeHex, ToLittleEndian, Decimal, VersionQuery, AnsweredMinor;
    SuccessfulWrite(env, log, s);
    minor := AnsweredMinor(env, log).value;
    var internal := s.(number := InternalHotpSlot(s.number));
    var commands := WritePlan(env.model, minor, internal).commands;
    if HasAuthorization(env.model, minor) {
      AuthorizedWriteFields(env.model, internal);
    } else {
      PlainWriteFields(internal);
    }
    c := commands[|commands| - 1];
  }

  // ---------- Rejections ----------

  /** The code a rejected write is reported with, by what is wrong with the slot, in the order it is found. */
  lemma RejectionCodes(model: DeviceModel, minor: byte, s: Slot)
    requires WritePlan(model, minor, s).ending.Err?
    ensures var legacy, d := HasAuthorization(model, minor), DecodeHex(s.secret);
            var r, early := WritePlan(model, minor, s).ending,
                            !legacy && !(OtpProperties.Fits(s.password, 25) && OtpProperties.Fits(s.name, 30));
            && r.failure.Thrown?
            && CApi.CodeWithoutResult(Some(r.failure.failure))
               == if early then 200
                  else if !d.Decoded? then 202
                  else if |d.data| > (if legacy then 20 else 40) then 203
                  else 200
  {
    FieldFits(s.password, PASSWORD_SIZE);
    FieldFits(s.name, CHUNK_SIZE);
    hide Field, DecodeHex, CounterField, SecretPackets, Authorization, HotpWrite, OtpWrite, SendOtpData;
  }

  /** A slot number out of range gives 201, and nothing is sent. */
  lemma InvalidSlotCode(env: Env, log: seq<Command>, s: Slot)
    requires s.number >= 3
    ensures var t := WriteHotp(env, log, s);
            && t.log == log && t.result.Err? && t.result.failure.Thrown?
            && CApi.CodeWithoutResult(Some(t.result.failure.failure)) == 201
  {
  }

  // ---------- Versions ----------

  /** A stick's minor version is the first octet of its status. */
  lemma StickVersion(model: DeviceModel, s: StatusLayout.StickStatus)
    requires model != STORAGE && StatusLayout.IsStickStatus(s)
    ensures MinorIn(model, StatusLayout.StickPayload(s)) == s.minor
  {
  }

  /** A Storage's minor version is its own field, one more for development firmware. */
  lemma StorageVersion(s: StatusLayout.StorageStatus)
    requires StatusLayout.IsStorageStatus(s)
    ensures |StatusLayout.StoragePayload(s)| == RESPONSE_SIZE
    ensures MinorIn(STORAGE, StatusLayout.StoragePayload(s))
         == if s.buildIteration == 0 then s.minor else if s.minor == 255 then 0 else s.minor + 1
  {
    StatusLayout.StorageOffsets(s);
  }

  // ---------- Reading ----------

  /**
   Reading a slot changes at most its counter, and that only on an older Storage, from text to binary: everything else
   is as the device has answered.
   */
  lemma ReadKeepsRest(env: Env, log: seq<Command>, number: byte)
    requires ReadOtp(env, log, number).result.Ok?
    ensures var read := log + [ReadSlot(number)];
            var d, a, minor := ReadOtp(env, log, number).result.value, env.answer(read), AnsweredMinor(env, read);
            && a.Answered? && d[..29] == a.data[..29] && d[37..] == a.data[37..]
            && (env.model == STORAGE ==> minor.Some?)
            && if env.model == STORAGE && minor.value < 54 && number < 0x20
               then Stoull(a.data[29..37]).Some? && d[29..37] == ToLittleEndian(Stoull(a.data[29..37]).value, 8)
               else d == a.data
  {
    hide Stoull, ToLittleEndian;
  }

  /** So the slot read has the name, options and token identifier of the slot stored. */
  lemma SlotRead(env: Env, log: seq<Command>, number: byte, s: StatusLayout.SlotData)
    requires StatusLayout.IsSlotData(s)
    requires env.answer(log + [ReadSlot(number)]) == Answered(StatusLayout.SlotPayload(s))
    requires ReadOtp(env, log, number).result.Ok?
    ensures exists counter: seq<byte> :: |counter| == 8
              && ReadOtp(env, log, number).result.value == StatusLayout.SlotPayload(s.(counter := counter))
  {
    ReadKeepsRest(env, log, number);
    var d, a := ReadOtp(env, log, number).result.value, StatusLayout.SlotPayload(s);
    var counter := d[29..37];
    assert a[..29] == s.name + [s.config] + s.tokenId && a[37..] == s.rest;
    assert d == d[..29] + counter + d[37..];
    assert d == StatusLayout.SlotPayload(s.(counter := counter));
  }
}
