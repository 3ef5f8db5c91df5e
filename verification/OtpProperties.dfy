/** What writing and reading OTP slots amounts to (NitrokeyManager.cc). */
module OtpProperties {
  import opened Bytes
  import opened Text
  import opened Usb
  import opened Replies
  import opened Fields
  import opened OtpSlot
  import Crc32
  import Packet
  import CApi

  // ---------- How far a plan gets ----------

  /** Only a beginning of the plan is sent, all of it but the last command answered; what follows an error is not sent. */
  lemma {:induction false} CarryEffects(env: Env, log: seq<Command>, p: Plan)
    ensures var t := Carry(env, log, p);
            && |log| <= |t.log| <= |log| + |p.commands|
            && t.log == log + p.commands[..|t.log| - |log|]
            && (forall k :: |log| < k < |t.log| ==> env.answer(t.log[..k]).Answered?)
            && (t.result.Ok? ==>
                  |t.log| == |log| + |p.commands| && p.ending.Ok? && (p.commands != [] ==> env.answer(t.log).Answered?))
            && (|t.log| < |log| + |p.commands| ==> t.result.Err?)
    decreases |p.commands|
  {
    var t := Carry(env, log, p);
    if p.commands != [] {
      var log' := log + [p.commands[0]];
      if env.answer(log').Failed? {
        assert t.log == log';
        assert p.commands[..1] == [p.commands[0]];
      } else {
        var rest := Plan(p.commands[1..], p.ending);
        CarryEffects(env, log', rest);
        var n := |t.log| - |log|;
        assert n >= 1 && p.commands[..n] == [p.commands[0]] + rest.commands[..n - 1];
        assert t.log == log + p.commands[..n];
        assert t.log[..|log| + 1] == log';
      }
    }
  }

  // ---------- Secrets in chunks ----------

  const HEADER_SIZE: nat := 27

  /** The data parts of packets, put together. */
  function Joined(packets: seq<Command>): seq<byte> {
    if packets == [] then []
    else
      var p := packets[0].payload;
      (if |p| < HEADER_SIZE then [] else p[HEADER_SIZE..]) + Joined(packets[1..])
  }

  predicate IsSecretPacket(c: Command, password: seq<byte>, id: byte, chunk: nat) {
    && c.id == SEND_OTP_DATA
    && |c.payload| == HEADER_SIZE + chunk
    && c.payload[..HEADER_SIZE] == password + ['S' as int, id]
  }

  function NthId(id: byte, i: nat): byte {
    (id as int + i) % 256
  }

  /** The packets are numbered one after the other and all have the same size. */
  lemma {:induction false} SecretNumbered(password: seq<byte>, secret: seq<byte>, id: byte, chunk: nat)
    requires |password| == PASSWORD_SIZE && chunk > 0
    ensures var packets := SecretPackets(password, secret, id, chunk);
            && |packets| <= |secret|
            && forall i :: 0 <= i < |packets| ==> IsSecretPacket(packets[i], password, NthId(id, i), chunk)
    decreases |secret|
  {
    if secret != [] {
      var n := Min(chunk, |secret|);
      var packets := SecretPackets(password, secret, id, chunk);
      var data, rest := Padded(secret[..n], chunk), SecretPackets(password, secret[n..], NextId(id), chunk);
      var first := SendOtpData(password, 'S', id, data);
      PacketsUnfold(password, secret, id, chunk);
      hide SecretPackets, IsSecretPacket, SendOtpData, Padded, NthId;
      SecretNumbered(password, secret[n..], NextId(id), chunk);
      FirstPacket(password, id, data);
      forall i | 0 <= i < |packets| ensures IsSecretPacket(packets[i], password, NthId(id, i), chunk) {
        NextIds(id, i);
        assert packets[i] == if i == 0 then first else rest[i - 1];
      }
    }
  }

  lemma PacketsUnfold(password: seq<byte>, secret: seq<byte>, id: byte, chunk: nat)
    requires chunk > 0 && secret != []
    ensures var n := Min(chunk, |secret|);
            SecretPackets(password, secret, id, chunk)
            == [SendOtpData(password, 'S', id, Padded(secret[..n], chunk))]
               + SecretPackets(password, secret[n..], NextId(id), chunk)
  {
  }

  lemma NextIds(id: byte, i: nat)
    ensures NthId(id, 0) == id
    ensures i > 0 ==> NthId(NextId(id), i - 1) == NthId(id, i)
  {
  }

  lemma FirstPacket(password: seq<byte>, id: byte, data: seq<byte>)
    requires |password| == PASSWORD_SIZE
    ensures var c := SendOtpData(password, 'S', id, data);
            IsSecretPacket(c, password, id, |data|) && c.payload[HEADER_SIZE..] == data
  {
  }

  /** Joined, the packets' data is the secret and then less than a chunk of zeros. */
  lemma {:induction false} SecretJoined(password: seq<byte>, secret: seq<byte>, id: byte, chunk: nat)
    requires |password| == PASSWORD_SIZE && chunk > 0
    ensures var joined := Joined(SecretPackets(password, secret, id, chunk));
            |secret| <= |joined| < |secret| + chunk && joined == secret + Fill(|joined| - |secret|)
    decreases |secret|
  {
    if secret == [] {
      assert Joined([]) == [] + Fill(0);
    } else {
      var n := Min(chunk, |secret|);
      var more := Joined(SecretPackets(password, secret[n..], NextId(id), chunk));
      SecretJoined(password, secret[n..], NextId(id), chunk);
      JoinedStep(password, secret, id, chunk);
      hide SecretPackets, Joined;
      if n == |secret| {
        assert |more| < chunk && more == [];
        assert secret[..n] == secret;
      } else {
        assert Padded(secret[..n], chunk) == secret[..n];
        Assembled(secret, n, |more| - |secret[n..]|);
      }
    }
  }

  lemma Assembled(secret: seq<byte>, n: nat, zeros: nat)
    requires n <= |secret|
    ensures secret[..n] + (secret[n..] + Fill(zeros)) == secret + Fill(zeros)
  {
  }

  lemma JoinedStep(password: seq<byte>, secret: seq<byte>, id: byte, chunk: nat)
    requires |password| == PASSWORD_SIZE && chunk > 0 && secret != []
    ensures var n := Min(chunk, |secret|);
            Joined(SecretPackets(password, secret, id, chunk))
            == Padded(secret[..n], chunk) + Joined(SecretPackets(password, secret[n..], NextId(id), chunk))
  {
    var n := Min(chunk, |secret|);
    var data, rest := Padded(secret[..n], chunk), SecretPackets(password, secret[n..], NextId(id), chunk);
    var first := SendOtpData(password, 'S', id, data);
    FirstPacket(password, id, data);
    PacketsUnfold(password, secret, id, chunk);
    hide SecretPackets, SendOtpData, IsSecretPacket;
    assert ([first] + rest)[1..] == rest;
  }

  lemma {:induction false} JoinedSize(packets: seq<Command>, chunk: nat)
    requires forall i :: 0 <= i < |packets| ==> |packets[i].payload| == HEADER_SIZE + chunk
    ensures |Joined(packets)| == |packets| * chunk
  {
    if packets != [] {
      JoinedSize(packets[1..], chunk);
      OneMore(|packets| - 1, chunk);
    }
  }

  /**
   Whatever the size of a chunk: the packets are numbered one after the other, all but the last are full,
   there are as few as will do, and their data joined is the secret and then zeros.
   */
  lemma SecretRecovered(password: seq<byte>, secret: seq<byte>, chunk: nat)
    requires |password| == PASSWORD_SIZE && chunk > 0 && |secret| <= MAXIMUM_OTP_SECRET_SIZE
    ensures var packets := SecretPackets(password, secret, 0, chunk);
            var n := |packets|;
            && |secret| <= n * chunk < |secret| + chunk
            && n <= |secret|
            && (forall i :: 0 <= i < n ==> IsSecretPacket(packets[i], password, i, chunk))
            && Joined(packets) == secret + Fill(n * chunk - |secret|)
  {
    hide SecretPackets, Joined;
    SecretNumbered(password, secret, 0, chunk);
    SecretJoined(password, secret, 0, chunk);
    var packets := SecretPackets(password, secret, 0, chunk);
    forall i | 0 <= i < |packets| ensures IsSecretPacket(packets[i], password, i, chunk) {
      assert IsSecretPacket(packets[i], password, NthId(0, i), chunk);
    }
    JoinedSize(packets, chunk);
  }

  // ---------- The slot is written last ----------

  /** Without authorization, the slot is written after its whole secret has been sent and each packet answered. */
  lemma SlotWrittenLast(env: Env, log: seq<Command>, s: Slot, j: nat)
    requires var t := Carry(env, log, NoAuthorizePlan(s));
             |log| <= j < |t.log| && t.log[j].id == WRITE_TO_SLOT
    ensures var sent := Carry(env, log, NoAuthorizePlan(s)).log;
            var secret := DecodeHex(s.secret);
            && secret.Decoded? && |secret.data| <= MAXIMUM_OTP_SECRET_SIZE
            && j == |sent| - 1 > |log|
            && secret.data <= Joined(sent[|log| + 1..j])
            && forall k :: |log| < k <= j ==> env.answer(sent[..k]).Answered?
  {
    var p := NoAuthorizePlan(s);
    var t := Carry(env, log, p);
    CarryEffects(env, log, p);
    hide Carry, SecretPackets, Joined;
    assert t.log[j] == p.commands[j - |log|];
    var password := Field(s.password, PASSWORD_SIZE).value;
    OnlyLastWrites(s, j - |log|);
    var bin := DecodeHex(s.secret).data;
    SecretRecovered(password, bin, CHUNK_SIZE);
    assert t.log[|log| + 1..j] == p.commands[1..j - |log|];
  }

  /** In the plan, WRITE_TO_SLOT is the last command, and the packets of the secret are what is between it and the name. */
  lemma OnlyLastWrites(s: Slot, j: nat)
    requires j < |NoAuthorizePlan(s).commands| && NoAuthorizePlan(s).commands[j].id == WRITE_TO_SLOT
    ensures var p := NoAuthorizePlan(s);
            var password, secret := Field(s.password, PASSWORD_SIZE), DecodeHex(s.secret);
            && password.Some? && secret.Decoded? && |secret.data| <= MAXIMUM_OTP_SECRET_SIZE
            && j == |p.commands| - 1 > 0
            && p.commands[1..j] == SecretPackets(password.value, secret.data, 0, CHUNK_SIZE)
  {
    var p := NoAuthorizePlan(s);
    var password := Field(s.password, PASSWORD_SIZE).value;
    var rest := AfterName(s, password).commands;
    assert p.commands[1..] == rest;
    assert p.commands[0].id == SEND_OTP_DATA;
    assert rest[j - 1].id == WRITE_TO_SLOT;
    var secret := DecodeHex(s.secret).data;
    var packets, slot := SecretPackets(password, secret, 0, CHUNK_SIZE), SlotPlan(s, password).commands;
    assert rest == packets + slot;
    PacketsSendData(password, secret);
    hide SecretPackets, DecodeHex;
    assert j - 1 >= |packets|;
    assert p.commands[1..j] == rest[..j - 1] == packets;
  }

  lemma PacketsSendData(password: seq<byte>, secret: seq<byte>)
    requires |password| == PASSWORD_SIZE
    ensures forall c :: c in SecretPackets(password, secret, 0, CHUNK_SIZE) ==> c.id == SEND_OTP_DATA
  {
    var packets := SecretPackets(password, secret, 0, CHUNK_SIZE);
    SecretNumbered(password, secret, 0, CHUNK_SIZE);
    forall i | 0 <= i < |packets| ensures packets[i].id == SEND_OTP_DATA {
      assert IsSecretPacket(packets[i], password, NthId(0, i), CHUNK_SIZE);
    }
  }

  // ---------- Authorization ----------

  /** The checksum that is authorized is the CRC field of the very report the next command is sent in. */
  lemma AuthorizedCrcMatches(model: DeviceModel, s: Slot)
    requires AuthorizePlan(model, s).ending.Ok?
    ensures var c := AuthorizePlan(model, s).commands;
            && |c| == 3 && c[1].id == AUTHORIZE && c[2].id == WRITE_TO_SLOT
            && |c[2].payload| <= Packet.PAYLOAD_CAPACITY
            && |c[1].payload| == 4 + PASSWORD_SIZE
            && c[1].payload[..4] == Packet.Outgoing(c[2].id, c[2].payload)[Packet.CRC_OFFSET..]
            && Some(c[1].payload[4..]) == Field(s.password, PASSWORD_SIZE)
  {
    var c := AuthorizePlan(model, s).commands;
    hide Field, Copied, CounterField, DecodeHex, Authorization;
    AuthorizationMatches(c[2], Field(s.password, PASSWORD_SIZE).value);
  }

  /** For every command and payload: Authorize carries the CRC field of the report that will be sent, and the password. */
  lemma AuthorizationMatches(c: Command, password: seq<byte>)
    requires |c.payload| <= Packet.PAYLOAD_CAPACITY
    ensures var a := Authorization(c, password);
            && a.id == AUTHORIZE && |a.payload| == 4 + |password|
            && a.payload[..4] == Packet.Outgoing(c.id, c.payload)[Packet.CRC_OFFSET..]
            && a.payload[4..] == password
  {
    hide Crc32.Word, Crc32.WordBytes, Packet.CoveredCrc;
    var crc := Packet.CoveredCrc(Packet.Unsigned(c.id, c.payload));
    Crc32.WordOfBytes(crc);
    assert Packet.Outgoing(c.id, c.payload)[Packet.CRC_OFFSET..] == Crc32.WordBytes(crc);
  }

  // ---------- Which writes the library lets through ----------

  predicate Fits(src: Option<CString>, size: nat) {
    src.Some? ==> |src.value| <= size
  }

  /** The text spells some octets in hexadecimal, at most size of them. */
  ghost predicate SpellsUpTo(text: string, size: nat) {
    exists data :: Spells(text, data) && |data| <= size
  }

  /** Everything about a slot but its counter can be put into the payloads. */
  ghost predicate IsEncodable(model: DeviceModel, minor: byte, s: Slot) {
    var short := HasAuthorization(model, minor);
    && SpellsUpTo(s.secret, if short then SECRET_SIZE else MAXIMUM_OTP_SECRET_SIZE)
    && Fits(s.name, if short then NAME_SIZE else CHUNK_SIZE)
    && Fits(s.tokenId, TOKEN_ID_SIZE)
    && Fits(s.password, PASSWORD_SIZE)
  }

  const EIGHT_DIGITS: nat := 100_000_000

  /** An older Storage takes its counter as text, at most eight digits of it. */
  predicate HasTextCounter(model: DeviceModel, minor: byte) {
    model == STORAGE && HasAuthorization(model, minor)
  }

  lemma FieldFits(src: Option<CString>, size: nat)
    requires size < FIELD_WIDTH_MAX
    ensures Field(src, size).Some? <==> Fits(src, size)
  {
  }

  /** The plan runs to its end exactly for encodable slots whose counter fits; a counter that does not is a too long string. */
  lemma EncodedIff(model: DeviceModel, minor: byte, s: Slot)
    ensures WritePlan(model, minor, s).ending.Ok? <==>
            IsEncodable(model, minor, s) && (HasTextCounter(model, minor) ==> s.counter < EIGHT_DIGITS)
    ensures IsEncodable(model, minor, s) && HasTextCounter(model, minor) && s.counter >= EIGHT_DIGITS ==>
              WritePlan(model, minor, s) == Plan([], Library(CApi.TOO_LONG_STRING))
  {
    var short := HasAuthorization(model, minor);
    FieldFits(s.password, PASSWORD_SIZE);
    FieldFits(s.tokenId, TOKEN_ID_SIZE);
    FieldFits(s.name, if short then NAME_SIZE else CHUNK_SIZE);
    SecretFits(s.secret, if short then SECRET_SIZE else MAXIMUM_OTP_SECRET_SIZE);
    if short {
      CounterFits(model, s.counter);
      hide Field, Fits, SpellsUpTo, DecodeHex, CounterField, Authorization, HotpWrite, VersionQuery;
    } else {
      hide Field, Fits, SpellsUpTo, DecodeHex, SecretPackets, OtpWrite, SendOtpData;
    }
  }

  lemma CounterFits(model: DeviceModel, counter: nat)
    ensures CounterField(model, counter).Some? <==> (model == STORAGE ==> counter < EIGHT_DIGITS)
  {
    DecimalLength(counter, COUNTER_SIZE);
    assert Power(10, COUNTER_SIZE) == EIGHT_DIGITS;
  }

  lemma SecretFits(s: CString, size: nat)
    requires size <= 128
    ensures SpellsUpTo(s, size) <==>
            DecodeHex(s).Decoded? && |DecodeHex(s).data| <= size
  {
    hide Spells;
    if DecodeHex(s).Decoded? {
      DecodesExactlySpellings(s, DecodeHex(s).data);
    }
    forall data | Spells(s, data) && |data| <= size ensures DecodeHex(s) == Decoded(data) {
      DecodesExactlySpellings(s, data);
    }
  }

  // ---------- Writes that are rejected too late ----------

  /** Without authorization, a write is rejected after something has been sent exactly for a bad secret or token identifier. */
  lemma NoAuthorizeRejectsLateIff(s: Slot)
    ensures NoAuthorizePlan(s).ending.Err? && NoAuthorizePlan(s).commands != [] <==>
            && Fits(s.password, PASSWORD_SIZE) && Fits(s.name, CHUNK_SIZE)
            && !(SpellsUpTo(s.secret, MAXIMUM_OTP_SECRET_SIZE) && Fits(s.tokenId, TOKEN_ID_SIZE))
  {
    FieldFits(s.password, PASSWORD_SIZE);
    FieldFits(s.tokenId, TOKEN_ID_SIZE);
    FieldFits(s.name, CHUNK_SIZE);
    SecretFits(s.secret, MAXIMUM_OTP_SECRET_SIZE);
    hide Field, Fits, SpellsUpTo, DecodeHex, SecretPackets, OtpWrite, SendOtpData;
  }

  /** For a bad secret the name has been sent by then, for a bad token identifier the whole secret as well. */
  lemma SentBeforeRejection(s: Slot)
    requires NoAuthorizePlan(s).ending.Err? && NoAuthorizePlan(s).commands != []
    ensures var p, secret := NoAuthorizePlan(s), DecodeHex(s.secret);
            && Field(s.name, CHUNK_SIZE).Some? && Field(s.password, PASSWORD_SIZE).Some?
            && p.commands[0] == SendOtpData(Field(s.password, PASSWORD_SIZE).value, 'N', 0, Field(s.name, CHUNK_SIZE).value)
            && if SpellsUpTo(s.secret, MAXIMUM_OTP_SECRET_SIZE)
               then p.ending == Library(CApi.TOO_LONG_STRING) && secret.Decoded? && secret.data <= Joined(p.commands[1..])
               else |p.commands| == 1
                    && p.ending in {Library(CApi.INVALID_HEX_STRING), Library(CApi.TARGET_BUFFER_TOO_SMALL)}
  {
    SecretFits(s.secret, MAXIMUM_OTP_SECRET_SIZE);
    hide Field, SpellsUpTo, DecodeHex, SecretPackets, OtpWrite, SendOtpData, Joined;
    var p, password := NoAuthorizePlan(s), Field(s.password, PASSWORD_SIZE).value;
    assert p.commands[1..] == AfterName(s, password).commands;
    if SpellsUpTo(s.secret, MAXIMUM_OTP_SECRET_SIZE) {
      var bin := DecodeHex(s.secret).data;
      SecretRecovered(password, bin, CHUNK_SIZE);
      assert p.commands[1..] == SecretPackets(password, bin, 0, CHUNK_SIZE);
    }
  }

  predicate IsRejection(r: Result<()>) {
    r.Err? && r.failure.Thrown? && r.failure.failure.Library?
  }

  /** The firmware version the first question of a write is answered with. */
  function AnsweredMinor(env: Env, log: seq<Command>): Option<byte> {
    match env.answer(log + [VersionQuery(env.model)])
    case Failed(_) => None
    case Answered(d) => Some(MinorIn(env.model, d))
  }

  /** Something other than questions for the version has been sent. */
  predicate HasSent(env: Env, log: seq<Command>, log': seq<Command>) {
    exists k :: |log| <= k < |log'| && log'[k] != VersionQuery(env.model)
  }

  /**
   A write the library rejects has sent something of the slot exactly when the firmware has no authorization
   command and the password and the name fit. Rejection means: of an invalid slot number, or by the plan.
   */
  lemma RejectedAfterSendingIff(env: Env, log: seq<Command>, s: Slot)
    requires IsRejection(WriteHotp(env, log, s).result)
    ensures HasSent(env, log, WriteHotp(env, log, s).log) <==>
            && s.number < 3
            && AnsweredMinor(env, log).Some? && !HasAuthorization(env.model, AnsweredMinor(env, log).value)
            && Fits(s.password, PASSWORD_SIZE) && Fits(s.name, CHUNK_SIZE)
  {
    var t := WriteHotp(env, log, s);
    if s.number < 3 && AnsweredMinor(env, log).Some? {
      var minor, asked := AnsweredMinor(env, log).value, log + [VersionQuery(env.model)];
      var internal := s.(number := InternalHotpSlot(s.number));
      var p := WritePlan(env.model, minor, internal);
      assert t == Carry(env, asked, p);
      CarryRejected(env, asked, p);
      assert t.log[|log|] == VersionQuery(env.model);
      assert forall k :: |asked| <= k < |t.log| ==> t.log[k] == p.commands[k - |asked|];
      if HasAuthorization(env.model, minor) {
        RejectedQuery(env.model, internal);
      } else {
        NoAuthorizeRejectsLateIff(internal);
        NameFirst(internal);
        hide NoAuthorizePlan, Fits, SpellsUpTo;
        if p.commands != [] {
          assert t.log[|asked|] == p.commands[0];
        }
      }
    }
  }

  /** A run never throws a library error, so a rejection is how the plan ends, with all its commands answered. */
  lemma {:induction false} CarryRejected(env: Env, log: seq<Command>, p: Plan)
    requires IsRejection(Carry(env, log, p).result)
    ensures Carry(env, log, p) == Trace(p.ending, log + p.commands)
    decreases |p.commands|
  {
    if p.commands == [] {
      assert log + p.commands == log;
    } else {
      var log' := log + [p.commands[0]];
      assert env.answer(log').Answered?;
      CarryRejected(env, log', Plan(p.commands[1..], p.ending));
      assert log' + p.commands[1..] == log + p.commands;
    }
  }

  /** With authorization, a rejected write has at most asked for the version again. */
  lemma RejectedQuery(model: DeviceModel, s: Slot)
    requires AuthorizePlan(model, s).ending.Err?
    ensures forall c :: c in AuthorizePlan(model, s).commands ==> c == VersionQuery(model)
  {
    hide Field, Copied, CounterField, DecodeHex, Authorization, VersionQuery, HotpWrite;
  }

  lemma NameFirst(s: Slot)
    ensures var p := NoAuthorizePlan(s);
            && (p.ending.Ok? ==> p.commands != [])
            && (p.commands != [] ==> p.commands[0].id == SEND_OTP_DATA)
            && (p.commands == [] ==> !(Fits(s.password, PASSWORD_SIZE) && Fits(s.name, CHUNK_SIZE)))
  {
    FieldFits(s.password, PASSWORD_SIZE);
    FieldFits(s.name, CHUNK_SIZE);
    hide Field, Fits, DecodeHex, SecretPackets, OtpWrite;
  }

  /** A slot with a password, a name and, by mistake, a secret of one digit. */
  function MistypedSlot(): Slot {
    Slot(0, Some("mail"), "7", 0, false, false, false, None, Some("password"))
  }

  function NeverRefuses(): seq<Command> -> bool {
    log => false
  }

  /** It is rejected, and yet a device that answers everything has been sent the new name. */
  lemma RejectedButNamed()
    ensures var env := StoringDevice(PRO, 8, NeverRefuses());
            var t := WriteHotp(env, [], MistypedSlot());
            && t.result == Library(CApi.INVALID_HEX_STRING)
            && HasSent(env, [], t.log)
  {
    var env := StoringDevice(PRO, 8, NeverRefuses());
    var s := MistypedSlot();
    var internal := s.(number := InternalHotpSlot(s.number));
    var name := SendOtpData(Field(s.password, PASSWORD_SIZE).value, 'N', 0, Field(s.name, CHUNK_SIZE).value);
    var asked := [] + [VersionQuery(PRO)];
    assert env.answer(asked) == StoringAnswer(PRO, 8, NeverRefuses(), asked);
    assert Asks(asked, VersionQuery(PRO));
    assert DecodeHex(s.secret) == InvalidHexString(0);
    assert NoAuthorizePlan(internal) == Plan([name] + [], Library(CApi.INVALID_HEX_STRING));
    CarryOne(env, asked, name, Library(CApi.INVALID_HEX_STRING));
    assert [name] + [] == [name];
    assert env.answer(asked + [name]) == StoringAnswer(PRO, 8, NeverRefuses(), asked + [name]);
    var t := WriteHotp(env, [], s);
    assert t.log[1] == name;
  }

  // ---------- Reads that escape ----------

  /**
   Reading a slot ends in std::stoull's exception exactly when an older Storage answers the read with a counter
   field that holds no number, and the question for its version.
   */
  lemma StoullEscapesIff(env: Env, log: seq<Command>, number: byte)
    ensures ReadOtp(env, log, number).result == Err(InvalidArgument) <==>
            var read := log + [ReadSlot(number)];
            && env.model == STORAGE && number < 0x20
            && env.answer(read).Answered?
            && AnsweredMinor(env, read).Some? && AnsweredMinor(env, read).value <= 53
            && !StartsWithNumber(StoredCounter(env.answer(read).data))
  {
    var read := log + [ReadSlot(number)];
    if env.answer(read).Answered? {
      StoullThrowsIff(StoredCounter(env.answer(read).data));
    }
    hide Stoull, StartsWithNumber, StoredCounter;
  }

  /** No handler of NK_read_HOTP_slot catches it; everything else becomes a status. */
  lemma EscapesIff(env: Env, log: seq<Command>, slot: byte)
    ensures ReadStatus(ReadHotp(env, log, slot).result) == None <==>
            ReadHotp(env, log, slot).result == Err(InvalidArgument)
  {
  }

  /** A Storage of version 0.53 whose slots are all zeros. */
  function ErasedStorage(): Env {
    Env(STORAGE, log => Answered(Fill(RESPONSE_SIZE)[27 := 53]))
  }

  /** Reading any of its HOTP slots through the C interface ends in an exception. */
  lemma ErasedSlotEscapes(slot: byte)
    requires slot < 3
    ensures ReadStatus(ReadHotp(ErasedStorage(), [], slot).result) == None
  {
    var env := ErasedStorage();
    var read := [] + [ReadSlot(InternalHotpSlot(slot))];
    var d: Response := Fill(RESPONSE_SIZE)[27 := 53];
    assert env.answer(read) == Answered(d) && env.answer(read + [VersionQuery(STORAGE)]) == Answered(d);
    assert StoredCounter(d) == Fill(8);
    StoullThrowsOnZeros();
  }

  // ---------- The HOTP counter from end to end ----------

  const LEGACY_COUNTER: nat := 1 + NAME_SIZE + SECRET_SIZE + 1 + TOKEN_ID_SIZE
  const OTP_COUNTER: nat := PASSWORD_SIZE + 1

  function CounterOffset(legacy: bool): nat {
    if legacy then LEGACY_COUNTER else OTP_COUNTER
  }

  /** The slot a WRITE_TO_SLOT command addresses, by the layout the firmware expects. */
  function SlotIn(legacy: bool, c: Command): (slot: Option<byte>)
    ensures slot.Some? ==> CounterOffset(legacy) + COUNTER_SIZE <= |c.payload|
  {
    if c.id == WRITE_TO_SLOT && CounterOffset(legacy) + COUNTER_SIZE <= |c.payload|
    then Some(c.payload[if legacy then 0 else PASSWORD_SIZE])
    else None
  }

  function CounterIn(legacy: bool, c: Command): (field: seq<byte>)
    requires SlotIn(legacy, c).Some?
    ensures |field| == COUNTER_SIZE
  {
    c.payload[CounterOffset(legacy)..CounterOffset(legacy) + COUNTER_SIZE]
  }

  /** The device has turned the command down, with a status. */
  predicate IsRefused(a: Answer) {
    a.Failed? && a.failure.Command?
  }

  /**
   The counter octets last written to a slot by a write that was answered. Refused writes change nothing; None
   when nothing has been written, or when the fate of a later write is unknown because communication failed.
   */
  function Written(env: Env, legacy: bool, log: seq<Command>, slot: byte): (field: Option<seq<byte>>)
    ensures field.Some? ==> |field.value| == COUNTER_SIZE
  {
    if log == [] then None
    else
      var c, a := log[|log| - 1], env.answer(log);
      if SlotIn(legacy, c) != Some(slot) || IsRefused(a) then Written(env, legacy, log[..|log| - 1], slot)
      else if a.Answered? then Some(CounterIn(legacy, c))
      else None
  }

  /** c is the last command of a log. */
  predicate Asks(log: seq<Command>, c: Command) {
    log != [] && log[|log| - 1] == c
  }

  /**
   A device of this firmware version that, whenever it answers a read, hands back the counter octets last written.
   It may refuse or fail to answer anything at any time, and all else it does is arbitrary.
   */
  ghost predicate IsFaithful(env: Env, minor: byte) {
    && (forall log :: Asks(log, VersionQuery(env.model)) && env.answer(log).Answered? ==>
          MinorIn(env.model, env.answer(log).data) == minor)
    && (forall log, n :: Asks(log, ReadSlot(n)) && env.answer(log).Answered? ==>
          var w := Written(env, HasAuthorization(env.model, minor), log, n);
          w.Some? ==> StoredCounter(env.answer(log).data) == w.value)
  }

  /** Such a device: it stores counters and refuses whatever it likes, an unauthorized write for instance. */
  function StoringDevice(model: DeviceModel, minor: byte, refuses: seq<Command> -> bool): Env {
    Env(model, log => StoringAnswer(model, minor, refuses, log))
  }

  function StoringAnswer(model: DeviceModel, minor: byte, refuses: seq<Command> -> bool, log: seq<Command>): Answer {
    if refuses(log) then Failed(CApi.Command(REFUSED)) else Answered(Stored(model, minor, refuses, log))
  }

  const REFUSED: byte := 5

  function Stored(model: DeviceModel, minor: byte, refuses: seq<Command> -> bool, log: seq<Command>): Response {
    if Asks(log, VersionQuery(model)) then Fill(RESPONSE_SIZE)[0 := minor][27 := minor]
    else if log != [] && log[|log| - 1].payload != [] then
      match Kept(refuses, HasAuthorization(model, minor), log, log[|log| - 1].payload[0])
      case None => Fill(RESPONSE_SIZE)
      case Some(counter) => Fill(SLOT_COUNTER_OFFSET) + counter + Fill(RESPONSE_SIZE - SLOT_COUNTER_OFFSET - COUNTER_SIZE)
    else Fill(RESPONSE_SIZE)
  }

  /** The counter of the last write that was not refused. */
  function Kept(refuses: seq<Command> -> bool, legacy: bool, log: seq<Command>, slot: byte): (field: Option<seq<byte>>)
    ensures field.Some? ==> |field.value| == COUNTER_SIZE
  {
    if log == [] then None
    else
      var c := log[|log| - 1];
      if SlotIn(legacy, c) == Some(slot) && !refuses(log) then Some(CounterIn(legacy, c))
      else Kept(refuses, legacy, log[..|log| - 1], slot)
  }

  lemma {:induction false} KeptIsWritten(
    model: DeviceModel, minor: byte, refuses: seq<Command> -> bool, legacy: bool, log: seq<Command>, slot: byte)
    ensures Written(StoringDevice(model, minor, refuses), legacy, log, slot) == Kept(refuses, legacy, log, slot)
  {
    hide SlotIn, CounterIn, Stored;
    if log != [] {
      KeptIsWritten(model, minor, refuses, legacy, log[..|log| - 1], slot);
    }
  }

  /** Whatever it refuses, and when, such a device is faithful. */
  lemma StoringDeviceIsFaithful(model: DeviceModel, minor: byte, refuses: seq<Command> -> bool)
    ensures IsFaithful(StoringDevice(model, minor, refuses), minor)
  {
    hide Written, Kept;
    var env := StoringDevice(model, minor, refuses);
    forall log | Asks(log, VersionQuery(model)) && env.answer(log).Answered?
      ensures MinorIn(model, env.answer(log).data) == minor
    {
      assert env.answer(log) == StoringAnswer(model, minor, refuses, log);
      assert Stored(model, minor, refuses, log) == Fill(RESPONSE_SIZE)[0 := minor][27 := minor];
    }
    forall log, n | Asks(log, ReadSlot(n)) && env.answer(log).Answered?
      ensures var w := Written(env, HasAuthorization(model, minor), log, n);
              w.Some? ==> StoredCounter(env.answer(log).data) == w.value
    {
      KeptIsWritten(model, minor, refuses, HasAuthorization(model, minor), log, n);
      var w := Kept(refuses, HasAuthorization(model, minor), log, n);
      if w.Some? {
        var front, back := Fill(SLOT_COUNTER_OFFSET), Fill(RESPONSE_SIZE - SLOT_COUNTER_OFFSET - COUNTER_SIZE);
        assert Stored(model, minor, refuses, log) == front + w.value + back;
      }
    }
  }

  /** What a write that is completely carried out leaves stored. */
  lemma WriteStored(env: Env, minor: byte, s: Slot, log: seq<Command>)
    requires WritePlan(env.model, minor, s).ending.Ok?
    requires env.answer(log + WritePlan(env.model, minor, s).commands).Answered?
    ensures var legacy := HasAuthorization(env.model, minor);
            Written(env, legacy, log + WritePlan(env.model, minor, s).commands, s.number)
            == if legacy then CounterField(env.model, s.counter) else Some(ToLittleEndian(s.counter, COUNTER_SIZE))
  {
    hide AuthorizePlan, NoAuthorizePlan, SlotIn, CounterIn, CounterField, ToLittleEndian;
    var legacy, p := HasAuthorization(env.model, minor), WritePlan(env.model, minor, s);
    if legacy {
      LegacyLayout(env.model, s);
    } else {
      OtpLayout(s);
    }
    var c := p.commands[|p.commands| - 1];
    var all := log + p.commands;
    assert all[|all| - 1] == c;
  }

  lemma LegacyLayout(model: DeviceModel, s: Slot)
    requires AuthorizePlan(model, s).ending.Ok?
    ensures var commands := AuthorizePlan(model, s).commands;
            && commands != []
            && var c := commands[|commands| - 1];
               && SlotIn(true, c) == Some(s.number)
               && CounterField(model, s.counter) == Some(CounterIn(true, c))
  {
    hide Field, Copied, CounterField, DecodeHex, Authorization, VersionQuery, HotpWrite, SlotIn, CounterIn;
    var secret, name := Copied(DecodeHex(s.secret).data, SECRET_SIZE).value, Field(s.name, NAME_SIZE).value;
    HotpWriteLayout(s, secret, name, Field(s.tokenId, TOKEN_ID_SIZE).value, CounterField(model, s.counter).value);
  }

  /** Where WriteToHOTPSlot keeps its fields. */
  lemma HotpWriteLayout(s: Slot, secret: seq<byte>, name: seq<byte>, token: seq<byte>, counter: seq<byte>)
    requires |secret| == SECRET_SIZE && |name| == NAME_SIZE && |token| == TOKEN_ID_SIZE && |counter| == COUNTER_SIZE
    ensures var c := HotpWrite(s, secret, name, token, counter);
            && SlotIn(true, c) == Some(s.number) && CounterIn(true, c) == counter
            && |c.payload| == 58
            && c.payload[1..16] == name && c.payload[16..36] == secret && c.payload[37..50] == token
            && HasConfig(c.payload[36], s)
  {
    var c := HotpWrite(s, secret, name, token, counter);
    var front := [s.number] + name + secret + [Config(s)] + token;
    assert c.payload == front + counter;
    assert |front| == LEGACY_COUNTER;
  }

  /** The three options are the low bits of the configuration octet. */
  predicate HasConfig(config: byte, s: Slot) {
    && (config % 2 == 1 <==> s.use8Digits)
    && (config / 2 % 2 == 1 <==> s.useEnter)
    && (config / 4 % 2 == 1 <==> s.useTokenId)
    && config < 8
  }

  lemma OtpLayout(s: Slot)
    requires NoAuthorizePlan(s).ending.Ok?
    ensures var commands := NoAuthorizePlan(s).commands;
            && commands != []
            && var c := commands[|commands| - 1];
               SlotIn(false, c) == Some(s.number) && CounterIn(false, c) == ToLittleEndian(s.counter, COUNTER_SIZE)
  {
    hide Field, DecodeHex, SecretPackets, SendOtpData, OtpWrite, SlotIn, CounterIn;
    var password, token := Field(s.password, PASSWORD_SIZE).value, Field(s.tokenId, TOKEN_ID_SIZE).value;
    OtpWriteLayout(s, password, token);
    var rest := AfterName(s, password).commands;
    assert rest[|rest| - 1] == OtpWrite(s, password, token);
    var commands := NoAuthorizePlan(s).commands;
    assert commands[1..] == rest;
    assert commands[|commands| - 1] == rest[|rest| - 1];
  }

  /** Where WriteToOTPSlot keeps its fields. */
  lemma OtpWriteLayout(s: Slot, password: seq<byte>, token: seq<byte>)
    requires |password| == PASSWORD_SIZE && |token| == TOKEN_ID_SIZE
    ensures var c := OtpWrite(s, password, token);
            && SlotIn(false, c) == Some(s.number) && CounterIn(false, c) == ToLittleEndian(s.counter, COUNTER_SIZE)
            && |c.payload| == 48
            && c.payload[..25] == password && c.payload[35..48] == token
            && HasConfig(c.payload[34], s)
  {
  }

  /** Commands that leave a slot alone: those for other slots, and refused writes to this one. */
  predicate LeaveAlone(env: Env, legacy: bool, log: seq<Command>, others: seq<Command>, slot: byte) {
    forall k :: 0 <= k < |others| && SlotIn(legacy, others[k]) == Some(slot) ==>
      IsRefused(env.answer(log + others[..k + 1]))
  }

  lemma {:induction false} OthersKeepCounter(env: Env, legacy: bool, log: seq<Command>, others: seq<Command>, slot: byte)
    requires LeaveAlone(env, legacy, log, others, slot)
    ensures Written(env, legacy, log + others, slot) == Written(env, legacy, log, slot)
  {
    hide SlotIn, CounterIn;
    if others == [] {
      assert log + others == log;
    } else {
      var n := |others| - 1;
      var init, all := others[..n], log + others;
      forall k | 0 <= k < n && SlotIn(legacy, init[k]) == Some(slot) ensures IsRefused(env.answer(log + init[..k + 1])) {
        assert init[..k + 1] == others[..k + 1] && init[k] == others[k];
      }
      OthersKeepCounter(env, legacy, log, init, slot);
      assert others[..n + 1] == others;
      assert all[..|all| - 1] == log + init;
      assert all[|all| - 1] == others[n];
    }
  }

  /**
   For every model and firmware version: once a HOTP slot has been written, a read that is answered gives the
   counter that was written, and a read fails only because the device does. In between, anything may be asked
   of the device, even writes to the same slot, as long as it refuses them.
   */
  lemma HotpCounterRoundTrip(env: Env, minor: byte, log: seq<Command>, s: Slot, others: seq<Command>)
    requires IsFaithful(env, minor) && s.counter < U64
    requires var t := WriteHotp(env, log, s);
             && t.result.Ok?
             && LeaveAlone(env, HasAuthorization(env.model, minor), t.log, others, InternalHotpSlot(s.number))
    ensures var t := ReadHotp(env, WriteHotp(env, log, s).log + others, s.number);
            && (t.result.Ok? ==> CounterOf(t.result.value) == s.counter)
            && (t.result.Err? ==> env.answer(t.log).Failed?)
  {
    var legacy, n := HasAuthorization(env.model, minor), InternalHotpSlot(s.number);
    var log' := WriteHotp(env, log, s).log;
    WriteHotpStores(env, minor, log, s);
    OthersKeepCounter(env, legacy, log', others, n);
    ReadsWhatIsWritten(env, minor, log' + others, n, s.counter);
  }

  lemma WriteHotpStores(env: Env, minor: byte, log: seq<Command>, s: Slot)
    requires IsFaithful(env, minor)
    requires WriteHotp(env, log, s).result.Ok?
    ensures var legacy := HasAuthorization(env.model, minor);
            && s.number < 3
            && var w := Written(env, legacy, WriteHotp(env, log, s).log, InternalHotpSlot(s.number));
               w == (if legacy then CounterField(env.model, s.counter) else Some(ToLittleEndian(s.counter, COUNTER_SIZE)))
               && w.Some?
  {
    hide WritePlan, Written, Carry, CounterField;
    var asked := log + [VersionQuery(env.model)];
    assert Asks(asked, VersionQuery(env.model));
    var internal := s.(number := InternalHotpSlot(s.number));
    var p := WritePlan(env.model, minor, internal);
    CarryEffects(env, asked, p);
    assert p.commands[..|p.commands|] == p.commands;
    PlanNotEmpty(env.model, minor, internal);
    WriteStored(env, minor, internal, asked);
    if HasAuthorization(env.model, minor) {
      WriteHasCounter(env.model, minor, internal);
    }
  }

  lemma PlanNotEmpty(model: DeviceModel, minor: byte, s: Slot)
    requires WritePlan(model, minor, s).ending.Ok?
    ensures WritePlan(model, minor, s).commands != []
  {
    hide Field, Copied, CounterField, DecodeHex, Authorization, SecretPackets;
  }

  lemma WriteHasCounter(model: DeviceModel, minor: byte, s: Slot)
    requires WritePlan(model, minor, s).ending.Ok? && HasAuthorization(model, minor)
    ensures CounterField(model, s.counter).Some?
  {
    hide Field, Copied, CounterField, DecodeHex, Authorization, VersionQuery;
  }

  lemma ReadsWhatIsWritten(env: Env, minor: byte, log: seq<Command>, n: byte, counter: nat)
    requires IsFaithful(env, minor) && n < 0x20 && counter < U64
    requires var legacy := HasAuthorization(env.model, minor);
             var w := Written(env, legacy, log, n);
             && w.Some?
             && w == if legacy then CounterField(env.model, counter) else Some(ToLittleEndian(counter, COUNTER_SIZE))
    ensures var t := ReadOtp(env, log, n);
            && (t.result.Ok? ==> CounterOf(t.result.value) == counter)
            && (t.result.Err? ==> env.answer(t.log).Failed?)
  {
    hide StoredCounter, MinorIn, Stoull, Decimal, ToLittleEndian, FromLittleEndian;
    var legacy := HasAuthorization(env.model, minor);
    var asked := log + [ReadSlot(n)];
    assert Asks(asked, ReadSlot(n));
    assert asked[..|asked| - 1] == log;
    assert Written(env, legacy, asked, n) == Written(env, legacy, log, n);
    if env.answer(asked).Answered? {
      CounterBytesRoundTrip(counter, env.answer(asked).data);
      if env.model == STORAGE {
        var again := asked + [VersionQuery(env.model)];
        assert Asks(again, VersionQuery(env.model));
        if legacy {
          CounterTextRoundTrip(counter);
        }
      }
    }
  }

  lemma CounterBytesRoundTrip(counter: nat, d: Response)
    requires counter < U64
    ensures FromLittleEndian(ToLittleEndian(counter, COUNTER_SIZE)) == counter
    ensures StoredCounter(WithCounter(d, counter)) == ToLittleEndian(counter, COUNTER_SIZE)
  {
    assert Power(256, 8) == U64;
    LittleEndianRoundTrip(counter, COUNTER_SIZE);
  }
}
