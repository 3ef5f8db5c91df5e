/** Where the fields of a status response stand: the packed structs the library lays over it. */
module StatusLayout {
  import opened Bytes

  const PAYLOAD_SIZE: nat := 53

  /** GetStatus::ResponsePayload, as far as the library looks at it (stick10_commands.h). */
  datatype StickStatus = StickStatus(minor: byte, major: byte, rest: seq<byte>)

  predicate IsStickStatus(s: StickStatus) {
    |s.rest| == PAYLOAD_SIZE - 2
  }

  function StickPayload(s: StickStatus): seq<byte> {
    [s.minor, s.major] + s.rest
  }

  /** DeviceConfigurationResponsePacket::ResponsePayload (stick20_commands.h). */
  datatype StorageStatus = StorageStatus(
    padding: seq<byte>, sendCounter: byte, sendDataType: byte, followBytes: byte, sendSize: byte, magic: seq<byte>,
    readWriteUnencrypted: byte, readWriteEncrypted: byte,
    major: byte, minor: byte, reserved: byte, buildIteration: byte,
    readWriteHidden: byte, firmwareLocked: byte, newSdCard: byte, sdFilled: byte, sdCardId: seq<byte>,
    volumes: byte, newSmartCard: byte, userRetries: byte, adminRetries: byte, smartCardId: seq<byte>,
    keysNotInitiated: byte, rest: seq<byte>)

  predicate IsStorageStatus(s: StorageStatus) {
    && |s.padding| == 18 && |s.magic| == 2 && |s.sdCardId| == 4 && |s.smartCardId| == 4
    && |s.rest| == PAYLOAD_SIZE - 47
  }

  function StoragePayload(s: StorageStatus): seq<byte> {
    s.padding + [s.sendCounter, s.sendDataType, s.followBytes, s.sendSize] + s.magic
    + [s.readWriteUnencrypted, s.readWriteEncrypted, s.major, s.minor, s.reserved, s.buildIteration,
       s.readWriteHidden, s.firmwareLocked, s.newSdCard, s.sdFilled] + s.sdCardId
    + [s.volumes, s.newSmartCard, s.userRetries, s.adminRetries] + s.smartCardId + [s.keysNotInitiated] + s.rest
  }

  lemma StorageOffsets(s: StorageStatus)
    requires IsStorageStatus(s)
    ensures var d := StoragePayload(s);
            && |d| == PAYLOAD_SIZE
            && d[27] == s.minor && d[29] == s.buildIteration
            && d[34..38] == s.sdCardId && d[42..46] == s.smartCardId
  {
  }

  /** ReadSlot::ResponsePayload (stick10_commands.h). */
  datatype SlotData = SlotData(name: seq<byte>, config: byte, tokenId: seq<byte>, counter: seq<byte>, rest: seq<byte>)

  predicate IsSlotData(s: SlotData) {
    |s.name| == 15 && |s.tokenId| == 13 && |s.counter| == 8 && |s.rest| == PAYLOAD_SIZE - 37
  }

  function SlotPayload(s: SlotData): seq<byte> {
    s.name + [s.config] + s.tokenId + s.counter + s.rest
  }
}
