/** The 65-byte HID reports exchanged with a device (libnitrokey/device_proto.h). */
module Packet {
  import opened Bytes
  import opened Crc32
  import opened Gf2

  const HID_REPORT_SIZE: nat := 65
  const PAYLOAD_CAPACITY: nat := 59
  const CRC_OFFSET: nat := 61

  const GET_STATUS: byte := 0x00
  const GET_DEVICE_STATUS: byte := 0x2e

  type Packet = p: seq<byte> | |p| == HID_REPORT_SIZE witness seq(65, _ => 0)

  /** The cleared report: what bzero leaves. */
  function Zeroed(): Packet {
    Fill(HID_REPORT_SIZE)
  }

  function CrcField(p: Packet): bv32 {
    Word(p[CRC_OFFSET..])
  }

  /** The checksum covers everything between the leading zero byte and the CRC field. */
  function CoveredCrc(p: Packet): bv32 {
    Checksum(Words(p[1..CRC_OFFSET]))
  }

  predicate IsCrcCorrect(p: Packet) {
    CrcField(p) == CoveredCrc(p)
  }

  /** A report before its CRC field is filled in. */
  function Unsigned(command: byte, payload: seq<byte>): Packet
    requires |payload| <= PAYLOAD_CAPACITY
  {
    [0, command] + payload + Fill(PAYLOAD_CAPACITY - |payload|) + Fill(4)
  }

  /** The report run sends for a command and payload. */
  function Outgoing(command: byte, payload: seq<byte>): Packet
    requires |payload| <= PAYLOAD_CAPACITY
  {
    Unsigned(command, payload)[..CRC_OFFSET] + WordBytes(CoveredCrc(Unsigned(command, payload)))
  }

  /** initialize() and the payload assignment, in place. */
  method FillOutgoing(outp: array<byte>, command: byte, payload: seq<byte>)
    requires outp.Length == HID_REPORT_SIZE && |payload| <= PAYLOAD_CAPACITY
    modifies outp
    ensures outp[..] == Unsigned(command, payload)
  {
    for i := 0 to outp.Length
      invariant forall k :: 0 <= k < i ==> outp[k] == 0
    {
      outp[i] := 0;
    }
    outp[1] := command;
    for i := 0 to |payload|
      invariant outp[0] == 0 && outp[1] == command
      invariant forall k :: 0 <= k < i ==> outp[2 + k] == payload[k]
      invariant forall k :: 2 + i <= k < outp.Length ==> outp[k] == 0
    {
      outp[2 + i] := payload[i];
    }
    forall k | 0 <= k < HID_REPORT_SIZE ensures outp[..][k] == Unsigned(command, payload)[k] {
      if 2 <= k < 2 + |payload| { assert outp[2 + (k - 2)] == payload[k - 2]; }
    }
  }

  lemma CoveredCrcIs(p: Packet)
    ensures CoveredCrc(p) == Checksum(Words(p[1..1 + 60]))
  {
  }

  /** update_CRC, in place. */
  method UpdateCrc(p: array<byte>)
    requires p.Length == HID_REPORT_SIZE
    modifies p
    ensures p[..] == old(p[..CRC_OFFSET]) + WordBytes(CoveredCrc(old(p[..])))
  {
    hide Word, WordBytes, CoveredCrc;
    var crc := StmCrc32(p, 1, 60);
    assert crc == CoveredCrc(p[..]) by { CoveredCrcIs(p[..]); }
    var b := WordBytes(crc);
    p[61], p[62], p[63], p[64] := b[0], b[1], b[2], b[3];
  }

  /** getCRC: the checksum a payload will be sent with, computed without sending it. */
  method GetCrc(command: byte, payload: seq<byte>) returns (crc: bv32)
    requires |payload| <= PAYLOAD_CAPACITY
    ensures crc == CrcField(Outgoing(command, payload))
  {
    hide Word;
    var outp := new byte[HID_REPORT_SIZE];
    FillOutgoing(outp, command, payload);
    UpdateCrc(outp);
    assert outp[..] == Outgoing(command, payload);
    assert outp[CRC_OFFSET..] == outp[..][CRC_OFFSET..];
    crc := Word(outp[CRC_OFFSET..]);
  }

  /** What was put into a report can be taken out again, and its checksum is right. */
  lemma OutgoingDecodes(command: byte, payload: seq<byte>)
    requires |payload| <= PAYLOAD_CAPACITY
    ensures var p := Outgoing(command, payload);
            && p[0] == 0
            && p[1] == command
            && p[2..2 + |payload|] == payload
            && p[2 + |payload|..CRC_OFFSET] == Fill(PAYLOAD_CAPACITY - |payload|)
            && IsCrcCorrect(p)
  {
    hide Word;
    var u, p := Unsigned(command, payload), Outgoing(command, payload);
    assert p[..CRC_OFFSET] == u[..CRC_OFFSET];
    assert p[1..CRC_OFFSET] == u[1..CRC_OFFSET];
    WordOfBytes(CoveredCrc(u));
  }

  // ---------- Corruption ----------

  /** The sixteen words of a report after the leading byte: fifteen covered words and the CRC field. */
  function Codeword(p: Packet): (w: seq<bv32>)
    ensures |w| == 16
  {
    Words(p[1..])
  }

  /** A report is correct exactly when the register ends at zero after the CRC field is fed in as well. */
  lemma CorrectIffResidueZero(p: Packet)
    ensures IsCrcCorrect(p) <==> Checksum(Codeword(p)) == 0
  {
    CodewordSplit(p);
    ResidueZero(Words(p[1..CRC_OFFSET]), CrcField(p));
  }

  lemma CodewordSplit(p: Packet)
    ensures Codeword(p) == Words(p[1..CRC_OFFSET]) + [CrcField(p)]
  {
    hide Word;
    forall k | 0 <= k < 15 ensures Codeword(p)[k] == Words(p[1..CRC_OFFSET])[k] {
      CodewordAt(p, k);
      WordOfSlice(p, 1, 60, k);
    }
    CodewordAt(p, 15);
    assert p[61..65] == p[CRC_OFFSET..];
  }

  /** Any burst of at most 32 bits, across word boundaries and into the CRC field too, is detected. */
  lemma CorruptionDetected(p: Packet, q: Packet, i: nat)
    requires IsCrcCorrect(p)
    requires Burst(MessageBits(Codeword(p)), MessageBits(Codeword(q)), i)
    ensures !IsCrcCorrect(q)
  {
    CorrectIffResidueZero(p);
    CorrectIffResidueZero(q);
    BurstDetected(Codeword(p), Codeword(q), i);
  }

  /** In particular every change of up to four bytes inside one word of the report. */
  lemma ByteCorruptionDetected(p: Packet, q: Packet, k: nat)
    requires IsCrcCorrect(p) && k < 16
    requires p[..1 + 4 * k] == q[..1 + 4 * k] && p[5 + 4 * k..] == q[5 + 4 * k..]
    requires p != q
    ensures !IsCrcCorrect(q)
  {
    hide Word;
    forall j | 0 <= j < 16 && j != k ensures Codeword(p)[j] == Codeword(q)[j] {
      SameWord(p, q, k, j);
    }
    WordChanged(p, q, k);
    WordErrorIsBurst(Codeword(p), Codeword(q), k);
    CorruptionDetected(p, q, WORD_SIZE * k);
  }

  lemma WordChanged(p: Packet, q: Packet, k: nat)
    requires k < 16 && p != q
    requires p[..1 + 4 * k] == q[..1 + 4 * k] && p[5 + 4 * k..] == q[5 + 4 * k..]
    ensures Codeword(p)[k] != Codeword(q)[k]
  {
    hide Word;
    CodewordAt(p, k);
    CodewordAt(q, k);
    var at := 1 + 4 * k;
    var u, v := p[at..at + 4], q[at..at + 4];
    assert p == p[..at] + u + p[at + 4..];
    assert q == q[..at] + v + q[at + 4..];
    if Word(u) == Word(v) {
      WordInjective(u, v);
      assert false;
    }
  }

  lemma CodewordAt(p: Packet, j: nat)
    requires j < 16
    ensures Codeword(p)[j] == Word(p[1 + 4 * j..1 + 4 * j + 4])
  {
    hide Word;
    assert p[1..1 + 64] == p[1..];
    WordOfSlice(p, 1, 64, j);
  }

  lemma SameWord(p: Packet, q: Packet, k: nat, j: nat)
    requires k < 16 && j < 16 && j != k
    requires p[..1 + 4 * k] == q[..1 + 4 * k] && p[5 + 4 * k..] == q[5 + 4 * k..]
    ensures Codeword(p)[j] == Codeword(q)[j]
  {
    hide Word;
    CodewordAt(p, j);
    CodewordAt(q, j);
    var at := 1 + 4 * j;
    if j < k {
      assert p[at..at + 4] == p[..1 + 4 * k][at..at + 4] == q[..1 + 4 * k][at..at + 4] == q[at..at + 4];
    } else {
      var cut := 5 + 4 * k;
      assert p[at..at + 4] == p[cut..][at - cut..at - cut + 4] == q[cut..][at - cut..at - cut + 4] == q[at..at + 4];
    }
  }
}
