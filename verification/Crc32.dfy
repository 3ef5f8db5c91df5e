/** The packet checksum: a 32-bit shift register fed one little-endian word at a time (misc.cc). */
module Crc32 {
  import opened Bytes
  import opened Gf2

  const WORD_SIZE: nat := 32
  const POLYNOMIAL: bv32 := 0x04C11DB7
  const PRESET: bv32 := 0xffffffff

  /** One clock of the register. */
  function Shift(crc: bv32): bv32 {
    if crc & 0x80000000 != 0 then (crc << 1) ^ POLYNOMIAL else crc << 1
  }

  function Shifts(crc: bv32, n: nat): bv32
    decreases n
  {
    if n == 0 then crc else Shifts(Shift(crc), n - 1)
  }

  /** _crc32: the register after one word. */
  function Clock(crc: bv32, data: bv32): bv32 {
    Shifts(crc ^ data, WORD_SIZE)
  }

  function Feed(crc: bv32, words: seq<bv32>): bv32
    decreases |words|
  {
    if words == [] then crc else Feed(Clock(crc, words[0]), words[1..])
  }

  /** What stm_crc32 computes over a buffer read as 32-bit words. */
  function Checksum(words: seq<bv32>): bv32 {
    Feed(PRESET, words)
  }

  /** Four bytes in memory order as the word a little-endian host reads. */
  function Word(b: seq<byte>): bv32
    requires |b| == 4
  {
    Join(Octet(b[0]), Octet(b[1]), Octet(b[2]), Octet(b[3]))
  }

  function Join(b0: bv8, b1: bv8, b2: bv8, b3: bv8): bv32 {
    b0 as bv32 | (b1 as bv32 << 8) | (b2 as bv32 << 16) | (b3 as bv32 << 24)
  }

  /** Octet k of a word, the least significant being octet 0. */
  function OctetOfWord(w: bv32, k: nat): bv8
    requires k < 4
  {
    match k
    case 0 => (w & 0xff) as bv8
    case 1 => ((w >> 8) & 0xff) as bv8
    case 2 => ((w >> 16) & 0xff) as bv8
    case _ => ((w >> 24) & 0xff) as bv8
  }

  /** The four bytes a little-endian host stores for a word. */
  function WordBytes(w: bv32): (b: seq<byte>)
    ensures |b| == 4
  {
    seq(4, k requires 0 <= k < 4 => ByteOf(OctetOfWord(w, k)))
  }

  lemma WordOfBytes(w: bv32)
    ensures Word(WordBytes(w)) == w
  {
    OctetOfByte(OctetOfWord(w, 0));
    OctetOfByte(OctetOfWord(w, 1));
    OctetOfByte(OctetOfWord(w, 2));
    OctetOfByte(OctetOfWord(w, 3));
    JoinOctets(w);
  }

  lemma JoinOctets(w: bv32)
    ensures Join(OctetOfWord(w, 0), OctetOfWord(w, 1), OctetOfWord(w, 2), OctetOfWord(w, 3)) == w
  {
  }

  lemma WordInjective(a: seq<byte>, b: seq<byte>)
    requires |a| == |b| == 4 && Word(a) == Word(b)
    ensures a == b
  {
    WordJoins(a);
    WordJoins(b);
    hide Word, Join, Octet, ByteOf;
    JoinInjective(Octet(a[0]), Octet(a[1]), Octet(a[2]), Octet(a[3]),
                  Octet(b[0]), Octet(b[1]), Octet(b[2]), Octet(b[3]));
    OctetInjective(a[0], b[0]);
    OctetInjective(a[1], b[1]);
    OctetInjective(a[2], b[2]);
    OctetInjective(a[3], b[3]);
  }

  lemma WordJoins(b: seq<byte>)
    requires |b| == 4
    ensures Word(b) == Join(Octet(b[0]), Octet(b[1]), Octet(b[2]), Octet(b[3]))
  {
  }

  lemma JoinInjective(a0: bv8, a1: bv8, a2: bv8, a3: bv8, b0: bv8, b1: bv8, b2: bv8, b3: bv8)
    requires Join(a0, a1, a2, a3) == Join(b0, b1, b2, b3)
    ensures a0 == b0 && a1 == b1 && a2 == b2 && a3 == b3
  {
  }

  function Words(data: seq<byte>): (w: seq<bv32>)
    requires |data| % 4 == 0
    ensures |w| == |data| / 4
    ensures forall k :: 0 <= k < |w| ==> w[k] == Word(data[4 * k..4 * k + 4])
  {
    seq(|data| / 4, k requires 0 <= k < |data| / 4 => Word(data[4 * k..4 * k + 4]))
  }

  method FeedWord(crc: bv32, data: bv32) returns (r: bv32)
    ensures r == Clock(crc, data)
  {
    r := crc ^ data;
    for i := 0 to WORD_SIZE
      invariant Shifts(r, WORD_SIZE - i) == Shifts(crc ^ data, WORD_SIZE)
    {
      if r & 0x80000000 != 0 {
        r := (r << 1) ^ 0x04C11DB7;
      } else {
        r := r << 1;
      }
    }
  }

  lemma FeedStep(crc: bv32, words: seq<bv32>, k: nat)
    requires k < |words|
    ensures Feed(crc, words[k..]) == Feed(Clock(crc, words[k]), words[k + 1..])
  {
    assert words[k..][1..] == words[k + 1..];
  }

  lemma SliceOfSlice(data: seq<byte>, offset: nat, size: nat, at: nat, n: nat)
    requires offset + size <= |data| && at + n <= size
    ensures data[offset..offset + size][at..at + n] == data[offset + at..offset + at + n]
  {
    var inner, outer := data[offset..offset + size][at..at + n], data[offset + at..offset + at + n];
    forall i | 0 <= i < n ensures inner[i] == outer[i] {
    }
  }

  lemma WordOfSlice(data: seq<byte>, offset: nat, size: nat, k: nat)
    requires size % 4 == 0 && offset + size <= |data| && k < size / 4
    ensures Words(data[offset..offset + size])[k] == Word(data[offset + 4 * k..offset + 4 * k + 4])
  {
    hide Word;
    SliceOfSlice(data, offset, size, 4 * k, 4);
  }

  /** stm_crc32 over size bytes of a buffer, starting at offset. */
  method StmCrc32(data: array<byte>, offset: nat, size: nat) returns (crc: bv32)
    requires size % 4 == 0 && offset + size <= data.Length
    ensures crc == Checksum(Words(data[..][offset..offset + size]))
  {
    hide Word, Clock;
    crc := PRESET;
    ghost var words := Words(data[..][offset..offset + size]);
    for k := 0 to size / 4
      invariant Feed(crc, words[k..]) == Checksum(words)
    {
      var at := offset + 4 * k;
      var word := Word(data[at..at + 4]);
      assert data[at..at + 4] == data[..][at..at + 4];
      WordOfSlice(data[..], offset, size, k);
      FeedStep(crc, words, k);
      crc := FeedWord(crc, word);
    }
    assert words[size / 4..] == [];
  }

  // ---------- The register as a polynomial ----------

  /** The i-th bit of a word counted from the most significant one. */
  predicate Bit(w: bv32, i: nat)
    decreases i
  {
    if i == 0 then w & 0x80000000 != 0 else Bit(w << 1, i - 1)
  }

  function WordBits(w: bv32): (b: Bits)
    ensures |b| == WORD_SIZE && forall i :: 0 <= i < WORD_SIZE ==> b[i] == Bit(w, i)
  {
    seq(WORD_SIZE, i requires i >= 0 => Bit(w, i))
  }

  /** The bits of a message in the order the register consumes them. */
  function MessageBits(words: seq<bv32>): (b: Bits)
    ensures |b| == WORD_SIZE * |words|
  {
    if words == [] then [] else WordBits(words[0]) + MessageBits(words[1..])
  }

  lemma {:induction false} MessageBitsAt(words: seq<bv32>, k: nat, i: nat)
    requires k < |words| && i < WORD_SIZE
    ensures MessageBits(words)[WORD_SIZE * k + i] == WordBits(words[k])[i]
  {
    if k != 0 {
      MessageBitsAt(words[1..], k - 1, i);
    }
  }

  /** n left shifts. */
  function ShiftLeft(w: bv32, n: nat): bv32
    decreases n
  {
    if n == 0 then w else ShiftLeft(w << 1, n - 1)
  }

  lemma {:induction false} ShiftLeftSplit(w: bv32, m: nat, n: nat)
    ensures ShiftLeft(w, m + n) == ShiftLeft(ShiftLeft(w, m), n)
    decreases m
  {
    if m != 0 {
      ShiftLeftSplit(w << 1, m - 1, n);
    }
  }

  lemma {:induction false} BitOfShiftLeft(w: bv32, m: nat, n: nat)
    ensures Bit(w, m + n) == Bit(ShiftLeft(w, m), n)
    decreases m
  {
    if m != 0 {
      BitOfShiftLeft(w << 1, m - 1, n);
    }
  }

  lemma ShiftLeftOctet(w: bv32)
    ensures ShiftLeft(w, 8) == w << 8
  {
    ShiftLeftSplit(w, 4, 4);
    ShiftLeftNibble(w);
    ShiftLeftNibble(w << 4);
  }

  lemma ShiftLeftNibble(w: bv32)
    ensures ShiftLeft(w, 4) == w << 4
  {
  }

  /** A word is exhausted after 32 shifts. */
  lemma ShiftLeftOut(w: bv32)
    ensures ShiftLeft(w, WORD_SIZE) == 0
  {
    ShiftLeftSplit(w, 8, 24);
    ShiftLeftOctet(w);
    ShiftLeftSplit(w << 8, 8, 16);
    ShiftLeftOctet(w << 8);
    ShiftLeftSplit(w << 16, 8, 8);
    ShiftLeftOctet(w << 16);
    ShiftLeftOctet(w << 24);
  }

  lemma XorShift(v: bv32, w: bv32)
    ensures (v ^ w) << 1 == (v << 1) ^ (w << 1)
    ensures Bit(v ^ w, 0) == (Bit(v, 0) != Bit(w, 0))
  {
  }

  lemma {:induction false} BitXor(v: bv32, w: bv32, i: nat)
    ensures Bit(v ^ w, i) == (Bit(v, i) != Bit(w, i))
    decreases i
  {
    XorShift(v, w);
    if i != 0 {
      BitXor(v << 1, w << 1, i - 1);
    }
  }

  lemma WordBitsXor(v: bv32, w: bv32)
    ensures WordBits(v ^ w) == Xor(WordBits(v), WordBits(w))
  {
    forall i | 0 <= i < WORD_SIZE
      ensures WordBits(v ^ w)[i] == (WordBits(v)[i] != WordBits(w)[i])
    {
      BitXor(v, w, i);
    }
  }

  lemma WordBitsShiftLeft(w: bv32)
    ensures WordBits(w << 1) == WordBits(w)[1..] + [false]
  {
    assert !Bit(w << 1, WORD_SIZE - 1) by {
      assert Bit(w << 1, WORD_SIZE - 1) == Bit(w, WORD_SIZE);
      BitOfShiftLeft(w, WORD_SIZE, 0);
      ShiftLeftOut(w);
    }
  }

  /** A word all of whose bits are zero is zero. */
  lemma {:induction false} ZeroBits(w: bv32, n: nat)
    requires ShiftLeft(w, n) == 0 && forall i :: 0 <= i < n ==> !Bit(w, i)
    ensures w == 0
    decreases n
  {
    if n != 0 {
      var next := w << 1;
      forall i | 0 <= i < n - 1 ensures !Bit(next, i) {
        assert !Bit(w, i + 1);
      }
      ZeroBits(next, n - 1);
      assert !Bit(w, 0);
    }
  }

  lemma WordBitsInjective(v: bv32, w: bv32)
    requires WordBits(v) == WordBits(w)
    ensures v == w
  {
    var difference := v ^ w;
    forall i | 0 <= i < WORD_SIZE ensures !Bit(difference, i) {
      BitXor(v, w, i);
      assert WordBits(v)[i] == WordBits(w)[i];
    }
    ShiftLeftOut(difference);
    ZeroBits(difference, WORD_SIZE);
  }

  /** The exponents of the generator of section 8.1.1.6.2 of ITU-T V.42. */
  const EXPONENTS := {32, 26, 23, 22, 16, 12, 11, 10, 8, 7, 5, 4, 2, 1, 0}

  function Generator(): (g: Bits)
    ensures |g| == WORD_SIZE + 1 && Monic(g) && g[WORD_SIZE]
  {
    seq(33, i => 32 - i in EXPONENTS)
  }

  /** The constant in the code is that generator without its leading term. */
  lemma GeneratorBits()
    ensures Generator() == [true] + WordBits(POLYNOMIAL)
  {
    GeneratorOctets();
    forall i | 0 <= i < WORD_SIZE ensures Bit(POLYNOMIAL, i) == (31 - i in EXPONENTS) {
      if 24 <= i {
        BitOfShiftLeft(0x1DB70000, 8, i - 24);
        ShiftLeftOctet(0x1DB70000);
      }
      if 16 <= i {
        BitOfShiftLeft(0xC11DB700, 8, i - 16);
        ShiftLeftOctet(0xC11DB700);
      }
      if 8 <= i {
        BitOfShiftLeft(POLYNOMIAL, 8, i - 8);
        ShiftLeftOctet(POLYNOMIAL);
      }
    }
  }

  lemma GeneratorOctets()
    ensures forall i :: 0 <= i < 8 ==> Bit(0x04C11DB7, i) == (31 - i in EXPONENTS)
    ensures forall i :: 0 <= i < 8 ==> Bit(0xC11DB700, i) == (23 - i in EXPONENTS)
    ensures forall i :: 0 <= i < 8 ==> Bit(0x1DB70000, i) == (15 - i in EXPONENTS)
    ensures forall i :: 0 <= i < 8 ==> Bit(0xB7000000, i) == (7 - i in EXPONENTS)
  {
    OctetBits(0x04C11DB7);
    OctetBits(0xC11DB700);
    OctetBits(0x1DB70000);
    OctetBits(0xB7000000);
  }

  lemma OctetBits(w: bv32)
    ensures Bit(w, 0) == (w & 0x80000000 != 0) && Bit(w, 1) == (w & 0x40000000 != 0)
    ensures Bit(w, 2) == (w & 0x20000000 != 0) && Bit(w, 3) == (w & 0x10000000 != 0)
    ensures Bit(w, 4) == (w & 0x08000000 != 0) && Bit(w, 5) == (w & 0x04000000 != 0)
    ensures Bit(w, 6) == (w & 0x02000000 != 0) && Bit(w, 7) == (w & 0x01000000 != 0)
  {
  }

  // ---------- Byte order ----------

  /** The low k binary digits of n, most significant first. */
  function Binary(n: nat, k: nat): (b: Bits)
    ensures |b| == k
    decreases k
  {
    if k == 0 then [] else Binary(n / 2, k - 1) + [n % 2 == 1]
  }

  lemma {:induction false} BinaryJoin(high: nat, low: nat, k: nat, m: nat)
    requires low < Power(2, m)
    ensures Binary(high * Power(2, m) + low, k + m) == Binary(high, k) + Binary(low, m)
    decreases m
  {
    if m == 0 {
      assert Binary(high, k) + [] == Binary(high, k);
    } else {
      var p, n := Power(2, m - 1), high * Power(2, m) + low;
      BinaryJoin(high, low / 2, k, m - 1);
      assert n == 2 * (high * p) + low;
      assert n / 2 == high * p + low / 2 && n % 2 == low % 2;
      assert Binary(high, k) + (Binary(low / 2, m - 1) + [low % 2 == 1])
          == Binary(high, k) + Binary(low / 2, m - 1) + [low % 2 == 1];
    }
  }

  lemma BinaryOctet(high: nat, low: byte, k: nat)
    ensures Binary(low + 256 * high, k + 8) == Binary(high, k) + Binary(low, 8)
  {
    assert Power(2, 8) == 256;
    BinaryJoin(high, low, k, 8);
  }

  /** The low k bits of an octet. */
  function LowBits(v: bv8, k: nat): (b: Bits)
    ensures |b| == k
    decreases k
  {
    if k == 0 then [] else LowBits(v >> 1, k - 1) + [v & 1 != 0]
  }

  lemma {:induction false} OctetInBinary(n: nat, k: nat)
    requires k <= 8
    ensures LowBits(Digits(n, k), k) == Binary(n, k)
    decreases k
  {
    if k > 0 {
      OctetInBinary(n / 2, k - 1);
      DigitsFit(n, k);
      LowBit(Digits(n / 2, k - 1));
    }
  }

  /** Bit i of an octet, counted from the least significant one. */
  predicate LowBitAt(v: bv8, i: nat)
    decreases i
  {
    if i == 0 then v & 1 != 0 else LowBitAt(v >> 1, i - 1)
  }

  lemma {:induction false} LowBitsAt(v: bv8, k: nat, i: nat)
    requires i < k
    ensures LowBits(v, k)[k - 1 - i] == LowBitAt(v, i)
    decreases k
  {
    if i > 0 {
      LowBitsAt(v >> 1, k - 1, i - 1);
    }
  }

  lemma LowBitMasks(v: bv8)
    ensures LowBitAt(v, 0) == (v & 0x01 != 0) && LowBitAt(v, 1) == (v & 0x02 != 0)
    ensures LowBitAt(v, 2) == (v & 0x04 != 0) && LowBitAt(v, 3) == (v & 0x08 != 0)
    ensures LowBitAt(v, 4) == (v & 0x10 != 0) && LowBitAt(v, 5) == (v & 0x20 != 0)
    ensures LowBitAt(v, 6) == (v & 0x40 != 0) && LowBitAt(v, 7) == (v & 0x80 != 0)
  {
  }

  /** The first eight bits of a word are those of its last octet. */
  lemma FirstBits(v0: bv8, v1: bv8, v2: bv8, v3: bv8)
    ensures forall i :: 0 <= i < 8 ==> Bit(Join(v0, v1, v2, v3), i) == LowBitAt(v3, 7 - i)
  {
    var w := Join(v0, v1, v2, v3);
    OctetBits(w);
    LowBitMasks(v3);
    JoinMasks(v0, v1, v2, v3);
    hide Join;
  }

  lemma JoinMasks(v0: bv8, v1: bv8, v2: bv8, v3: bv8)
    ensures var w := Join(v0, v1, v2, v3);
            && (w & 0x80000000 != 0 <==> v3 & 0x80 != 0) && (w & 0x40000000 != 0 <==> v3 & 0x40 != 0)
            && (w & 0x20000000 != 0 <==> v3 & 0x20 != 0) && (w & 0x10000000 != 0 <==> v3 & 0x10 != 0)
            && (w & 0x08000000 != 0 <==> v3 & 0x08 != 0) && (w & 0x04000000 != 0 <==> v3 & 0x04 != 0)
            && (w & 0x02000000 != 0 <==> v3 & 0x02 != 0) && (w & 0x01000000 != 0 <==> v3 & 0x01 != 0)
  {
  }

  lemma JoinShifted(v0: bv8, v1: bv8, v2: bv8, v3: bv8)
    ensures Join(v0, v1, v2, v3) << 8 == Join(0, v0, v1, v2)
  {
  }

  /** The bits of a word, octet by octet, the last one first. */
  lemma JoinBits(v0: bv8, v1: bv8, v2: bv8, v3: bv8, i: nat)
    requires i < WORD_SIZE
    ensures Bit(Join(v0, v1, v2, v3), i)
         == if i < 8 then LowBitAt(v3, 7 - i) else if i < 16 then LowBitAt(v2, 15 - i)
            else if i < 24 then LowBitAt(v1, 23 - i) else LowBitAt(v0, 31 - i)
  {
    hide Join, Bit, LowBitAt;
    if i < 8 {
      FirstBits(v0, v1, v2, v3);
    } else {
      BitOfShiftLeft(Join(v0, v1, v2, v3), 8, i - 8);
      ShiftLeftOctet(Join(v0, v1, v2, v3));
      JoinShifted(v0, v1, v2, v3);
      if i < 16 {
        FirstBits(0, v0, v1, v2);
      } else {
        BitOfShiftLeft(Join(0, v0, v1, v2), 8, i - 16);
        ShiftLeftOctet(Join(0, v0, v1, v2));
        JoinShifted(0, v0, v1, v2);
        if i < 24 {
          FirstBits(0, 0, v0, v1);
        } else {
          BitOfShiftLeft(Join(0, 0, v0, v1), 8, i - 24);
          ShiftLeftOctet(Join(0, 0, v0, v1));
          JoinShifted(0, 0, v0, v1);
          FirstBits(0, 0, 0, v0);
        }
      }
    }
  }

  /** A word is the number its four octets denote, least significant octet first. */
  lemma WordIsLittleEndian(b: seq<byte>)
    requires |b| == 4
    ensures WordBits(Word(b)) == Binary(FromLittleEndian(b), 32)
  {
    FourOctets(b);
    hide Word, Join, Octet, WordBits, Binary, LowBits, LowBitAt;
    WordJoins(b);
    forall i | 0 <= i < WORD_SIZE ensures WordBits(Word(b))[i] == Binary(FromLittleEndian(b), 32)[i] {
      WordBitIs(b, i);
    }
  }

  lemma WordBitIs(b: seq<byte>, i: nat)
    requires |b| == 4 && i < WORD_SIZE
    ensures WordBits(Word(b))[i] == (Binary(b[3], 8) + Binary(b[2], 8) + Binary(b[1], 8) + Binary(b[0], 8))[i]
  {
    hide Join, Bit, LowBits, LowBitAt, Binary, Digits;
    WordJoins(b);
    JoinBits(Octet(b[0]), Octet(b[1]), Octet(b[2]), Octet(b[3]), i);
    var k, m := 3 - i / 8, 7 - i % 8;
    OctetInBinary(b[k], OCTET_SIZE);
    LowBitsAt(Octet(b[k]), OCTET_SIZE, m);
  }

  lemma FourOctets(b: seq<byte>)
    requires |b| == 4
    ensures Binary(FromLittleEndian(b), 32) == Binary(b[3], 8) + Binary(b[2], 8) + Binary(b[1], 8) + Binary(b[0], 8)
  {
    hide Binary;
    var b1, b2, b3 := b[1..], b[2..], b[3..];
    assert b1[1..] == b2 && b2[1..] == b3 && b3[1..] == [];
    assert FromLittleEndian(b3) == b[3] && FromLittleEndian(b) == b[0] + 256 * FromLittleEndian(b1);
    assert FromLittleEndian(b1) == b[1] + 256 * FromLittleEndian(b2);
    assert FromLittleEndian(b2) == b[2] + 256 * FromLittleEndian(b3);
    hide FromLittleEndian;
    BinaryOctet(FromLittleEndian(b3), b[2], 8);
    BinaryOctet(FromLittleEndian(b2), b[1], 16);
    BinaryOctet(FromLittleEndian(b1), b[0], 24);
  }

  // ---------- The checksum is a remainder ----------

  /** Clocking the register multiplies by x modulo the generator. */
  lemma ShiftIsTimesX(crc: bv32)
    ensures WordBits(Shift(crc)) == Reduce(WordBits(crc) + [false], Generator())
  {
    TimesX(WordBits(crc), Generator());
    WordBitsShiftLeft(crc);
    if Bit(crc, 0) {
      GeneratorBits();
      assert Generator()[1..] == WordBits(POLYNOMIAL);
      WordBitsXor(crc << 1, POLYNOMIAL);
    }
  }

  lemma {:induction false} ShiftsIsRem(crc: bv32, n: nat)
    ensures WordBits(Shifts(crc, n)) == Rem(WordBits(crc) + Zeros(n), Generator())
    decreases n
  {
    if n == 0 {
      assert WordBits(crc) + Zeros(0) == WordBits(crc);
    } else {
      ShiftIsTimesX(crc);
      ShiftsIsRem(Shift(crc), n - 1);
      var p := WordBits(crc) + [false];
      ReducePrefix(p, Zeros(n - 1), Generator());
      assert WordBits(crc) + Zeros(n) == p + Zeros(n - 1);
    }
  }

  lemma ClockIsRem(crc: bv32, data: bv32)
    ensures WordBits(Clock(crc, data)) == Rem(Xor(WordBits(crc), WordBits(data)) + Zeros(WORD_SIZE), Generator())
  {
    WordBitsXor(crc, data);
    ShiftsIsRem(crc ^ data, WORD_SIZE);
  }

  /** The message times x^32 plus the register's content aligned with the leading message bits. */
  function Dividend(register: Bits, message: Bits): (d: Bits)
    requires |register| == WORD_SIZE
    ensures |d| == |message| + WORD_SIZE
  {
    Xor(message + Zeros(WORD_SIZE), register + Zeros(|message|))
  }

  lemma {:induction false} FeedIsRem(crc: bv32, words: seq<bv32>)
    ensures WordBits(Feed(crc, words)) == Rem(Dividend(WordBits(crc), MessageBits(words)), Generator())
    decreases |words|
  {
    if words == [] {
      assert Dividend(WordBits(crc), []) == WordBits(crc);
    } else {
      ClockIsRem(crc, words[0]);
      FeedIsRem(Clock(crc, words[0]), words[1..]);
      DivideAhead(WordBits(crc), WordBits(words[0]), MessageBits(words[1..]));
    }
  }

  /** Reducing the first 32 message bits before the rest are seen does not change the remainder. */
  lemma DivideAhead(register: Bits, first: Bits, rest: Bits)
    requires |register| == |first| == WORD_SIZE
    ensures var g := Generator();
            Rem(Dividend(register, first + rest), g) ==
            Rem(Dividend(Rem(Xor(register, first) + Zeros(WORD_SIZE), g), rest), g)
  {
    var g := Generator();
    var x := Xor(register, first) + Zeros(WORD_SIZE);
    var tail := rest + Zeros(WORD_SIZE);
    RemXor(tail, Rem(x, g) + Zeros(|rest|), g);
    RemPrefix(x, Zeros(|rest|), g);
    RemXor(Zeros(WORD_SIZE) + tail, x + Zeros(|rest|), g);
    RemLeadingZeros(WORD_SIZE, tail, g);
    DividendSplit(register, first, rest);
  }

  lemma DividendSplit(register: Bits, first: Bits, rest: Bits)
    requires |register| == |first| == WORD_SIZE
    ensures Dividend(register, first + rest) ==
            Xor(Zeros(WORD_SIZE) + (rest + Zeros(WORD_SIZE)),
                (Xor(register, first) + Zeros(WORD_SIZE)) + Zeros(|rest|))
  {
  }

  lemma PresetBits()
    ensures WordBits(PRESET) == seq(32, _ => true)
  {
    OctetBits(0xffffffff);
    OctetBits(0xffffff00);
    OctetBits(0xffff0000);
    OctetBits(0xff000000);
    forall i | 0 <= i < WORD_SIZE ensures Bit(PRESET, i) {
      if 24 <= i {
        BitOfShiftLeft(0xffff0000, 8, i - 24);
        ShiftLeftOctet(0xffff0000);
      }
      if 16 <= i {
        BitOfShiftLeft(0xffffff00, 8, i - 16);
        ShiftLeftOctet(0xffffff00);
      }
      if 8 <= i {
        BitOfShiftLeft(PRESET, 8, i - 8);
        ShiftLeftOctet(PRESET);
      }
    }
  }

  /** The message times x^32, its first thirty-two coefficients inverted. */
  function Inverted(message: Bits): (d: Bits)
    ensures |d| == |message| + 32
    ensures forall i :: 0 <= i < |d| ==> d[i] == ((i < |message| && message[i]) != (i < 32))
  {
    Xor(message + Zeros(32), seq(32, _ => true) + Zeros(|message|))
  }

  lemma PresetInverts(message: Bits)
    ensures Inverted(message) == Dividend(WordBits(PRESET), message)
  {
    PresetBits();
    hide WordBits;
  }

  lemma ChecksumFed(words: seq<bv32>)
    ensures Checksum(words) == Feed(PRESET, words)
  {
  }

  /**
   The checksum is the remainder of the polynomial division of the message times x^32, with its first thirty-two
   coefficients inverted, by the generator: some quotient exists, and no other 32-bit value has one.
   */
  lemma ChecksumIsRemainder(words: seq<bv32>)
    ensures var d := Inverted(MessageBits(words));
            && WordBits(Checksum(words)) == Rem(d, Generator())
            && d == Xor(Mul(Quot(d, Generator()), Generator()), Zeros(|d| - 32) + WordBits(Checksum(words)))
            && forall q: Bits, r: Bits ::
                 |q| == |d| - 32 && |r| == 32 && d == Xor(Mul(q, Generator()), Zeros(|q|) + r)
                 ==> r == WordBits(Checksum(words))
  {
    hide Inverted, Dividend, WordBits, MessageBits, Checksum, Generator, Mul, Quot, Rem;
    var d := Inverted(MessageBits(words));
    PresetInverts(MessageBits(words));
    ChecksumFed(words);
    FeedIsRem(PRESET, words);
    DivisionTheorem(d, Generator());
    forall q: Bits, r: Bits |
      |q| == |d| - 32 && |r| == 32 && d == Xor(Mul(q, Generator()), Zeros(|q|) + r)
      ensures r == WordBits(Checksum(words))
    {
      RemainderUnique(d, q, r, Generator());
    }
  }

  /** So the preset makes even a message of zeros, of any length, have a checksum. */
  lemma ZerosChecked(n: nat)
    ensures Checksum(seq(n, _ => 0)) != 0
  {
    ZerosFed(PRESET, n);
  }

  lemma {:induction false} ZerosFed(crc: bv32, n: nat)
    requires crc != 0
    ensures Feed(crc, seq(n, _ => 0)) != 0
    decreases n
  {
    if n > 0 {
      var zeros: seq<bv32> := seq(n, _ => 0);
      var rest: seq<bv32> := seq(n - 1, _ => 0);
      assert zeros[1..] == rest;
      hide Clock;
      ClockZero(crc, 0);
      ZerosFed(Clock(crc, 0), n - 1);
    }
  }

  // ---------- Error detection ----------

  /** Two messages of one length collide exactly when their difference is a multiple of the generator. */
  lemma CollisionIffMultiple(u: seq<bv32>, v: seq<bv32>)
    requires |u| == |v| > 0
    ensures Checksum(u) == Checksum(v) <==>
            Rem(Xor(MessageBits(u), MessageBits(v)), Generator()) == Zeros(WORD_SIZE)
  {
    var g := Generator();
    var e := Xor(MessageBits(u), MessageBits(v));
    ChecksumDifference(u, v);
    RemPrefix(e, Zeros(WORD_SIZE), g);
    if Rem(e, g) == Zeros(WORD_SIZE) {
      RemZeros(Zeros(WORD_SIZE) + Zeros(WORD_SIZE), g);
      XorZero(WordBits(Checksum(u)), WordBits(Checksum(v)));
      WordBitsInjective(Checksum(u), Checksum(v));
    } else {
      TimesPowerOfXNonzero(Rem(e, g), WORD_SIZE, g);
    }
  }

  /** The preset cancels: checksums differ by the remainder of the messages' difference times x^32. */
  lemma ChecksumDifference(u: seq<bv32>, v: seq<bv32>)
    requires |u| == |v|
    ensures Xor(WordBits(Checksum(u)), WordBits(Checksum(v))) ==
            Rem(Xor(MessageBits(u), MessageBits(v)) + Zeros(WORD_SIZE), Generator())
  {
    var a, b := MessageBits(u), MessageBits(v);
    FeedIsRem(PRESET, u);
    FeedIsRem(PRESET, v);
    RemXor(Dividend(WordBits(PRESET), a), Dividend(WordBits(PRESET), b), Generator());
    DividendDifference(WordBits(PRESET), a, b);
  }

  lemma DividendDifference(register: Bits, a: Bits, b: Bits)
    requires |register| == WORD_SIZE && |a| == |b|
    ensures Xor(Dividend(register, a), Dividend(register, b)) == Xor(a, b) + Zeros(WORD_SIZE)
  {
  }

  /** a and b differ, and only within thirty-two consecutive positions from i on. */
  predicate Burst(a: Bits, b: Bits, i: nat) {
    && |a| == |b|
    && a != b
    && forall k :: 0 <= k < |a| && a[k] != b[k] ==> i <= k < i + WORD_SIZE
  }

  /** Every error burst of at most thirty-two bits in processing order changes the checksum. */
  lemma BurstDetected(u: seq<bv32>, v: seq<bv32>, i: nat)
    requires |u| == |v|
    requires Burst(MessageBits(u), MessageBits(v), i)
    ensures Checksum(u) != Checksum(v)
  {
    var a, b := MessageBits(u), MessageBits(v);
    var e := Xor(a, b);
    var k :| 0 <= k < |a| && a[k] != b[k];
    BurstNotMultiple(e, if i + WORD_SIZE <= |e| then i else |e| - WORD_SIZE, k);
    CollisionIffMultiple(u, v);
  }

  /** A corruption confined to one word is such a burst. */
  lemma WordErrorIsBurst(u: seq<bv32>, v: seq<bv32>, k: nat)
    requires |u| == |v| && k < |u| && u[k] != v[k]
    requires forall j :: 0 <= j < |u| && j != k ==> u[j] == v[j]
    ensures Burst(MessageBits(u), MessageBits(v), WORD_SIZE * k)
  {
    hide Bit, MessageBits;
    var a, b := MessageBits(u), MessageBits(v);
    forall i | 0 <= i < |a| && a[i] != b[i] ensures WORD_SIZE * k <= i < WORD_SIZE * k + WORD_SIZE {
      MessageBitsAt(u, i / WORD_SIZE, i % WORD_SIZE);
      MessageBitsAt(v, i / WORD_SIZE, i % WORD_SIZE);
    }
    if a == b {
      forall i | 0 <= i < WORD_SIZE ensures WordBits(u[k])[i] == WordBits(v[k])[i] {
        MessageBitsAt(u, k, i);
        MessageBitsAt(v, k, i);
      }
      assert WordBits(u[k]) == WordBits(v[k]);
      WordBitsInjective(u[k], v[k]);
    }
  }

  lemma BurstNotMultiple(e: Bits, from: nat, k: nat)
    requires from <= k < from + WORD_SIZE <= |e| && e[k]
    requires forall i :: 0 <= i < |e| && e[i] ==> from <= i < from + WORD_SIZE
    ensures Rem(e, Generator()) != Zeros(WORD_SIZE)
  {
    var window := e[from..from + WORD_SIZE];
    var after := |e| - from - WORD_SIZE;
    assert window[k - from];
    Isolate(e, from, WORD_SIZE);
    RemLeadingZeros(from, window + Zeros(after), Generator());
    TimesPowerOfXNonzero(window, after, Generator());
  }

  /** Thirty-two is the best possible: the generator itself, 33 bits wide, slips through at every offset. */
  lemma GeneratorUndetected(u: seq<bv32>, v: seq<bv32>, before: nat, after: nat)
    requires |u| == |v|
    requires Xor(MessageBits(u), MessageBits(v)) == Zeros(before) + (Generator() + Zeros(after))
    ensures u != v && Checksum(u) == Checksum(v)
  {
    var g := Generator();
    RemLeadingZeros(before, g + Zeros(after), g);
    RemPrefix(g, Zeros(after), g);
    assert Reduce(g, g) == Zeros(WORD_SIZE);
    RemZeros(Zeros(WORD_SIZE) + Zeros(after), g);
    CollisionIffMultiple(u, v);
    assert Xor(MessageBits(u), MessageBits(v))[before];
  }

  lemma OneBits()
    ensures WordBits(1) == Zeros(WORD_SIZE - 1) + [true]
  {
    OctetBits(0x1);
    OctetBits(0x100);
    OctetBits(0x10000);
    OctetBits(0x1000000);
    forall i | 0 <= i < WORD_SIZE ensures Bit(1, i) == (i == 31) {
      if 24 <= i {
        BitOfShiftLeft(0x10000, 8, i - 24);
        ShiftLeftOctet(0x10000);
      }
      if 16 <= i {
        BitOfShiftLeft(0x100, 8, i - 16);
        ShiftLeftOctet(0x100);
      }
      if 8 <= i {
        BitOfShiftLeft(1, 8, i - 8);
        ShiftLeftOctet(1);
      }
    }
  }

  /** Such pairs exist: for every message of two words or more, and at every word of it but the last. */
  lemma UndetectedPair(u: seq<bv32>, k: nat)
    requires k + 1 < |u|
    ensures var v := u[k := u[k] ^ 1][k + 1 := u[k + 1] ^ POLYNOMIAL];
            v != u && Checksum(v) == Checksum(u)
  {
    var v := u[k := u[k] ^ 1][k + 1 := u[k + 1] ^ POLYNOMIAL];
    WordBitsXor(u[k], 1);
    WordBitsXor(u[k + 1], POLYNOMIAL);
    DifferAsGenerator(u, v, k);
    GeneratorUndetected(u, v, WORD_SIZE * k + WORD_SIZE - 1, WORD_SIZE * (|u| - k - 2));
  }

  lemma DifferAsGenerator(u: seq<bv32>, v: seq<bv32>, k: nat)
    requires |u| == |v| && k + 1 < |u| && forall j :: 0 <= j < |u| && j != k && j != k + 1 ==> u[j] == v[j]
    requires WordBits(v[k]) == Xor(WordBits(u[k]), WordBits(1))
    requires WordBits(v[k + 1]) == Xor(WordBits(u[k + 1]), WordBits(POLYNOMIAL))
    ensures Xor(MessageBits(u), MessageBits(v))
         == Zeros(WORD_SIZE * k + WORD_SIZE - 1) + (Generator() + Zeros(WORD_SIZE * (|u| - k - 2)))
  {
    hide WordBits, MessageBits, Generator, Zeros, Xor;
    var before, after := WORD_SIZE * k + WORD_SIZE - 1, WORD_SIZE * (|u| - k - 2);
    var e, g := Xor(MessageBits(u), MessageBits(v)), Zeros(before) + (Generator() + Zeros(after));
    forall i | 0 <= i < |e| ensures e[i] == g[i] {
      DifferAsGeneratorAt(u, v, k, i / WORD_SIZE, i % WORD_SIZE);
    }
  }

  lemma DifferAsGeneratorAt(u: seq<bv32>, v: seq<bv32>, k: nat, j: nat, m: nat)
    requires |u| == |v| && k + 1 < |u| && j < |u| && m < WORD_SIZE && (j != k && j != k + 1 ==> u[j] == v[j])
    requires WordBits(v[k]) == Xor(WordBits(u[k]), WordBits(1))
    requires WordBits(v[k + 1]) == Xor(WordBits(u[k + 1]), WordBits(POLYNOMIAL))
    ensures Xor(MessageBits(u), MessageBits(v))[WORD_SIZE * j + m]
         == (Zeros(WORD_SIZE * k + WORD_SIZE - 1) + (Generator() + Zeros(WORD_SIZE * (|u| - k - 2))))[WORD_SIZE * j + m]
  {
    hide Bit, WordBits, MessageBits, Generator, Zeros, Xor;
    DifferenceAt(u, v, j, m);
    GeneratorAt(k, j, m, WORD_SIZE * (|u| - k - 2));
  }

  lemma DifferenceAt(u: seq<bv32>, v: seq<bv32>, j: nat, m: nat)
    requires |u| == |v| && j < |u| && m < WORD_SIZE
    ensures Xor(MessageBits(u), MessageBits(v))[WORD_SIZE * j + m] == (WordBits(u[j])[m] != WordBits(v[j])[m])
  {
    hide Bit, WordBits, MessageBits, Xor;
    MessageBitsAt(u, j, m);
    MessageBitsAt(v, j, m);
  }

  /** The generator in its place, bit by bit. */
  lemma GeneratorAt(k: nat, j: nat, m: nat, after: nat)
    requires m < WORD_SIZE && WORD_SIZE * j + m < WORD_SIZE * k + 2 * WORD_SIZE + after
    ensures (Zeros(WORD_SIZE * k + WORD_SIZE - 1) + (Generator() + Zeros(after)))[WORD_SIZE * j + m]
         == if j == k then WordBits(1)[m] else if j == k + 1 then WordBits(POLYNOMIAL)[m] else false
  {
    OneBits();
    GeneratorBits();
    hide WordBits, Generator, Zeros;
    if j < k {
      assert WORD_SIZE * j + m < WORD_SIZE * k;
    }
  }

  /** Appending its own checksum takes every message to the zero register, and nothing else does. */
  lemma ResidueZero(words: seq<bv32>, crc: bv32)
    ensures Checksum(words + [crc]) == 0 <==> crc == Checksum(words)
  {
    FeedAppend(PRESET, words, [crc]);
    ClockZero(Checksum(words), crc);
  }

  lemma ClockZero(crc: bv32, data: bv32)
    ensures Clock(crc, data) == 0 <==> crc == data
  {
    ShiftsZero(crc ^ data, WORD_SIZE);
  }

  lemma {:induction false} FeedAppend(crc: bv32, u: seq<bv32>, v: seq<bv32>)
    ensures Feed(crc, u + v) == Feed(Feed(crc, u), v)
    decreases |u|
  {
    if u == [] {
      assert u + v == v;
    } else {
      FeedAppend(Clock(crc, u[0]), u[1..], v);
      assert (u + v)[1..] == u[1..] + v;
    }
  }

  lemma {:induction false} ShiftsZero(crc: bv32, n: nat)
    ensures Shifts(crc, n) == 0 <==> crc == 0
    decreases n
  {
    if n != 0 {
      ShiftsZero(Shift(crc), n - 1);
    }
  }
}
