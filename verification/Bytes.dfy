/** Octets, and unsigned integers stored least significant octet first. */
module Bytes {

  type byte = x: int | 0 <= x < 256

  function Fill(n: nat): (r: seq<byte>)
    ensures |r| == n && forall i :: 0 <= i < n ==> r[i] == 0
  {
    seq(n, _ => 0)
  }

  function Power(b: nat, n: nat): nat {
    if n == 0 then 1 else b * Power(b, n - 1)
  }

  /** The low |size| octets of n, as a store to a little-endian host's memory leaves them. */
  function ToLittleEndian(n: nat, size: nat): (r: seq<byte>)
    ensures |r| == size
    decreases size
  {
    if size == 0 then [] else [n % 256] + ToLittleEndian(n / 256, size - 1)
  }

  function FromLittleEndian(s: seq<byte>): nat {
    if s == [] then 0 else s[0] + 256 * FromLittleEndian(s[1..])
  }

  lemma {:induction false} LittleEndianRoundTrip(n: nat, size: nat)
    requires n < Power(256, size)
    ensures FromLittleEndian(ToLittleEndian(n, size)) == n
    decreases size
  {
    if size != 0 {
      assert n / 256 < Power(256, size - 1);
      LittleEndianRoundTrip(n / 256, size - 1);
      assert ToLittleEndian(n, size)[1..] == ToLittleEndian(n / 256, size - 1);
    }
  }

  lemma {:induction false} LittleEndianBound(s: seq<byte>)
    ensures FromLittleEndian(s) < Power(256, |s|)
  {
    if s != [] {
      LittleEndianBound(s[1..]);
    }
  }

  lemma {:induction false} LittleEndianInverse(s: seq<byte>)
    ensures ToLittleEndian(FromLittleEndian(s), |s|) == s
  {
    if s != [] {
      LittleEndianInverse(s[1..]);
      var n := FromLittleEndian(s);
      assert n % 256 == s[0] && n / 256 == FromLittleEndian(s[1..]);
    }
  }

  /** Every octet weighs 256 times the one before it. */
  lemma {:induction false} LittleEndianAppend(s: seq<byte>, b: byte)
    ensures FromLittleEndian(s + [b]) == FromLittleEndian(s) + b * Power(256, |s|)
    ensures FromLittleEndian([b]) == b
  {
    if s == [] {
      assert s + [b] == [b] && [b][1..] == [];
      assert Power(256, 0) == 1;
    } else {
      LittleEndianAppend(s[1..], b);
      assert (s + [b])[1..] == s[1..] + [b];
      var p := Power(256, |s| - 1);
      assert 256 * (b * p) == b * (256 * p);
    }
  }

  // ---------- Octets as bit vectors ----------

  /** The low n binary digits of b. */
  function Digits(b: nat, n: nat): bv8
    decreases n
  {
    if n == 0 then 0 else (Digits(b / 2, n - 1) << 1) | (if b % 2 == 0 then 0 else 1)
  }

  /** The number the low n bits of v denote. */
  function Value(v: bv8, n: nat): (r: nat)
    ensures r < Power(2, n)
    decreases n
  {
    if n == 0 then 0 else 2 * Value(v >> 1, n - 1) + (if v & 1 == 0 then 0 else 1)
  }

  const OCTET_SIZE: nat := 8

  function Octet(b: byte): bv8 {
    Digits(b, OCTET_SIZE)
  }

  function ByteOf(v: bv8): byte {
    assert Power(2, OCTET_SIZE) == 256;
    Value(v, OCTET_SIZE)
  }

  lemma ByteOfOctet(b: byte)
    ensures ByteOf(Octet(b)) == b
  {
    assert Power(2, OCTET_SIZE) == 256;
    ValueOfDigits(b, OCTET_SIZE);
  }

  lemma OctetInjective(a: byte, b: byte)
    requires Octet(a) == Octet(b)
    ensures a == b
  {
    ByteOfOctet(a);
    ByteOfOctet(b);
  }

  lemma OctetOfByte(v: bv8)
    ensures Octet(ByteOf(v)) == v
  {
    assert Fits(v, 8);
    DigitsOfValue(v, OCTET_SIZE);
  }

  /** v has no bit set at position n or above. */
  predicate Fits(v: bv8, n: nat)
    decreases n
  {
    if n == 0 then v == 0 else Fits(v >> 1, n - 1)
  }

  lemma {:induction false} FitsWider(v: bv8, m: nat, n: nat)
    requires m <= n && Fits(v, m)
    ensures Fits(v, n)
    decreases n
  {
    if n != 0 {
      FitsWider(v >> 1, if m == 0 then 0 else m - 1, n - 1);
    }
  }

  lemma FitsSeven(v: bv8)
    requires Fits(v, 7)
    ensures ((v << 1) | 1) >> 1 == v && (v << 1) >> 1 == v
  {
  }

  lemma {:induction false} DigitsFit(b: nat, n: nat)
    requires n <= 8
    ensures Fits(Digits(b, n), n)
    ensures n > 0 ==> Digits(b, n) >> 1 == Digits(b / 2, n - 1)
    decreases n
  {
    if n != 0 {
      DigitsFit(b / 2, n - 1);
      FitsWider(Digits(b / 2, n - 1), n - 1, 7);
      FitsSeven(Digits(b / 2, n - 1));
    }
  }

  lemma LowBit(v: bv8)
    ensures (v << 1) & 1 == 0 && ((v << 1) | 1) & 1 == 1
    ensures v == ((v >> 1) << 1) | (v & 1)
    ensures v & 1 == 0 || v & 1 == 1
  {
  }

  lemma {:induction false} ValueOfDigits(b: nat, n: nat)
    requires b < Power(2, n) && n <= 8
    ensures Value(Digits(b, n), n) == b
    decreases n
  {
    if n != 0 {
      DigitsFit(b, n);
      LowBit(Digits(b / 2, n - 1));
      ValueOfDigits(b / 2, n - 1);
    }
  }

  lemma {:induction false} DigitsOfValue(v: bv8, n: nat)
    requires Fits(v, n)
    ensures Digits(Value(v, n), n) == v
    decreases n
  {
    if n != 0 {
      LowBit(v);
      DigitsOfValue(v >> 1, n - 1);
    }
  }

  function Min(a: nat, b: nat): nat {
    if a < b then a else b
  }

  lemma OneMore(n: int, c: int)
    ensures (n + 1) * c == n * c + c
  {
  }
}
