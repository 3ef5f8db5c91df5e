/** Fixed-size fields of command payloads (libnitrokey/misc.h) and decimal counters in them. */
module Fields {
  import opened Bytes
  import opened Text
  import opened Usb

  // ---------- strcpyT ----------

  const FIELD_WIDTH_MAX: nat := 100

  function CharBytes(s: CString): (b: seq<byte>)
    ensures |b| == |s| && 0 !in b
  {
    seq(|s|, i requires 0 <= i < |s| => s[i] as int)
  }

  /** The text cut to size, or padded with zeros to it. */
  function Padded(text: seq<byte>, size: nat): (field: seq<byte>)
    ensures |field| == size
  {
    if |text| >= size then text[..size] else text + Fill(size - |text|)
  }

  function MeasuredLength(s: CString): nat {
    if |s| < FIELD_WIDTH_MAX then |s| else FIELD_WIDTH_MAX
  }

  /** What a cleared field of this size holds after strcpyT; None when it throws TooLongStringException. */
  function Field(src: Option<CString>, size: nat): (field: Option<seq<byte>>)
    ensures field.Some? ==> |field.value| == size
  {
    match src
    case None => Some(Fill(size))
    case Some(s) => if MeasuredLength(s) > size then None else Some(Padded(CharBytes(s), size))
  }

  /** strcpyT: a null source leaves the field alone. */
  method StrcpyT(dest: array<byte>, src: Option<CString>) returns (fits: bool)
    modifies dest
    ensures fits == (src == None || MeasuredLength(src.value) <= dest.Length)
    ensures dest[..] == if fits && src.Some? then Padded(CharBytes(src.value), dest.Length) else old(dest[..])
  {
    if src == None {
      return true;
    }
    var s := src.value;
    if MeasuredLength(s) > dest.Length {
      return false;
    }
    for i := 0 to dest.Length
      invariant forall k :: 0 <= k < i ==> dest[k] == Padded(CharBytes(s), dest.Length)[k]
    {
      dest[i] := if i < |s| then s[i] as int else 0;
    }
    return true;
  }

  /** A cleared field, filled by strcpyT. */
  method MakeField(src: Option<CString>, size: nat) returns (field: Option<seq<byte>>)
    ensures field == Field(src, size)
  {
    var dest := new byte[size](_ => 0);
    assert dest[..] == Fill(size);
    var fits := StrcpyT(dest, src);
    return if fits then Some(dest[..]) else None;
  }

  /** vector_copy and vector_copy_ranged: the elements, then zeros; None when there are too many. */
  function Copied(data: seq<byte>, size: nat): (field: Option<seq<byte>>)
    ensures field.Some? <==> |data| <= size
    ensures field.Some? ==> |field.value| == size
  {
    if |data| > size then None else Some(data + Fill(size - |data|))
  }

  /** A text shorter than the field is what stands before the first zero. */
  lemma FieldReadsBack(s: CString, size: nat)
    requires |s| <= size <= FIELD_WIDTH_MAX
    ensures var f := Field(Some(s), size);
            f.Some? && f.value[..|s|] == CharBytes(s) && forall i :: |s| <= i < size ==> f.value[i] == 0
  {
  }

  // ---------- Decimal counters ----------

  const ZERO: byte := 48

  /** to_string */
  function Decimal(n: nat): (s: seq<byte>)
    ensures |s| > 0
  {
    if n < 10 then [ZERO + n] else Decimal(n / 10) + [ZERO + n % 10]
  }

  predicate IsDigit(b: byte) {
    ZERO <= b < ZERO + 10
  }

  predicate IsSpace(b: byte) {
    b == 32 || 9 <= b <= 13
  }

  predicate IsSign(b: byte) {
    b == '+' as int || b == '-' as int
  }

  function DigitsAt(s: seq<byte>): (n: nat)
    ensures n <= |s| && (forall i :: 0 <= i < n ==> IsDigit(s[i])) && (n < |s| ==> !IsDigit(s[n]))
  {
    if s == [] || !IsDigit(s[0]) then 0 else 1 + DigitsAt(s[1..])
  }

  function Number(digits: seq<byte>): nat
    requires forall i :: 0 <= i < |digits| ==> IsDigit(digits[i])
  {
    if digits == [] then 0
    else
      var last := digits[|digits| - 1];
      assert IsDigit(last);
      10 * Number(digits[..|digits| - 1]) + (last - ZERO)
  }

  const U64: nat := 0x1_0000_0000_0000_0000

  /** stoull of at most eight characters; None when it throws std::invalid_argument. */
  function Stoull(s: seq<byte>): Option<nat>
    requires |s| <= 8
  {
    if s != [] && IsSpace(s[0]) then Stoull(s[1..])
    else
      var signed := s != [] && IsSign(s[0]);
      var rest := if signed then s[1..] else s;
      var n := DigitsAt(rest);
      if n == 0 then None
      else if signed && s[0] == '-' as int then Some((U64 - Number(rest[..n]) % U64) % U64)
      else Some(Number(rest[..n]))
  }

  /** Spaces up to i, then a sign if j is not i itself, then a digit. */
  predicate IsNumberAt(s: seq<byte>, i: nat, j: nat) {
    && i <= j < |s| && j <= i + 1
    && (forall k :: 0 <= k < i ==> IsSpace(s[k]))
    && (i < j ==> IsSign(s[i]))
    && IsDigit(s[j])
  }

  ghost predicate StartsWithNumber(s: seq<byte>) {
    exists i: nat, j: nat :: IsNumberAt(s, i, j)
  }

  /** stoull throws exactly on a text without a digit after leading spaces and at most one sign. */
  lemma {:induction false} StoullThrowsIff(s: seq<byte>)
    requires |s| <= 8
    ensures Stoull(s) == None <==> !StartsWithNumber(s)
  {
    if s != [] && IsSpace(s[0]) {
      StoullThrowsIff(s[1..]);
      if i: nat, j: nat :| IsNumberAt(s, i, j) {
        assert i > 0;
        assert IsNumberAt(s[1..], i - 1, j - 1);
      }
      if i: nat, j: nat :| IsNumberAt(s[1..], i, j) {
        assert IsNumberAt(s, i + 1, j + 1);
      }
    } else {
      if s != [] && IsDigit(s[0]) {
        assert IsNumberAt(s, 0, 0);
      } else if |s| > 1 && IsSign(s[0]) && IsDigit(s[1]) {
        assert IsNumberAt(s, 0, 1);
      }
      if i: nat, j: nat :| IsNumberAt(s, i, j) {
        assert i == 0;
      }
    }
  }

  /** Otherwise it is the number its digits denote, up to the first character that is none, or 2^64 less that. */
  lemma {:induction false} StoullIs(s: seq<byte>, i: nat, j: nat)
    requires |s| <= 8 && IsNumberAt(s, i, j)
    ensures var n := Number(s[j..][..DigitsAt(s[j..])]);
            Stoull(s) == Some(if i < j && s[i] == '-' as int && n > 0 then U64 - n else n)
    decreases i
  {
    hide Number, DigitsAt;
    if i > 0 {
      assert IsNumberAt(s[1..], i - 1, j - 1) by {
        assert forall k :: 0 <= k < i - 1 ==> s[1..][k] == s[k + 1];
      }
      assert s[1..][j - 1..] == s[j..];
      StoullIs(s[1..], i - 1, j - 1);
    } else {
      assert s[0..] == s;
      var rest := s[j..];
      DigitsBegin(rest);
      SmallNumber(rest[..DigitsAt(rest)]);
    }
  }

  lemma DigitsBegin(s: seq<byte>)
    requires s != [] && IsDigit(s[0])
    ensures DigitsAt(s) > 0
  {
  }

  lemma {:induction false} SmallNumber(digits: seq<byte>)
    requires |digits| <= 8 && forall i :: 0 <= i < |digits| ==> IsDigit(digits[i])
    ensures Number(digits) < U64
  {
    NumberBound(digits);
    PowerMonotone(|digits|, 8);
    assert Power(10, 8) == 100_000_000;
  }

  lemma {:induction false} NumberBound(digits: seq<byte>)
    requires forall i :: 0 <= i < |digits| ==> IsDigit(digits[i])
    ensures Number(digits) < Power(10, |digits|)
  {
    if digits != [] {
      NumberBound(digits[..|digits| - 1]);
      assert IsDigit(digits[|digits| - 1]);
    }
  }

  lemma {:induction false} PowerMonotone(m: nat, n: nat)
    requires m <= n
    ensures Power(10, m) <= Power(10, n)
    decreases n
  {
    PowerPositive(n);
    if m < n {
      PowerMonotone(m, n - 1);
      PowerPositive(n - 1);
    }
  }

  /** For instance on the counter of a slot that has been erased to zeros. */
  lemma StoullThrowsOnZeros()
    ensures Stoull(Fill(8)) == None
  {
  }

  /** Digits are printed most significant first, without leading zeros. */
  lemma DecimalAppends(n: nat, digit: nat)
    requires digit < 10
    ensures Decimal(digit) == ["0123456789"[digit] as int]
    ensures n > 0 ==> Decimal(10 * n + digit) == Decimal(n) + Decimal(digit)
  {
  }

  lemma {:induction false} DecimalDigits(n: nat)
    ensures forall i :: 0 <= i < |Decimal(n)| ==> IsDigit(Decimal(n)[i])
    ensures Number(Decimal(n)) == n
  {
    if n >= 10 {
      DecimalDigits(n / 10);
      assert Decimal(n)[..|Decimal(n)| - 1] == Decimal(n / 10);
    } else {
      assert Decimal(n)[..0] == [];
    }
  }

  /** A number has at most k digits exactly when it is below the k-th power of ten. */
  lemma {:induction false} DecimalLength(n: nat, k: nat)
    requires k > 0
    ensures |Decimal(n)| <= k <==> n < Power(10, k)
  {
    assert Power(10, k) == 10 * Power(10, k - 1);
    if k == 1 {
      assert Power(10, 0) == 1;
    } else {
      assert Power(10, k - 1) == 10 * Power(10, k - 2);
      PowerPositive(k - 2);
      if n >= 10 {
        DecimalLength(n / 10, k - 1);
      }
    }
  }

  lemma {:induction false} PowerPositive(k: nat)
    ensures Power(10, k) > 0
  {
    if k > 0 {
      PowerPositive(k - 1);
    }
  }

  lemma {:induction false} DigitsThenZero(s: seq<byte>, rest: seq<byte>)
    requires forall i :: 0 <= i < |s| ==> IsDigit(s[i])
    requires rest == [] || !IsDigit(rest[0])
    ensures DigitsAt(s + rest) == |s|
  {
    if s == [] {
      assert s + rest == rest;
    } else {
      DigitsThenZero(s[1..], rest);
      assert (s + rest)[1..] == s[1..] + rest;
    }
  }

  /** Printing a counter into an eight-byte field and reading the field gives it back. */
  lemma CounterTextRoundTrip(n: nat)
    requires |Decimal(n)| <= 8
    ensures Stoull(Padded(Decimal(n), 8)) == Some(n)
  {
    hide Number, DigitsAt, Decimal;
    var d := Decimal(n);
    DecimalDigits(n);
    var rest := Fill(8 - |d|);
    DigitsThenZero(d, rest);
    assert Padded(d, 8) == d + rest;
    assert (d + rest)[..|d|] == d;
    assert IsDigit((d + rest)[0]);
  }
}
