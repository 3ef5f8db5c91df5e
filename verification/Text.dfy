/** Hexadecimal text: hex_string_to_byte and hexdump (misc.cc), toHex (libnitrokey/misc.h). */
module Text {
  import opened Bytes

  /** A zero-terminated string of 8-bit characters, without its terminator. */
  type CString = s: string | forall i :: 0 <= i < |s| ==> 0 < s[i] as int < 256

  // ---------- Digits ----------

  predicate IsHexDigit(c: char) {
    '0' <= c <= '9' || 'A' <= c <= 'F' || 'a' <= c <= 'f'
  }

  function HexValue(c: char): (v: nat)
    requires IsHexDigit(c)
    ensures v < 16
  {
    if c <= '9' then c as int - '0' as int
    else if c <= 'F' then c as int - 'A' as int + 10
    else c as int - 'a' as int + 10
  }

  function HexDigit(v: nat): (c: char)
    requires v < 16
    ensures IsHexDigit(c) && HexValue(c) == v
  {
    if v < 10 then '0' + v as char else 'a' + (v - 10) as char
  }

  function UpperHexDigit(v: nat): (c: char)
    requires v < 16
    ensures IsHexDigit(c) && HexValue(c) == v
  {
    if v < 10 then '0' + v as char else 'A' + (v - 10) as char
  }

  lemma DigitsInOrder(v: nat)
    requires v < 16
    ensures HexDigit(v) == "0123456789abcdef"[v] && UpperHexDigit(v) == "0123456789ABCDEF"[v]
  {
  }

  lemma OnlyTwoDigits(c: char)
    requires IsHexDigit(c)
    ensures c == HexDigit(HexValue(c)) || c == UpperHexDigit(HexValue(c))
  {
  }

  // ---------- hex_string_to_byte ----------

  datatype Decoded = Decoded(data: seq<byte>) | InvalidHexString(invalidChar: byte)

  const BIG_STRING_SIZE: nat := 257

  function PairValue(high: char, low: char): byte
    requires IsHexDigit(high) && IsHexDigit(low)
  {
    16 * HexValue(high) + HexValue(low)
  }

  /** The octets the first 2n digits of s denote. */
  function Pairs(s: string, n: nat): (data: seq<byte>)
    requires 2 * n <= |s| && forall i :: 0 <= i < 2 * n ==> IsHexDigit(s[i])
    ensures |data| == n
  {
    if n == 0 then [] else Pairs(s, n - 1) + [PairValue(s[2 * n - 2], s[2 * n - 1])]
  }

  /** The position of the first character that is not a hexadecimal digit. */
  function FirstInvalid(s: string): (i: nat)
    ensures i <= |s| && (forall k :: 0 <= k < i ==> IsHexDigit(s[k])) && (i < |s| ==> !IsHexDigit(s[i]))
  {
    if s == "" then 0
    else
      var init := s[..|s| - 1];
      var i := FirstInvalid(init);
      if i < |init| || !IsHexDigit(s[|s| - 1]) then i else |s|
  }

  function DecodeHex(s: CString): Decoded {
    if |s| % 2 != 0 || |s| >= BIG_STRING_SIZE then InvalidHexString(0)
    else
      var i := FirstInvalid(s);
      if i < |s| then InvalidHexString(s[i] as int) else Decoded(Pairs(s, |s| / 2))
  }

  method HexStringToByte(hexString: CString) returns (r: Decoded)
    ensures r == DecodeHex(hexString)
  {
    var size := if |hexString| < BIG_STRING_SIZE then |hexString| else BIG_STRING_SIZE;
    if size % 2 != 0 || size >= BIG_STRING_SIZE {
      return InvalidHexString(0);
    }
    var data: seq<byte> := [];
    var buf := ['0', '0'];
    for i := 0 to size
      invariant forall k :: 0 <= k < i ==> IsHexDigit(hexString[k])
      invariant |buf| == 2 && (i % 2 == 1 ==> buf[0] == hexString[i - 1])
      invariant data == Pairs(hexString, i / 2)
    {
      var c := hexString[i];
      if !IsHexDigit(c) {
        return InvalidHexString(c as int);
      }
      buf := buf[i % 2 := c];
      if i % 2 == 1 {
        data := data + [PairValue(buf[0], buf[1])];
      }
    }
    return Decoded(data);
  }

  /** s spells data with two digits for each octet, each digit in either case. */
  predicate Spells(s: string, data: seq<byte>) {
    && |s| == 2 * |data|
    && forall i :: 0 <= i < |data| ==>
         && s[2 * i] in {HexDigit(data[i] / 16), UpperHexDigit(data[i] / 16)}
         && s[2 * i + 1] in {HexDigit(data[i] % 16), UpperHexDigit(data[i] % 16)}
  }

  lemma {:induction false} PairsAt(s: string, n: nat, i: nat)
    requires 2 * n <= |s| && forall k :: 0 <= k < 2 * n ==> IsHexDigit(s[k])
    requires i < n
    ensures Pairs(s, n)[i] == PairValue(s[2 * i], s[2 * i + 1])
  {
    if i < n - 1 {
      PairsAt(s, n - 1, i);
    }
  }

  /** Decoding succeeds exactly on strings of even length below 257 made of hexadecimal digits. */
  lemma DecodesIff(s: CString)
    ensures DecodeHex(s).Decoded? <==>
            |s| % 2 == 0 && |s| < BIG_STRING_SIZE && forall i :: 0 <= i < |s| ==> IsHexDigit(s[i])
  {
    var i := FirstInvalid(s);
    if i < |s| {
      assert !IsHexDigit(s[i]);
    }
  }

  /** Decoding inverts spelling in either case, and nothing else is accepted. */
  lemma DecodesExactlySpellings(s: CString, data: seq<byte>)
    ensures DecodeHex(s) == Decoded(data) <==> |data| <= 128 && Spells(s, data)
  {
    DecodesIff(s);
    if DecodeHex(s) == Decoded(data) {
      PairsSpelled(s, |data|);
    }
    if |data| <= 128 && Spells(s, data) {
      SpellingPairs(s, data);
    }
  }

  lemma PairsSpelled(s: string, n: nat)
    requires |s| == 2 * n && forall i :: 0 <= i < |s| ==> IsHexDigit(s[i])
    ensures Spells(s, Pairs(s, n))
  {
    hide Pairs, HexValue, HexDigit, UpperHexDigit;
    var data := Pairs(s, n);
    forall i | 0 <= i < n ensures
      && s[2 * i] in {HexDigit(data[i] / 16), UpperHexDigit(data[i] / 16)}
      && s[2 * i + 1] in {HexDigit(data[i] % 16), UpperHexDigit(data[i] % 16)}
    {
      PairsAt(s, n, i);
      OnlyTwoDigits(s[2 * i]);
      OnlyTwoDigits(s[2 * i + 1]);
    }
  }

  lemma SpellingPairs(s: string, data: seq<byte>)
    requires Spells(s, data)
    ensures forall i :: 0 <= i < |s| ==> IsHexDigit(s[i])
    ensures Pairs(s, |data|) == data
  {
    hide Pairs, HexValue, HexDigit, UpperHexDigit;
    forall k | 0 <= k < |s| ensures IsHexDigit(s[k]) {
      var i := k / 2;
      var b := data[i];
      assert s[2 * i] in {HexDigit(b / 16), UpperHexDigit(b / 16)};
      assert s[2 * i + 1] in {HexDigit(b % 16), UpperHexDigit(b % 16)};
      assert k == 2 * i || k == 2 * i + 1;
    }
    forall i | 0 <= i < |data| ensures Pairs(s, |data|)[i] == data[i] {
      PairsAt(s, |data|, i);
    }
  }

  // ---------- toHex and %x ----------

  /** Hexadecimal digits of v without leading zeros. */
  function HexNumber(v: nat): (s: string)
    ensures |s| > 0 && forall i :: 0 <= i < |s| ==> IsHexDigit(s[i])
  {
    if v < 16 then [HexDigit(v)] else HexNumber(v / 16) + [HexDigit(v % 16)]
  }

  function Repeat(c: char, n: nat): (s: string)
    ensures |s| == n && forall i :: 0 <= i < n ==> s[i] == c
  {
    seq(n, _ => c)
  }

  /** setw and setfill('0'): at least width digits. */
  function PaddedHex(v: nat, width: nat): (s: string)
    ensures |s| >= width && forall i :: 0 <= i < |s| ==> IsHexDigit(s[i])
  {
    var s := HexNumber(v);
    if |s| < width then Repeat('0', width - |s|) + s else s
  }

  /** toHex of a 32-bit value. */
  function ToHex(v: nat): (s: CString) {
    PaddedHex(v, 8)
  }

  /** The low `width` hexadecimal digits of v, most significant first. */
  function LowDigits(v: nat, width: nat): (s: string)
    ensures |s| == width
  {
    if width == 0 then "" else LowDigits(v / 16, width - 1) + [HexDigit(v % 16)]
  }

  lemma {:induction false} PaddedIsLowDigits(v: nat, width: nat)
    requires v < Power(16, width) && width > 0
    ensures PaddedHex(v, width) == LowDigits(v, width)
  {
    if width == 1 {
      assert Power(16, 0) == 1;
      assert LowDigits(v / 16, 0) == "";
    } else {
      PaddedIsLowDigits(v / 16, width - 1);
      if v < 16 {
        assert PaddedHex(v / 16, width - 1) == Repeat('0', width - 1);
      } else {
        assert PaddedHex(v, width) == PaddedHex(v / 16, width - 1) + [HexDigit(v % 16)];
      }
    }
  }

  function Reversed(s: seq<byte>): (r: seq<byte>)
    ensures |r| == |s|
  {
    if s == [] then [] else Reversed(s[1..]) + [s[0]]
  }

  function BigEndian(v: nat, size: nat): seq<byte> {
    Reversed(ToLittleEndian(v, size))
  }

  lemma {:induction false} LowDigitsSpell(v: nat, size: nat)
    ensures Spells(LowDigits(v, 2 * size), BigEndian(v, size))
    decreases size
  {
    if size > 0 {
      LowDigitsSpell(v / 256, size - 1);
      var s, rest := LowDigits(v, 2 * size), LowDigits(v / 256, 2 * size - 2);
      var data, init := BigEndian(v, size), BigEndian(v / 256, size - 1);
      assert ToLittleEndian(v, size)[1..] == ToLittleEndian(v / 256, size - 1);
      assert data == init + [v % 256];
      assert v / 16 / 16 == v / 256 && v / 16 % 16 == v % 256 / 16 && v % 16 == v % 256 % 16;
      assert s == LowDigits(v / 16, 2 * size - 1) + [HexDigit(v % 16)];
      assert LowDigits(v / 16, 2 * size - 1) == LowDigits(v / 16 / 16, 2 * size - 2) + [HexDigit(v / 16 % 16)];
      hide LowDigits, HexDigit, UpperHexDigit;
      forall i | 0 <= i < |data| ensures
        && s[2 * i] in {HexDigit(data[i] / 16), UpperHexDigit(data[i] / 16)}
        && s[2 * i + 1] in {HexDigit(data[i] % 16), UpperHexDigit(data[i] % 16)}
      {
        if i < |init| {
          assert data[i] == init[i] && s[2 * i] == rest[2 * i] && s[2 * i + 1] == rest[2 * i + 1];
        }
      }
    }
  }

  /** toHex of a 32-bit value decodes to its octets, most significant first. */
  lemma ToHexDecodes(v: nat)
    requires v < Power(256, 4)
    ensures |ToHex(v)| == 8 && DecodeHex(ToHex(v)) == Decoded(BigEndian(v, 4))
  {
    assert Power(16, 8) == Power(256, 4);
    PaddedIsLowDigits(v, 8);
    LowDigitsSpell(v, 4);
    DecodesExactlySpellings(ToHex(v), BigEndian(v, 4));
  }

  lemma {:induction false} ReversedInjective(s: seq<byte>, t: seq<byte>)
    requires Reversed(s) == Reversed(t)
    ensures s == t
  {
    assert |Reversed(s)| == |s| && |Reversed(t)| == |t|;
    if s != [] {
      var u := Reversed(s);
      assert u[..|s| - 1] == Reversed(s[1..]) && u[..|t| - 1] == Reversed(t[1..]);
      assert s[0] == u[|s| - 1] == t[0];
      ReversedInjective(s[1..], t[1..]);
    }
  }

  lemma ToHexInjective(v: nat, w: nat)
    requires v < Power(256, 4) && w < Power(256, 4) && ToHex(v) == ToHex(w)
    ensures v == w
  {
    ToHexDecodes(v);
    ToHexDecodes(w);
    ReversedInjective(ToLittleEndian(v, 4), ToLittleEndian(w, 4));
    LittleEndianRoundTrip(v, 4);
    LittleEndianRoundTrip(w, 4);
  }

  // ---------- hexdump ----------

  datatype Style = Style(header: bool, ascii: bool, empty: bool)

  const ROW: nat := 16

  function Header(style: Style, offset: nat): string {
    if style.header then PaddedHex(offset, 4) + "\t" else ""
  }

  function Cell(b: byte): string {
    PaddedHex(b, 2) + " "
  }

  function Cells(data: seq<byte>): string {
    if data == [] then "" else Cells(data[..|data| - 1]) + Cell(data[|data| - 1])
  }

  function Blanks(style: Style, n: nat): string {
    if !style.empty || n == 0 then "" else Blanks(style, n - 1) + "-- "
  }

  function Graphic(b: byte): char {
    if 33 <= b <= 126 then b as char else '.'
  }

  function Ascii(data: seq<byte>): (s: string)
    ensures |s| == |data| && forall i :: 0 <= i < |s| ==> s[i] == Graphic(data[i])
  {
    seq(|data|, i requires 0 <= i < |data| => Graphic(data[i]))
  }

  function RowText(style: Style, offset: nat, data: seq<byte>): string
    requires |data| <= ROW
  {
    Header(style, offset) + Cells(data) + Blanks(style, ROW - |data|) + (if style.ascii then "  " + Ascii(data) else "")
  }

  function RowSize(n: nat): nat {
    if n < ROW then n else ROW
  }

  function Dump(style: Style, offset: nat, data: seq<byte>): string
    decreases |data|
  {
    if data == [] then ""
    else
      var n := RowSize(|data|);
      RowText(style, offset, data[..n]) + "\n" + Dump(style, offset + ROW, data[n..])
  }

  lemma Associates(a: string, b: string, c: string)
    ensures a + b + c == a + (b + c)
  {
  }

  /** The rows of a dump from position p on. */
  function Rest(style: Style, data: seq<byte>, p: nat): string {
    if p < |data| then Dump(style, p, data[p..]) else ""
  }

  lemma RestStep(style: Style, data: seq<byte>, p: nat)
    requires p < |data|
    ensures var n := RowSize(|data| - p);
            Rest(style, data, p) == RowText(style, p, data[p..p + n]) + "\n" + Rest(style, data, p + ROW)
  {
    hide RowText;
    var n := RowSize(|data| - p);
    assert data[p..][..n] == data[p..p + n];
    assert data[p..][n..] == data[p + n..];
    assert Rest(style, data, p) == RowText(style, p, data[p..p + n]) + "\n" + Dump(style, p + ROW, data[p + n..]);
    if p + ROW < |data| {
      assert p + n == p + ROW;
    } else {
      assert data[p + n..] == [];
    }
  }

  /** One turn of hexdump's loop: the row that begins at start. */
  method HexdumpRow(data: seq<byte>, start: nat, style: Style) returns (row: string, p: nat)
    requires start < |data|
    ensures p == start + ROW
    ensures row == RowText(style, start, data[start..start + RowSize(|data| - start)])
  {
    hide Cell, PaddedHex, Cells, Blanks;
    row := "";
    if style.header {
      row := PaddedHex(start, 4) + "\t";
    }
    assert row == Header(style, start);
    row, p := AppendCells(data, start, style, row);
    if style.ascii {
      var ascii := AsciiColumn(data, start);
      row := row + ascii;
    }
  }

  method AsciiColumn(data: seq<byte>, start: nat) returns (out: string)
    requires start < |data|
    ensures out == "  " + Ascii(data[start..start + RowSize(|data| - start)])
  {
    out := "  ";
    var pp := start;
    while pp < start + ROW && pp < |data|
      invariant start <= pp <= start + RowSize(|data| - start)
      invariant out == "  " + Ascii(data[start..pp])
    {
      out := out + [Graphic(data[pp])];
      pp := pp + 1;
    }
  }

  method AppendCells(data: seq<byte>, start: nat, style: Style, front: string) returns (out: string, p: nat)
    requires start < |data|
    ensures p == start + ROW
    ensures var n := RowSize(|data| - start);
            out == front + Cells(data[start..start + n]) + Blanks(style, ROW - n)
  {
    hide Cell, PaddedHex;
    var end := |data|;
    out, p := front, start;
    while p < start + ROW
      invariant start <= p <= start + ROW
      invariant p <= end ==> out == front + Cells(data[start..p])
      invariant p >= end ==> out == front + Cells(data[start..end]) + Blanks(style, p - end)
    {
      if p < end {
        out := out + Cell(data[p]);
        assert data[start..p + 1][..p - start] == data[start..p];
      } else if style.empty {
        out := out + "-- ";
      }
      p := p + 1;
    }
  }

  method Hexdump(data: seq<byte>, printHeader: bool, printAscii: bool, printEmpty: bool) returns (out: string)
    ensures out == Dump(Style(printHeader, printAscii, printEmpty), 0, data)
  {
    var style := Style(printHeader, printAscii, printEmpty);
    out := "";
    var p := 0;
    assert data[0..] == data;
    assert Rest(style, data, 0) == Dump(style, 0, data);
    hide RowText, Dump, Rest;
    while p < |data|
      invariant out + Rest(style, data, p) == Dump(style, 0, data)
    {
      RestStep(style, data, p);
      var row;
      ghost var before := out;
      row, p := HexdumpRow(data, p, style);
      out := out + row + "\n";
      Associates(before, row, "\n");
      Associates(before, row + "\n", Rest(style, data, p));
    }
    assert Rest(style, data, p) == "" by { RestEnds(style, data, p); }
  }

  lemma RestEnds(style: Style, data: seq<byte>, p: nat)
    requires p >= |data|
    ensures Rest(style, data, p) == ""
  {
  }

  /** The end of the first line. */
  function LineEnd(text: string): (n: nat)
    ensures n <= |text| && '\n' !in text[..n] && (n < |text| ==> text[n] == '\n')
  {
    if text == "" || text[0] == '\n' then 0
    else
      var n := LineEnd(text[1..]);
      assert text[..n + 1] == [text[0]] + text[1..][..n];
      n + 1
  }

  /** What follows the first tab. */
  function AfterTab(line: string): string {
    if line == "" then "" else if line[0] == '\t' then line[1..] else AfterTab(line[1..])
  }

  /** The octets at the beginning of a line, up to the first cell that is not one. */
  function ParseCells(line: string): seq<byte> {
    if |line| < 3 || !IsHexDigit(line[0]) || !IsHexDigit(line[1]) || line[2] != ' ' then []
    else [PairValue(line[0], line[1])] + ParseCells(line[3..])
  }

  /** Reads a dump back, line by line. */
  function Parse(header: bool, text: string): seq<byte>
    decreases |text|
  {
    if text == "" then []
    else
      var n := LineEnd(text);
      var line := if header then AfterTab(text[..n]) else text[..n];
      ParseCells(line) + (if n < |text| then Parse(header, text[n + 1..]) else [])
  }

  function Lines(text: string): nat {
    if text == "" then 0 else (if text[0] == '\n' then 1 else 0) + Lines(text[1..])
  }

  lemma {:induction false} CellsFromFront(data: seq<byte>)
    requires data != []
    ensures Cells(data) == Cell(data[0]) + Cells(data[1..])
  {
    hide Cell;
    if |data| == 1 {
      assert data[..0] == [];
    } else {
      var init := data[..|data| - 1];
      CellsFromFront(init);
      assert data[1..][..|data| - 2] == init[1..];
    }
  }

  lemma {:induction false} CellsParse(data: seq<byte>, rest: string)
    requires rest == "" || !IsHexDigit(rest[0])
    ensures ParseCells(Cells(data) + rest) == data
  {
    hide Cell, PairValue, HexDigit;
    if data == [] {
      assert Cells(data) + rest == rest;
    } else {
      hide Cells, ParseCells;
      CellsFromFront(data);
      CellsParse(data[1..], rest);
      CellDigits(data[0]);
      Associates(Cell(data[0]), Cells(data[1..]), rest);
      CellFirst(Cell(data[0]), Cells(data[1..]) + rest);
    }
  }

  lemma CellFirst(cell: string, rest: string)
    requires |cell| == 3 && IsHexDigit(cell[0]) && IsHexDigit(cell[1]) && cell[2] == ' '
    ensures ParseCells(cell + rest) == [PairValue(cell[0], cell[1])] + ParseCells(rest)
  {
    assert (cell + rest)[3..] == rest;
  }

  lemma CellDigits(b: byte)
    ensures var c := Cell(b);
            |c| == 3 && IsHexDigit(c[0]) && IsHexDigit(c[1]) && c[2] == ' ' && PairValue(c[0], c[1]) == b
  {
    assert Power(16, 1) == 16;
    PaddedIsLowDigits(b, 2);
    assert LowDigits(b / 16 / 16, 0) == "";
    assert Cell(b) == [HexDigit(b / 16), HexDigit(b % 16), ' '];
  }

  lemma {:induction false} BlanksBegin(style: Style, n: nat)
    ensures Blanks(style, n) == "" || Blanks(style, n)[0] == '-'
    ensures '\n' !in Blanks(style, n)
  {
    if n > 0 {
      BlanksBegin(style, n - 1);
    }
  }

  lemma {:induction false} CellsOneLine(data: seq<byte>)
    ensures '\n' !in Cells(data)
  {
    if data != [] {
      hide Cell;
      CellsOneLine(data[..|data| - 1]);
      CellDigits(data[|data| - 1]);
    }
  }

  lemma {:induction false} AfterTabSkips(digits: string, rest: string)
    requires '\t' !in digits
    ensures AfterTab(digits + "\t" + rest) == rest
  {
    var line := digits + "\t" + rest;
    if digits == "" {
      assert line[1..] == rest;
    } else {
      AfterTabSkips(digits[1..], rest);
      assert line[1..] == digits[1..] + "\t" + rest;
    }
  }

  /** What follows the cells of a row. */
  function Tail(style: Style, data: seq<byte>): (s: string)
    requires |data| <= ROW
    ensures '\n' !in s && (s == "" || !IsHexDigit(s[0]))
  {
    BlanksBegin(style, ROW - |data|);
    Blanks(style, ROW - |data|) + (if style.ascii then "  " + Ascii(data) else "")
  }

  lemma RowParses(style: Style, offset: nat, data: seq<byte>)
    requires |data| <= ROW
    ensures var line := RowText(style, offset, data);
            && '\n' !in line
            && ParseCells(if style.header then AfterTab(line) else line) == data
  {
    var line, tail := RowText(style, offset, data), Tail(style, data);
    Associates(Header(style, offset), Cells(data), Blanks(style, ROW - |data|));
    Associates(Header(style, offset), Cells(data) + Blanks(style, ROW - |data|),
               if style.ascii then "  " + Ascii(data) else "");
    Associates(Cells(data), Blanks(style, ROW - |data|), if style.ascii then "  " + Ascii(data) else "");
    assert line == Header(style, offset) + (Cells(data) + tail) by { hide Cells, Blanks, Header, Ascii; }
    hide RowText, Tail, Cells, Blanks, ParseCells, PaddedHex, AfterTab, Ascii;
    CellsOneLine(data);
    CellsParse(data, tail);
    if style.header {
      AfterTabSkips(PaddedHex(offset, 4), Cells(data) + tail);
      assert line == PaddedHex(offset, 4) + "\t" + (Cells(data) + tail);
    } else {
      assert line == Cells(data) + tail;
    }
  }

  lemma {:induction false} FirstLine(line: string, rest: string)
    requires '\n' !in line
    ensures var text := line + "\n" + rest;
            LineEnd(text) == |line| && text[..|line|] == line && text[|line| + 1..] == rest
  {
    var text := line + "\n" + rest;
    if line != "" {
      FirstLine(line[1..], rest);
      assert text[1..] == line[1..] + "\n" + rest;
    }
  }

  lemma {:induction false} LinesAppend(line: string, rest: string)
    requires '\n' !in line
    ensures Lines(line + "\n" + rest) == 1 + Lines(rest)
  {
    var text := line + "\n" + rest;
    if line == "" {
      assert text[1..] == rest;
    } else {
      LinesAppend(line[1..], rest);
      assert text[1..] == line[1..] + "\n" + rest;
    }
  }

  /** Whatever the style, the cells of a dump give back the data, in one line for every sixteen octets begun. */
  lemma {:induction false} DumpParses(style: Style, offset: nat, data: seq<byte>)
    ensures Parse(style.header, Dump(style, offset, data)) == data
    ensures Lines(Dump(style, offset, data)) == (|data| + 15) / 16
    decreases |data|
  {
    hide LineEnd, RowText, ParseCells, AfterTab, Lines;
    if data == [] {
      EmptyText(style, offset);
    } else {
      var n := RowSize(|data|);
      var line, rest := RowText(style, offset, data[..n]), Dump(style, offset + ROW, data[n..]);
      RowParses(style, offset, data[..n]);
      FirstLine(line, rest);
      LinesAppend(line, rest);
      DumpParses(style, offset + ROW, data[n..]);
      assert data[..n] + data[n..] == data;
    }
  }

  lemma EmptyText(style: Style, offset: nat)
    ensures Parse(style.header, Dump(style, offset, [])) == [] && Lines(Dump(style, offset, [])) == 0
  {
  }

  /** Two different buffers never have the same dump. */
  lemma DumpInjective(style: Style, a: seq<byte>, b: seq<byte>)
    requires Dump(style, 0, a) == Dump(style, 0, b)
    ensures a == b
  {
    DumpParses(style, 0, a);
    DumpParses(style, 0, b);
  }

  // ---------- What a dump shows ----------

  /** Line number k, without its end. */
  function LineAt(text: string, k: nat): string
    decreases k
  {
    var n := LineEnd(text);
    if k == 0 then text[..n] else if n == |text| then "" else LineAt(text[n + 1..], k - 1)
  }

  lemma LineAtStep(line: string, rest: string, k: nat)
    requires '\n' !in line
    ensures LineAt(line + "\n" + rest, k) == if k == 0 then line else LineAt(rest, k - 1)
  {
    FirstLine(line, rest);
    hide LineEnd;
  }

  lemma DumpStep(style: Style, offset: nat, data: seq<byte>)
    requires data != []
    ensures var n := RowSize(|data|);
            Dump(style, offset, data) == RowText(style, offset, data[..n]) + "\n" + Dump(style, offset + ROW, data[n..])
  {
  }

  lemma SliceOfRest(data: seq<byte>, n: nat, from: nat, m: nat)
    requires n + from + m <= |data|
    ensures data[n..][from..from + m] == data[n + from..n + from + m]
  {
  }

  /** Every line is a row of sixteen octets, the last one possibly of fewer, with its offset. */
  lemma {:induction false} DumpRows(style: Style, offset: nat, data: seq<byte>, k: nat)
    requires ROW * k < |data|
    ensures var n := RowSize(|data| - ROW * k);
            LineAt(Dump(style, offset, data), k) == RowText(style, offset + ROW * k, data[ROW * k..ROW * k + n])
    decreases k
  {
    hide LineAt, RowText, ParseCells, AfterTab, Dump;
    var n := RowSize(|data|);
    var line, rest := RowText(style, offset, data[..n]), Dump(style, offset + ROW, data[n..]);
    RowParses(style, offset, data[..n]);
    DumpStep(style, offset, data);
    LineAtStep(line, rest, k);
    if k > 0 {
      DumpRows(style, offset + ROW, data[n..], k - 1);
      SliceOfRest(data, n, ROW * (k - 1), RowSize(|data| - ROW * k));
    }
  }

  lemma {:induction false} CellsLength(data: seq<byte>)
    ensures |Cells(data)| == 3 * |data|
  {
    if data != [] {
      hide Cell;
      CellsLength(data[..|data| - 1]);
      CellDigits(data[|data| - 1]);
    }
  }

  lemma {:induction false} BlanksAre(style: Style, n: nat)
    ensures |Blanks(style, n)| == if style.empty then 3 * n else 0
    ensures forall i :: 0 <= i < |Blanks(style, n)| ==> Blanks(style, n)[i] == "-- "[i % 3]
  {
    if n > 0 {
      BlanksAre(style, n - 1);
    }
  }

  /** The four digits of an offset below 65536 before the tab. */
  lemma HeaderShows(offset: nat)
    requires offset < Power(256, 2)
    ensures var digits := PaddedHex(offset, 4);
            |digits| == 4 && DecodeHex(digits) == Decoded(BigEndian(offset, 2))
  {
    assert Power(16, 4) == Power(256, 2);
    PaddedIsLowDigits(offset, 4);
    LowDigitsSpell(offset, 2);
    DecodesExactlySpellings(PaddedHex(offset, 4), BigEndian(offset, 2));
  }

  lemma FourParts(a: string, b: string, c: string, d: string)
    ensures var line := a + b + c + d;
            && |line| == |a| + |b| + |c| + |d|
            && (forall i :: 0 <= i < |a| ==> line[i] == a[i])
            && (forall i :: 0 <= i < |c| ==> line[|a| + |b| + i] == c[i])
            && (forall i :: 0 <= i < |d| ==> line[|a| + |b| + |c| + i] == d[i])
  {
  }

  function HeaderSize(style: Style): nat {
    if style.header then 5 else 0
  }

  function BlanksSize(style: Style, n: nat): nat
    requires n <= ROW
  {
    if style.empty then 3 * (ROW - n) else 0
  }

  /** A row shows its offset before a tab, then its cells, dashes for the missing ones, and its octets as characters. */
  lemma RowShows(style: Style, offset: nat, data: seq<byte>)
    requires |data| <= ROW && offset < Power(256, 2)
    ensures var line, h, b := RowText(style, offset, data), HeaderSize(style), BlanksSize(style, |data|);
            && |line| == h + 3 * |data| + b + (if style.ascii then 2 + |data| else 0)
            && (forall i :: 0 <= i < h ==> line[i] == (PaddedHex(offset, 4) + "\t")[i])
            && (forall i :: 0 <= i < b ==> line[h + 3 * |data| + i] == "-- "[i % 3])
            && (style.ascii ==> forall i :: 0 <= i < 2 + |data| ==> line[h + 3 * |data| + b + i] == ("  " + Ascii(data))[i])
  {
    HeaderShows(offset);
    CellsLength(data);
    BlanksAre(style, ROW - |data|);
    hide Cells, Blanks, PaddedHex, DecodeHex, BigEndian, Ascii, Power;
    FourParts(Header(style, offset), Cells(data), Blanks(style, ROW - |data|),
              if style.ascii then "  " + Ascii(data) else "");
  }

  /** A printable character other than the space stands for itself, everything else for a dot. */
  lemma Printable(data: seq<byte>, i: nat)
    requires i < |data|
    ensures 33 <= data[i] <= 126 ==> Ascii(data)[i] as int == data[i]
    ensures !(33 <= data[i] <= 126) ==> Ascii(data)[i] == '.'
  {
  }
}
