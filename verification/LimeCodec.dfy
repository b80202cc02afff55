/** The hexadecimal codecs of coreapi/lime.c: one nibble, a byte buffer, and a 32-bit session index. */
module LimeCodec {
  import opened Wrappers

  // ---- one character, one nibble

  // The first test of the source starts at 0x2A, not at '0': the characters 0x2A..0x2F wrap around in uint8_t.
  function CharToByte(inputChar: uint8): (b: uint8)
    ensures b < 0x10 || 0xFA <= b
  {
    if 0x29 < inputChar < 0x3A then (inputChar - 0x30) % 0x100
    else if 0x60 < inputChar < 0x67 then inputChar - 0x57
    else if 0x40 < inputChar < 0x47 then inputChar - 0x37
    else 0
  }

  function ByteToChar(inputByte: uint8): (c: uint8)
    ensures IsLowerHex(c)
  {
    var nibble := inputByte % 0x10;
    if nibble < 0x0A then nibble + 0x30 else nibble + 0x57
  }

  predicate IsLowerHex(c: uint8) { 0x30 <= c <= 0x39 || 0x61 <= c <= 0x66 }

  predicate IsLowerHexText(text: Bytes) { forall i :: 0 <= i < |text| ==> IsLowerHex(text[i]) }

  // `hi << 4 | lo` in uint8_t. A low part of 0xFA or more has its four high bits set, so they all win.
  function PackChars(hi: uint8, lo: uint8): uint8 {
    var low := CharToByte(lo);
    if low >= 0x10 then low else CharToByte(hi) % 0x10 * 0x10 + low
  }

  // What each character stands for: upper case is read like lower case, everything that is no digit as 0, except the six
  // characters below '0' that pass the first test.
  lemma CharValues(c: uint8)
    ensures 0x30 <= c <= 0x39 ==> CharToByte(c) == c - 0x30
    ensures 0x61 <= c <= 0x66 ==> CharToByte(c) == c - 0x61 + 10 && CharToByte(c - 0x20) == CharToByte(c)
    ensures 0x2A <= c <= 0x2F ==> CharToByte(c) == 0x100 - (0x30 - c)
    ensures !(0x2A <= c <= 0x39) && !(0x41 <= c <= 0x46) && !(0x61 <= c <= 0x66) ==> CharToByte(c) == 0
  {
  }

  // ---- byte buffers

  function Parse(text: Bytes): (bytes: Bytes)
    ensures |bytes| == |text| / 2
  {
    seq(|text| / 2, i requires 0 <= i < |text| / 2 => PackChars(text[2 * i], text[2 * i + 1]))
  }

  function PrintAt(bytes: Bytes, i: nat): uint8
    requires i < 2 * |bytes|
  {
    if i % 2 == 0 then ByteToChar(bytes[i / 2] / 0x10) else ByteToChar(bytes[i / 2] % 0x10)
  }

  function Print(bytes: Bytes): (text: Bytes)
    ensures |text| == 2 * |bytes|
  {
    seq(2 * |bytes|, i requires 0 <= i < 2 * |bytes| => PrintAt(bytes, i))
  }

  method StrToUint8(outputBytes: array<uint8>, inputString: Bytes, inputStringLength: nat)
    requires inputStringLength <= |inputString|
    requires inputStringLength / 2 <= outputBytes.Length
    modifies outputBytes
    ensures outputBytes[..inputStringLength / 2] == Parse(inputString[..inputStringLength])
    ensures outputBytes[inputStringLength / 2..] == old(outputBytes[inputStringLength / 2..])
  {
    var i := 0;
    while i < inputStringLength / 2
      invariant 0 <= i <= inputStringLength / 2
      invariant outputBytes[..i] == Parse(inputString[..inputStringLength])[..i]
      invariant outputBytes[inputStringLength / 2..] == old(outputBytes[inputStringLength / 2..])
    {
      outputBytes[i] := PackChars(inputString[2 * i], inputString[2 * i + 1]);
      i := i + 1;
    }
  }

  lemma PrintStep(bytes: Bytes, length: nat, i: nat)
    requires i < length <= |bytes|
    ensures Print(bytes[..length])[..2 * (i + 1)]
         == Print(bytes[..length])[..2 * i] + [ByteToChar(bytes[i] / 0x10), ByteToChar(bytes[i] % 0x10)]
  {
    hide ByteToChar;
    var text := Print(bytes[..length]);
    assert text[2 * i] == PrintAt(bytes[..length], 2 * i) && text[2 * i + 1] == PrintAt(bytes[..length], 2 * i + 1);
  }

  method Int8ToStr(outputString: array<uint8>, inputBytes: Bytes, inputBytesLength: nat)
    requires inputBytesLength <= |inputBytes|
    requires 2 * inputBytesLength <= outputString.Length
    modifies outputString
    ensures outputString[..2 * inputBytesLength] == Print(inputBytes[..inputBytesLength])
    ensures outputString[2 * inputBytesLength..] == old(outputString[2 * inputBytesLength..])
  {
    hide Print, ByteToChar;
    var i := 0;
    while i < inputBytesLength
      invariant 0 <= i <= inputBytesLength
      invariant outputString[..2 * i] == Print(inputBytes[..inputBytesLength])[..2 * i]
      invariant outputString[2 * inputBytesLength..] == old(outputString[2 * inputBytesLength..])
    {
      PrintStep(inputBytes, inputBytesLength, i);
      ghost var done := outputString[..2 * i];
      outputString[2 * i] := ByteToChar(inputBytes[i] / 0x10);
      outputString[2 * i + 1] := ByteToChar(inputBytes[i] % 0x10);
      i := i + 1;
      assert outputString[..2 * i] == done + [outputString[2 * i - 2], outputString[2 * i - 1]];
    }
  }

  // A buffer filled by each loop, as the callers use them.
  method ToHex(bytes: Bytes) returns (text: Bytes)
    ensures text == Print(bytes)
  {
    var buffer := new uint8[2 * |bytes|];
    Int8ToStr(buffer, bytes, |bytes|);
    assert bytes[..|bytes|] == bytes;
    text := buffer[..];
  }

  method FromHex(text: Bytes, length: nat) returns (bytes: Bytes)
    requires length <= |text|
    ensures bytes == Parse(text[..length])
  {
    var buffer := new uint8[length / 2];
    StrToUint8(buffer, text, length);
    bytes := buffer[..];
  }

  lemma PackUndoesPrint(b: uint8)
    ensures PackChars(ByteToChar(b / 0x10), ByteToChar(b % 0x10)) == b
  {
    NibbleRoundTrip(b / 0x10);
    NibbleRoundTrip(b % 0x10);
  }

  lemma LowerHexRoundTrip(c: uint8)
    requires IsLowerHex(c)
    ensures CharToByte(c) < 0x10 && ByteToChar(CharToByte(c)) == c
  {
  }

  lemma PrintUndoesPack(hi: uint8, lo: uint8)
    requires IsLowerHex(hi) && IsLowerHex(lo)
    ensures ByteToChar(PackChars(hi, lo) / 0x10) == hi
    ensures ByteToChar(PackChars(hi, lo) % 0x10) == lo
  {
    hide CharToByte, ByteToChar, IsLowerHex;
    LowerHexRoundTrip(hi);
    LowerHexRoundTrip(lo);
    assert PackChars(hi, lo) == CharToByte(hi) * 0x10 + CharToByte(lo);
  }

  lemma PrintPairs(bytes: Bytes, k: nat)
    requires k < |bytes|
    ensures Print(bytes)[2 * k] == ByteToChar(bytes[k] / 0x10)
    ensures Print(bytes)[2 * k + 1] == ByteToChar(bytes[k] % 0x10)
  {
    assert Print(bytes)[2 * k] == PrintAt(bytes, 2 * k);
    assert Print(bytes)[2 * k + 1] == PrintAt(bytes, 2 * k + 1);
  }

  lemma PrintIsLowerHex(bytes: Bytes)
    ensures IsLowerHexText(Print(bytes))
  {
    forall i | 0 <= i < 2 * |bytes|
      ensures IsLowerHex(Print(bytes)[i])
    {
      assert Print(bytes)[i] == PrintAt(bytes, i);
    }
  }

  lemma ParseUndoesPrint(bytes: Bytes)
    ensures Parse(Print(bytes)) == bytes
  {
    forall i | 0 <= i < |bytes|
      ensures Parse(Print(bytes))[i] == bytes[i]
    {
      PrintPairs(bytes, i);
      PackUndoesPrint(bytes[i]);
    }
  }

  // Printing undoes parsing on exactly the texts that printing can produce.
  lemma PrintUndoesParse(text: Bytes)
    ensures Print(Parse(text)) == text <==> |text| % 2 == 0 && IsLowerHexText(text)
  {
    PrintIsLowerHex(Parse(text));
    if |text| % 2 == 0 && IsLowerHexText(text) {
      forall k | 0 <= k < |text| / 2
        ensures Print(Parse(text))[2 * k] == text[2 * k] && Print(Parse(text))[2 * k + 1] == text[2 * k + 1]
      {
        PrintPairs(Parse(text), k);
        PrintUndoesPack(text[2 * k], text[2 * k + 1]);
      }
      forall i | 0 <= i < |text|
        ensures Print(Parse(text))[i] == text[i]
      {
        var k := i / 2;
        assert i == 2 * k || i == 2 * k + 1;
      }
    }
  }

  // ---- the session index: eight nibbles, most significant first

  function IndexHex(index: uint32): (text: Bytes)
    ensures |text| == 8
  {
    [ ByteToChar(index / 0x1000_0000 % 0x10), ByteToChar(index / 0x100_0000 % 0x10),
      ByteToChar(index / 0x10_0000 % 0x10), ByteToChar(index / 0x1_0000 % 0x10),
      ByteToChar(index / 0x1000 % 0x10), ByteToChar(index / 0x100 % 0x10),
      ByteToChar(index / 0x10 % 0x10), ByteToChar(index % 0x10) ]
  }

  function IndexBytes(index: uint32): (bytes: Bytes)
    ensures |bytes| == 4
  {
    [index / 0x100_0000 % 0x100, index / 0x1_0000 % 0x100, index / 0x100 % 0x100, index % 0x100]
  }

  // How the cache reads an index: eight characters to four bytes, then to an integer.
  function IndexFromBuffer(text: Bytes): uint32
    requires |text| >= 8
  {
    var buffer := Parse(text[..8]);
    var b0: int, b1: int, b2: int, b3: int := buffer[0], buffer[1], buffer[2], buffer[3];
    (b3 + b2 * 0x100 + b1 * 0x1_0000 + b0 * 0x100_0000) % 0x1_0000_0000
  }

  // Characters whose value is a nibble: everything except 0x2A..0x2F.
  predicate IsNibbleText(text: Bytes) { forall i :: 0 <= i < |text| ==> CharToByte(text[i]) < 0x10 }

  // How a message part's index is read: nibble by nibble.
  function IndexFromNibbles(text: Bytes): uint32
    requires |text| >= 8 && IsNibbleText(text)
  {
    CharToByte(text[0]) * 0x1000_0000 + CharToByte(text[1]) * 0x100_0000
    + CharToByte(text[2]) * 0x10_0000 + CharToByte(text[3]) * 0x1_0000
    + CharToByte(text[4]) * 0x1000 + CharToByte(text[5]) * 0x100
    + CharToByte(text[6]) * 0x10 + CharToByte(text[7])
  }

  /** The number that a text denotes in base 16. */
  function HexValue(text: Bytes): nat
    requires IsNibbleText(text)
  {
    if text == [] then 0 else HexValue(text[..|text| - 1]) * 0x10 + CharToByte(text[|text| - 1])
  }

  // The first eight characters are read as a hexadecimal number, most significant first.
  lemma IndexIsHexNumber(text: Bytes)
    requires |text| >= 8 && IsNibbleText(text)
    ensures IndexFromNibbles(text) == HexValue(text[..8])
  {
    hide CharToByte;
    var t := text[..8];
    assert t[..7][..6] == t[..6] && t[..6][..5] == t[..5] && t[..5][..4] == t[..4] && t[..4][..3] == t[..3];
    assert t[..3][..2] == t[..2] && t[..2][..1] == t[..1] && t[..1][..0] == [];
    assert HexValue(t[..1]) == CharToByte(t[0]);
    assert HexValue(t[..2]) == HexValue(t[..1]) * 0x10 + CharToByte(t[1]);
    assert HexValue(t[..3]) == HexValue(t[..2]) * 0x10 + CharToByte(t[2]);
    assert HexValue(t[..4]) == HexValue(t[..3]) * 0x10 + CharToByte(t[3]);
    assert HexValue(t[..5]) == HexValue(t[..4]) * 0x10 + CharToByte(t[4]);
    assert HexValue(t[..6]) == HexValue(t[..5]) * 0x10 + CharToByte(t[5]);
    assert HexValue(t[..7]) == HexValue(t[..6]) * 0x10 + CharToByte(t[6]);
  }

  // Both parsers agree on every text, whatever the case of its letters.
  lemma IndexReadersAgree(text: Bytes)
    requires |text| >= 8 && IsNibbleText(text)
    ensures IndexFromBuffer(text) == IndexFromNibbles(text)
  {
    hide CharToByte, PackChars;
    PackNibbles(text[0], text[1]);
    PackNibbles(text[2], text[3]);
    PackNibbles(text[4], text[5]);
    PackNibbles(text[6], text[7]);
    assert Parse(text[..8]) == [PackChars(text[0], text[1]), PackChars(text[2], text[3]),
                                PackChars(text[4], text[5]), PackChars(text[6], text[7])];
  }

  lemma PackNibbles(hi: uint8, lo: uint8)
    requires CharToByte(hi) < 0x10 && CharToByte(lo) < 0x10
    ensures PackChars(hi, lo) == CharToByte(hi) * 0x10 + CharToByte(lo)
  {
  }

  lemma NibbleRoundTrip(n: uint8)
    requires n < 0x10
    ensures CharToByte(ByteToChar(n)) == n
  {
  }

  lemma MulMonotone(a: int, b: int, c: int)
    requires 0 < c && a < b
    ensures a * c + c <= b * c
    decreases b - a
  {
    if a + 1 < b { MulMonotone(a, b - 1, c); }
  }

  lemma DivUnique(x: int, q: int, r: int, c: int)
    requires 0 < c && 0 <= r < c && x == q * c + r
    ensures x / c == q
  {
    var q' := x / c;
    assert q' * c <= x < q' * c + c;
    if q' < q { MulMonotone(q', q, c); }
    if q < q' { MulMonotone(q, q', c); }
  }

  // The four bytes, most significant first, determine the index.
  lemma IndexBytesDecode(index: uint32)
    ensures var b := IndexBytes(index);
            (b[0] as int) * 0x100_0000 + (b[1] as int) * 0x1_0000 + (b[2] as int) * 0x100 + b[3] as int == index
  {
    var q1, b3 := index / 0x100, index % 0x100;
    var q2, b2 := q1 / 0x100, q1 % 0x100;
    var b0, b1 := q2 / 0x100, q2 % 0x100;
    DivUnique(index, q2, 0x100 * b2 + b3, 0x1_0000);
    DivUnique(index, b0, index - b0 * 0x100_0000, 0x100_0000);
    assert b0 % 0x100 == b0;
  }

  // The printer and both parsers agree on every 32-bit index.
  lemma IndexRoundTrip(index: uint32)
    ensures IsNibbleText(IndexHex(index))
    ensures IndexFromNibbles(IndexHex(index)) == index
    ensures IndexFromBuffer(IndexHex(index)) == index
  {
    // peel the digits off one at a time
    var q1, d0 := index / 0x10, index % 0x10;
    var q2, d1 := q1 / 0x10, q1 % 0x10;
    var q3, d2 := q2 / 0x10, q2 % 0x10;
    var q4, d3 := q3 / 0x10, q3 % 0x10;
    var q5, d4 := q4 / 0x10, q4 % 0x10;
    var q6, d5 := q5 / 0x10, q5 % 0x10;
    var d7, d6 := q6 / 0x10, q6 % 0x10;
    DivUnique(index, q2, 0x10 * d1 + d0, 0x100);
    DivUnique(index, q3, 0x100 * d2 + 0x10 * d1 + d0, 0x1000);
    DivUnique(index, q4, index - q4 * 0x1_0000, 0x1_0000);
    DivUnique(index, q5, index - q5 * 0x10_0000, 0x10_0000);
    DivUnique(index, q6, index - q6 * 0x100_0000, 0x100_0000);
    DivUnique(index, d7, index - d7 * 0x1000_0000, 0x1000_0000);
    assert d7 % 0x10 == d7;
    forall n: uint8 | n < 0x10 ensures CharToByte(ByteToChar(n)) == n { NibbleRoundTrip(n); }
    var text := IndexHex(index);
    assert text == [ByteToChar(d7), ByteToChar(d6), ByteToChar(d5), ByteToChar(d4),
                    ByteToChar(d3), ByteToChar(d2), ByteToChar(d1), ByteToChar(d0)];
    IndexReadersAgree(text);
  }
}
