/**
 * The lowercase hexadecimal encoder of the random-string generator: a table
 * of 256 unsigned 32-bit entries, each packing the two UTF-16 digits of one
 * byte value, and an encoder that fills a char array from it.
 */
module ByteConverter {

  newtype byte = x: int | 0 <= x < 256
  newtype uint32 = x: int | 0 <= x < 0x1_0000_0000

  /** A lowercase hexadecimal digit. */
  predicate IsHexDigit(c: char)
  {
    '0' <= c <= '9' || 'a' <= c <= 'f'
  }

  /** Text made of whole digit pairs. */
  ghost predicate IsHexText(s: string)
  {
    |s| % 2 == 0 && forall k :: 0 <= k < |s| ==> IsHexDigit(s[k])
  }

  /** The lowercase hexadecimal digit of `n`. */
  function HexDigit(n: int): (c: char)
    requires 0 <= n < 16
    ensures IsHexDigit(c)
  {
    if n < 10 then ('0' as int + n) as char else ('a' as int + n - 10) as char
  }

  /** The value of a lowercase hexadecimal digit; the inverse of HexDigit. */
  function DigitValue(c: char): (n: int)
    requires IsHexDigit(c)
    ensures 0 <= n < 16 && HexDigit(n) == c
  {
    if c <= '9' then c as int - '0' as int else c as int - 'a' as int + 10
  }

  /** `i.ToString("x2")` for a byte value: two lowercase digits, zero-padded. */
  function FormatX2(i: int): (s: string)
    requires 0 <= i < 256
  {
    [HexDigit(i / 16), HexDigit(i % 16)]
  }

  /** "x2" pads with a zero: a value below 16 has '0' as its first digit. */
  lemma FormatX2Padded(i: int)
    requires 0 <= i < 256
    ensures |FormatX2(i)| == 2
    ensures i < 16 <==> FormatX2(i)[0] == '0'
    ensures FormatX2(i)[1] == HexDigit(i % 16)
  {
    if FormatX2(i)[0] == '0' {
      assert DigitValue(HexDigit(i / 16)) == i / 16;
    }
  }

  /** Unsigned 32-bit addition and left shift by 16, wrapping as `uint` arithmetic does. */
  function AddU32(a: uint32, b: uint32): uint32
  {
    ((a as int + b as int) % 0x1_0000_0000) as uint32
  }

  function ShiftLeft16(a: uint32): uint32
  {
    ((a as int * 0x10000) % 0x1_0000_0000) as uint32
  }

  /** `(char)v` and `(char)(v >> 16)`: the low and the high 16 bits of `v`. */
  function Low16(v: uint32): int
  {
    v as int % 0x10000
  }

  function High16(v: uint32): int
  {
    (v as int / 0x10000) % 0x10000
  }

  /** Entry `i` of the table: `((uint)s[0]) + ((uint)s[1] << 16)` for `s = i.ToString("x2")`. */
  function LookupEntry(i: int): uint32
    requires 0 <= i < 256
  {
    var s := FormatX2(i);
    AddU32(s[0] as int as uint32, ShiftLeft16(s[1] as int as uint32))
  }

  /** Entry `i` holds the first digit of `i` in its low half and the second in its high half. */
  lemma LookupEntryHalves(i: int)
    requires 0 <= i < 256
    ensures Low16(LookupEntry(i)) == HexDigit(i / 16) as int
    ensures High16(LookupEntry(i)) == HexDigit(i % 16) as int
  {
    var lo, hi := HexDigit(i / 16) as int, HexDigit(i % 16) as int;
    assert ShiftLeft16(hi as uint32) as int == hi * 0x10000;
    assert LookupEntry(i) as int == lo + hi * 0x10000;
  }

  /** The table the encoder reads: 256 entries, each the packed digits of its index. */
  ghost predicate IsLookup32(table: seq<uint32>)
  {
    |table| == 256 && forall i :: 0 <= i < 256 ==> table[i] == LookupEntry(i)
  }

  /** CreateLookup32: fills the 256-entry table, one entry per byte value. */
  method CreateLookup32() returns (table: array<uint32>)
    ensures fresh(table)
    ensures IsLookup32(table[..])
  {
    table := new uint32[256];
    for i := 0 to 256
      invariant forall k :: 0 <= k < i ==> table[k] == LookupEntry(k)
    {
      var s := FormatX2(i);
      table[i] := AddU32(s[0] as int as uint32, ShiftLeft16(s[1] as int as uint32));
    }
  }

  /** The hexadecimal text of `bytes`: the "x2" text of each byte, in order. */
  function HexOf(bytes: seq<byte>): (s: string)
    ensures |s| == 2 * |bytes|
    ensures IsHexText(s)
  {
    if bytes == [] then ""
    else HexOf(bytes[..|bytes| - 1]) + FormatX2(bytes[|bytes| - 1] as int)
  }

  /** Output chars `2i` and `2i + 1` are the high-nibble and the low-nibble digit of byte `i`. */
  lemma {:induction false} HexOfAt(bytes: seq<byte>, i: int)
    requires 0 <= i < |bytes|
    ensures HexOf(bytes)[2 * i] == HexDigit(bytes[i] as int / 16)
    ensures HexOf(bytes)[2 * i + 1] == HexDigit(bytes[i] as int % 16)
  {
    if i < |bytes| - 1 {
      HexOfAt(bytes[..|bytes| - 1], i);
    }
  }

  /** Each byte is encoded on its own: the text of a concatenation is the concatenation of the texts. */
  lemma {:induction false} HexOfConcat(a: seq<byte>, b: seq<byte>)
    ensures HexOf(a + b) == HexOf(a) + HexOf(b)
  {
    if b == [] {
      assert a + b == a;
    } else {
      var b' := b[..|b| - 1];
      assert (a + b)[..|a + b| - 1] == a + b';
      HexOfConcat(a, b');
    }
  }

  /** Reading the text back: two digits per byte, high nibble first. */
  function FromHex(s: string): seq<byte>
    requires IsHexText(s)
  {
    if s == [] then []
    else FromHex(s[..|s| - 2]) + [(DigitValue(s[|s| - 2]) * 16 + DigitValue(s[|s| - 1])) as byte]
  }

  /** A byte is read back from its two digits. */
  lemma DigitsRoundTrip(b: byte)
    ensures (DigitValue(HexDigit(b as int / 16)) * 16 + DigitValue(HexDigit(b as int % 16))) as byte == b
  {
    assert DigitValue(HexDigit(b as int / 16)) == b as int / 16;
    assert DigitValue(HexDigit(b as int % 16)) == b as int % 16;
  }

  /** Reading back text that ends with the digits of `b` ends with `b`. */
  lemma FromHexSnoc(s: string, b: byte)
    requires IsHexText(s)
    ensures FromHex(s + FormatX2(b as int)) == FromHex(s) + [b]
  {
    var u := s + FormatX2(b as int);
    assert IsHexText(u) by {
      assert forall k :: 0 <= k < |s| ==> u[k] == s[k];
    }
    assert u[..|u| - 2] == s;
    assert u[|u| - 2] == HexDigit(b as int / 16) && u[|u| - 1] == HexDigit(b as int % 16);
    var hi, lo := DigitValue(u[|u| - 2]), DigitValue(u[|u| - 1]);
    assert FromHex(u) == FromHex(s) + [(hi * 16 + lo) as byte];
    assert (hi * 16 + lo) as byte == b by {
      DigitsRoundTrip(b);
    }
  }

  /** The encoding loses nothing: the bytes are read back from their text. */
  lemma {:induction false} HexOfRoundTrip(bytes: seq<byte>)
    ensures FromHex(HexOf(bytes)) == bytes
  {
    if bytes != [] {
      var init, last := bytes[..|bytes| - 1], bytes[|bytes| - 1];
      var text := HexOf(init);
      assert HexOf(bytes) == text + FormatX2(last as int);
      assert FromHex(text + FormatX2(last as int)) == init + [last] by {
        HexOfRoundTrip(init);
        FromHexSnoc(text, last);
      }
      assert bytes == init + [last];
    }
  }

  /**
   * ToHex: reads the packed digits of each byte from the table and writes
   * them to positions `2i` and `2i + 1` of a char array twice as long as the
   * input.
   */
  method ToHex(lookup32: array<uint32>, bytes: seq<byte>) returns (s: string)
    requires IsLookup32(lookup32[..])
    ensures s == HexOf(bytes)
  {
    var result := new char[|bytes| * 2];
    for i := 0 to |bytes|
      invariant result[..2 * i] == HexOf(bytes[..i])
    {
      var val := lookup32[bytes[i]];
      assert val == LookupEntry(bytes[i] as int);
      LookupEntryHalves(bytes[i] as int);
      result[2 * i] := Low16(val) as char;
      result[2 * i + 1] := High16(val) as char;
      assert bytes[..i + 1][..i] == bytes[..i];
      assert result[..2 * (i + 1)] == result[..2 * i] + [result[2 * i], result[2 * i + 1]];
    }
    assert bytes[..|bytes|] == bytes;
    s := result[..];
  }
}
