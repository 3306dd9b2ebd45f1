/**
  `print_bytes` and `print_hex<T>`: each byte printed with the directive `"%.2x "`,
  the hexadecimal conversion with precision 2 (lower-case letters), last byte of
  the buffer first.
*/
module PrintHex {
  import opened Wrappers
  import opened Arith
  import opened Digits
  import opened Dump
  import opened Storage
  import opened ValueDump
  import PrintBin

  /** The directive `"%.2x "`. */
  const Hex: Format := Format(16, 2)

  /** Two hexadecimal digits hold exactly one byte. */
  lemma HexExact()
    ensures ByteExact(Hex)
  {
  }

  /**
    `print_bytes(start, len)`: `len` groups of two hexadecimal digits and a space,
    then a line break; only the line break when `len <= 0`.
  */
  function PrintBytes(start: seq<Byte>, len: int): (s: string)
    requires len <= |start|
    ensures |s| == 3 * (if len <= 0 then 0 else len) + 1
    ensures s[|s| - 1] == '\n'
    ensures len <= 0 ==> s == "\n"
  {
    HexExact();
    RenderLength(start, len, Hex);
    assert Width(Hex) == 3;
    TimesIsMul(if len <= 0 then 0 else len, 3);
    Render(start, len, Hex)
  }

  /**
    Group `k` from the left (characters `3k` to `3k + 2`) is the 2-digit hexadecimal
    numeral of `start[len - 1 - k]` followed by a space.
  */
  lemma PrintBytesGroup(start: seq<Byte>, len: int, k: nat)
    requires len <= |start| && k < len
    ensures 3 * k + 3 <= |PrintBytes(start, len)|
    ensures PrintBytes(start, len)[3 * k .. 3 * k + 2] == Fixed(start[len - 1 - k], 16, 2)
    ensures PrintBytes(start, len)[3 * k + 2] == ' '
  {
    var s, v := Render(start, len, Hex), start[len - 1 - k];
    assert 3 * k + 3 <= |s| && s[3 * k .. 3 * k + 2] == Fixed(v, 16, 2) && s[3 * k + 2] == ' ' by {
      assert Width(Hex) == 3 && Hex.base == 16 && Hex.precision == 2;
      TimesIsMul(k, 3);
      RenderGroup(start, len, Hex, k, 3 * k);
    }
    assert PrintBytes(start, len) == s;
  }

  /** Group `k` reads back, in base 16, as the byte `start[len - 1 - k]` it shows. */
  lemma PrintBytesGroupValue(start: seq<Byte>, len: int, k: nat)
    requires len <= |start| && k < len
    ensures 3 * k + 3 <= |PrintBytes(start, len)|
    ensures Parse(PrintBytes(start, len)[3 * k .. 3 * k + 2], 16) == Some(start[len - 1 - k] as nat)
  {
    HexExact();
    PrintBytesGroup(start, len, k);
    ParseFixed(start[len - 1 - k], 16, 2);
  }

  /** Character `j` before the line break: a space when it closes a group, a digit of the base otherwise. */
  lemma PrintBytesAt(start: seq<Byte>, len: int, j: nat)
    requires len <= |start| && j < |PrintBytes(start, len)| - 1
    ensures var c := PrintBytes(start, len)[j];
      if j % 3 == 2 then c == ' ' else '0' <= c <= '9' || 'a' <= c <= 'f'
  {
    HexExact();
    assert Width(Hex) == 3;
    RowColumn(j, 3, len);
    RenderDigitAt(start, len, Hex, j / 3, j % 3);
    HexDigit(PrintBytes(start, len)[j]);
  }

  /**
    Apart from the final line break, the output holds only `0`-`9`, lower-case
    `a`-`f` and spaces, a space being exactly every third character.
  */
  lemma PrintBytesAlphabet(start: seq<Byte>, len: int)
    requires len <= |start|
    ensures var s := PrintBytes(start, len);
      forall j :: 0 <= j < |s| - 1 ==>
        if j % 3 == 2 then s[j] == ' ' else '0' <= s[j] <= '9' || 'a' <= s[j] <= 'f'
  {
    HexExact();
    forall j | 0 <= j < |PrintBytes(start, len)| - 1 {
      PrintBytesAt(start, len, j);
    }
  }

  /** Reads the output of `print_bytes` back: the bytes in the order printed, or None. */
  function ReadBytes(s: string): (r: Option<seq<Byte>>)
    ensures r.Some? ==> |s| == 3 * |r.value| + 1
  {
    HexExact();
    var r := Decode(s, Hex);
    assert Width(Hex) == 3;
    if r.Some? then TimesIsMul(|r.value|, 3); r else r
  }

  /** Reading the output back gives the first `len` bytes of the buffer, reversed; nothing when `len <= 0`. */
  lemma ReadPrintBytes(start: seq<Byte>, len: int)
    requires len <= |start|
    ensures ReadBytes(PrintBytes(start, len)) == Some(if len <= 0 then [] else Reverse(start[..len]))
  {
    HexExact();
    if len > 0 {
      DecodeRender(start, len, Hex);
    }
  }

  /** ReadBytes accepts exactly the outputs of `print_bytes`: printing what it read reproduces the text. */
  lemma PrintReadBytes(s: string)
    requires ReadBytes(s).Some?
    ensures var shown := ReadBytes(s).value; PrintBytes(Reverse(shown), |shown|) == s
  {
    HexExact();
    RenderDecode(s, Hex);
  }

  /** For the same buffer, hexadecimal group `k` and binary group `k` denote the same byte. */
  lemma HexAgreesWithBits(start: seq<Byte>, len: int, k: nat)
    requires len <= |start| && k < len
    ensures 3 * k + 3 <= |PrintBytes(start, len)| && 9 * k + 9 <= |PrintBin.PrintBits(start, len)|
    ensures Parse(PrintBytes(start, len)[3 * k .. 3 * k + 2], 16)
         == Parse(PrintBin.PrintBits(start, len)[9 * k .. 9 * k + 8], 2)
  {
    PrintBytesGroupValue(start, len, k);
    PrintBin.PrintBitsGroupValue(start, len, k);
  }

  /** `print_hex<T>(x)` for an integer type `T`. */
  function PrintHexadecimal(t: IntType, x: int): (s: string)
    requires ValidType(t) && InRange(t, x)
    ensures |s| == 3 * t.size + 1
  {
    PrintBytes(Bytes(t, x), t.size)
  }

  /**
    `print_hex` shows the `2 * sizeof(T)`-digit hexadecimal form of the two's-complement
    pattern of `x`, most significant digit first, cut into groups of two.
  */
  lemma PrintHexadecimalPattern(t: IntType, x: int)
    requires ValidType(t) && InRange(t, x)
    ensures Times(t.size, 2) == 2 * t.size
    ensures PrintHexadecimal(t, x) == Chunked(Fixed(Pattern(t, x), 16, 2 * t.size), 2, t.size) + "\n"
  {
    HexExact();
    TimesIsMul(t.size, 2);
    RenderValuePattern(t, x, Hex);
  }

  /** Character `j` of the output for a signed `-1`, before the line break. */
  lemma PrintHexadecimalMinusOneAt(t: IntType, j: nat)
    requires ValidType(t) && t.signed
    ensures InRange(t, -1)
    ensures j < |PrintHexadecimal(t, -1)| - 1 ==> PrintHexadecimal(t, -1)[j] == if j % 3 == 2 then ' ' else 'f'
  {
    HexExact();
    BytesMinusOne(t);
    if j < |PrintHexadecimal(t, -1)| - 1 {
      assert Width(Hex) == 3 && DigitChar(Hex.base - 1) == 'f';
      RowColumn(j, 3, t.size);
      RenderValueMinusOne(t, Hex, j / 3, j % 3);
    }
  }

  /** `print_hex` of a signed `-1` is `ff` in every group: `ff ... ff`. */
  lemma PrintHexadecimalMinusOne(t: IntType)
    requires ValidType(t) && t.signed
    ensures InRange(t, -1)
    ensures var s := PrintHexadecimal(t, -1);
      forall j :: 0 <= j < |s| - 1 ==> s[j] == if j % 3 == 2 then ' ' else 'f'
  {
    HexExact();
    BytesMinusOne(t);
    forall j | 0 <= j < |PrintHexadecimal(t, -1)| - 1 {
      PrintHexadecimalMinusOneAt(t, j);
    }
  }

  /** The digits `print_hex` shows determine the value: reading them back recovers `x`. */
  lemma PrintHexadecimalRecoversValue(t: IntType, x: int)
    requires ValidType(t) && InRange(t, x)
    ensures ReadBytes(PrintHexadecimal(t, x)).Some?
    ensures ValueOf(t, Reverse(ReadBytes(PrintHexadecimal(t, x)).value)) == x
  {
    HexExact();
    DecodeRenderValue(t, x, Hex);
  }
}
