/**
  `print_bits` and `print_bin<T>`: each byte printed with the directive `"%.8b "`,
  the C23 binary conversion with precision 8, last byte of the buffer first.
*/
module PrintBin {
  import opened Wrappers
  import opened Arith
  import opened Digits
  import opened Dump
  import opened Storage
  import opened ValueDump

  /** The directive `"%.8b "`. */
  const Bits: Format := Format(2, 8)

  /** Eight binary digits hold exactly one byte. */
  lemma BitsExact()
    ensures ByteExact(Bits)
  {
    assert Pow(2, 4) == 16;
  }

  /**
    `print_bits(start, len)`: `len` groups of eight binary digits and a space, then
    a line break; only the line break when `len <= 0`.
  */
  function PrintBits(start: seq<Byte>, len: int): (s: string)
    requires len <= |start|
    ensures |s| == 9 * (if len <= 0 then 0 else len) + 1
    ensures s[|s| - 1] == '\n'
    ensures len <= 0 ==> s == "\n"
  {
    BitsExact();
    RenderLength(start, len, Bits);
    assert Width(Bits) == 9;
    TimesIsMul(if len <= 0 then 0 else len, 9);
    Render(start, len, Bits)
  }

  /**
    Group `k` from the left (characters `9k` to `9k + 8`) is the 8-digit binary
    numeral of `start[len - 1 - k]` followed by a space.
  */
  lemma PrintBitsGroup(start: seq<Byte>, len: int, k: nat)
    requires len <= |start| && k < len
    ensures 9 * k + 9 <= |PrintBits(start, len)|
    ensures PrintBits(start, len)[9 * k .. 9 * k + 8] == Fixed(start[len - 1 - k], 2, 8)
    ensures PrintBits(start, len)[9 * k + 8] == ' '
  {
    var s, v := Render(start, len, Bits), start[len - 1 - k];
    assert 9 * k + 9 <= |s| && s[9 * k .. 9 * k + 8] == Fixed(v, 2, 8) && s[9 * k + 8] == ' ' by {
      assert Width(Bits) == 9 && Bits.base == 2 && Bits.precision == 8;
      TimesIsMul(k, 9);
      RenderGroup(start, len, Bits, k, 9 * k);
    }
    assert PrintBits(start, len) == s;
  }

  /** Group `k` reads back, in base 2, as the byte `start[len - 1 - k]` it shows. */
  lemma PrintBitsGroupValue(start: seq<Byte>, len: int, k: nat)
    requires len <= |start| && k < len
    ensures 9 * k + 9 <= |PrintBits(start, len)|
    ensures Parse(PrintBits(start, len)[9 * k .. 9 * k + 8], 2) == Some(start[len - 1 - k] as nat)
  {
    BitsExact();
    PrintBitsGroup(start, len, k);
    ParseFixed(start[len - 1 - k], 2, 8);
  }

  /** Character `j` before the line break: a space when it closes a group, a digit of the base otherwise. */
  lemma PrintBitsAt(start: seq<Byte>, len: int, j: nat)
    requires len <= |start| && j < |PrintBits(start, len)| - 1
    ensures var c := PrintBits(start, len)[j];
      if j % 9 == 8 then c == ' ' else c == '0' || c == '1'
  {
    BitsExact();
    assert Width(Bits) == 9;
    RowColumn(j, 9, len);
    RenderDigitAt(start, len, Bits, j / 9, j % 9);
    BinaryDigit(PrintBits(start, len)[j]);
  }

  /**
    Apart from the final line break, the output holds only `0`, `1` and spaces, a
    space being exactly every ninth character: after each group, the last one too.
  */
  lemma PrintBitsAlphabet(start: seq<Byte>, len: int)
    requires len <= |start|
    ensures var s := PrintBits(start, len);
      forall j :: 0 <= j < |s| - 1 ==>
        if j % 9 == 8 then s[j] == ' ' else s[j] == '0' || s[j] == '1'
  {
    BitsExact();
    forall j | 0 <= j < |PrintBits(start, len)| - 1 {
      PrintBitsAt(start, len, j);
    }
  }

  /** Reads the output of `print_bits` back: the bytes in the order printed, or None. */
  function ReadBits(s: string): (r: Option<seq<Byte>>)
    ensures r.Some? ==> |s| == 9 * |r.value| + 1
  {
    BitsExact();
    var r := Decode(s, Bits);
    assert Width(Bits) == 9;
    if r.Some? then TimesIsMul(|r.value|, 9); r else r
  }

  /** Reading the output back gives the first `len` bytes of the buffer, reversed; nothing when `len <= 0`. */
  lemma ReadPrintBits(start: seq<Byte>, len: int)
    requires len <= |start|
    ensures ReadBits(PrintBits(start, len)) == Some(if len <= 0 then [] else Reverse(start[..len]))
  {
    BitsExact();
    if len > 0 {
      DecodeRender(start, len, Bits);
    }
  }

  /** ReadBits accepts exactly the outputs of `print_bits`: printing what it read reproduces the text. */
  lemma PrintReadBits(s: string)
    requires ReadBits(s).Some?
    ensures var shown := ReadBits(s).value; PrintBits(Reverse(shown), |shown|) == s
  {
    BitsExact();
    RenderDecode(s, Bits);
  }

  /** `print_bin<T>(x)` for an integer type `T`. */
  function PrintBinary(t: IntType, x: int): (s: string)
    requires ValidType(t) && InRange(t, x)
    ensures |s| == 9 * t.size + 1
  {
    PrintBits(Bytes(t, x), t.size)
  }

  /**
    `print_bin` shows the `8 * sizeof(T)`-bit two's-complement pattern of `x`, most
    significant bit first, cut into groups of eight.
  */
  lemma PrintBinaryPattern(t: IntType, x: int)
    requires ValidType(t) && InRange(t, x)
    ensures Times(t.size, 8) == 8 * t.size
    ensures PrintBinary(t, x) == Chunked(Fixed(Pattern(t, x), 2, 8 * t.size), 8, t.size) + "\n"
  {
    BitsExact();
    TimesIsMul(t.size, 8);
    RenderValuePattern(t, x, Bits);
  }

  /** Character `j` of the output for a signed `-1`, before the line break. */
  lemma PrintBinaryMinusOneAt(t: IntType, j: nat)
    requires ValidType(t) && t.signed
    ensures InRange(t, -1)
    ensures j < |PrintBinary(t, -1)| - 1 ==> PrintBinary(t, -1)[j] == if j % 9 == 8 then ' ' else '1'
  {
    BitsExact();
    BytesMinusOne(t);
    if j < |PrintBinary(t, -1)| - 1 {
      assert Width(Bits) == 9 && DigitChar(Bits.base - 1) == '1';
      RowColumn(j, 9, t.size);
      RenderValueMinusOne(t, Bits, j / 9, j % 9);
    }
  }

  /** `print_bin` of a signed `-1` is all ones: `11111111 ... 11111111`. */
  lemma PrintBinaryMinusOne(t: IntType)
    requires ValidType(t) && t.signed
    ensures InRange(t, -1)
    ensures var s := PrintBinary(t, -1);
      forall j :: 0 <= j < |s| - 1 ==> s[j] == if j % 9 == 8 then ' ' else '1'
  {
    BitsExact();
    BytesMinusOne(t);
    forall j | 0 <= j < |PrintBinary(t, -1)| - 1 {
      PrintBinaryMinusOneAt(t, j);
    }
  }

  /** The digits `print_bin` shows determine the value: reading them back recovers `x`. */
  lemma PrintBinaryRecoversValue(t: IntType, x: int)
    requires ValidType(t) && InRange(t, x)
    ensures ReadBits(PrintBinary(t, x)).Some?
    ensures ValueOf(t, Reverse(ReadBits(PrintBinary(t, x)).value)) == x
  {
    BitsExact();
    DecodeRenderValue(t, x, Bits);
  }
}
