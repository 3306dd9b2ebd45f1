/**
  The templates `print_bin<T>` and `print_hex<T>` for integer `T`: the object's
  `sizeof(T)` bytes, lowest address first, are handed to the buffer printer.  On a
  little-endian machine that prints the value's bit pattern most significant byte
  first.
*/
module ValueDump {
  import opened Arith
  import opened Digits
  import opened Dump
  import opened Storage

  /** What the template prints for `x` held in an object of type `t`. */
  function RenderValue(t: IntType, x: int, f: Format): (s: string)
    requires ByteExact(f) && ValidType(t) && InRange(t, x)
    ensures |s| == Times(t.size, Width(f)) + 1
    ensures s[|s| - 1] == '\n'
  {
    RenderLength(Bytes(t, x), t.size, f);
    Render(Bytes(t, x), t.size, f)
  }

  /** The `n * p` characters of `s` cut into `n` pieces of `p`, each followed by a space. */
  function Chunked(s: string, p: nat, n: nat): (r: string)
    requires |s| == Times(n, p)
    ensures |r| == Times(n, p + 1)
    decreases n
  {
    if n == 0 then ""
    else
      var c := Times(n - 1, p);
      Chunked(s[..c], p, n - 1) + s[c..] + " "
  }

  /**
    Printing the little-endian bytes of a number `u` of `n` bytes shows the
    `n * precision`-digit numeral of `u`, cut into groups of `precision` digits.
  */
  lemma {:induction false} GroupsLittleEndian(u: nat, n: nat, f: Format)
    requires ByteExact(f) && u < Pow(256, n)
    ensures Groups(LittleEndian(u, n), n - 1, f) == Chunked(Fixed(u, f.base, Times(n, f.precision)), f.precision, n)
    decreases n
  {
    var b, p := f.base, f.precision;
    if n > 0 {
      var w := Times(n - 1, p);
      assert Times(n, p) == w + p;
      PowMul(b, p, n);
      SplitLowByte(u, b, w, p);
      DivBelow(u, 256, Pow(256, n - 1));
      GroupsLittleEndian(u / 256, n - 1, f);
      var lo := u % 256;
      var rest := LittleEndian(u / 256, n - 1);
      assert LittleEndian(u, n) == [lo] + rest;
      GroupsCons(lo, rest, n - 1, f);
      var digits := Fixed(u, b, w + p);
      assert digits[..w] == Fixed(u / 256, b, w);
      assert digits[w..] == Fixed(lo, b, p);
    }
  }

  /**
    The template prints the whole `8 * sizeof(T)`-bit pattern of the value (in the
    format's digits), most significant digit first, cut into one group per byte.
  */
  lemma RenderValuePattern(t: IntType, x: int, f: Format)
    requires ByteExact(f) && ValidType(t) && InRange(t, x)
    ensures RenderValue(t, x, f)
      == Chunked(Fixed(Pattern(t, x), f.base, Times(t.size, f.precision)), f.precision, t.size) + "\n"
  {
    GroupsLittleEndian(Pattern(t, x), t.size, f);
  }

  /**
    A signed `-1` prints as the largest digit of the base in every digit position
    (`1` in binary, `f` in hexadecimal), with a space closing each group.
  */
  lemma RenderValueMinusOne(t: IntType, f: Format, k: nat, r: nat)
    requires ByteExact(f) && ValidType(t) && t.signed && k < t.size && r < Width(f)
    ensures InRange(t, -1)
    ensures Times(k, Width(f)) + r < |RenderValue(t, -1, f)| - 1
    ensures RenderValue(t, -1, f)[Times(k, Width(f)) + r] == if r == f.precision then ' ' else DigitChar(f.base - 1)
  {
    BytesMinusOne(t);
    var start := Bytes(t, -1);
    RenderAt(start, t.size, f, k, r);
    FixedAllMax(f.base, f.precision);
  }

  /**
    Reading the printed groups back and storing them in reverse (lowest address
    first) gives the bytes of the value, which hold the value again.
  */
  lemma DecodeRenderValue(t: IntType, x: int, f: Format)
    requires ByteExact(f) && ValidType(t) && InRange(t, x)
    ensures Decode(RenderValue(t, x, f), f).Some?
    ensures var shown := Decode(RenderValue(t, x, f), f).value;
      |shown| == t.size && Reverse(shown) == Bytes(t, x) && ValueOf(t, Reverse(shown)) == x
  {
    var bs := Bytes(t, x);
    DecodeRender(bs, t.size, f);
    assert bs[..t.size] == bs;
    ReverseReverse(bs);
    ValueOfBytes(t, x);
  }
}
