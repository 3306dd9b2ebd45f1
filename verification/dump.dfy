/**
  The loop shared by `print_bits` and `print_bytes`: walk a byte buffer from
  index `len - 1` down to index 0, print each byte with one printf directive
  (`"%.8b "` or `"%.2x "`), then print a line break.  Output is returned as a
  string instead of being written to standard output.
*/
module Dump {
  import opened Wrappers
  import opened Arith
  import opened Digits

  /** An `unsigned char`: the argument printf receives is the byte promoted to `int`, so 0..255. */
  type Byte = x: int | 0 <= x < 256

  /** The directive `"%.<precision><conversion> "`: a numeral base and a precision. */
  datatype Format = Format(base: nat, precision: nat)

  /** Every byte value needs at most `precision` digits and some needs all of them. */
  predicate ByteExact(f: Format) {
    ValidBase(f.base) && Pow(f.base, f.precision) == 256
  }

  /** Characters printed per byte: the digits and the space after them. */
  function Width(f: Format): nat {
    f.precision + 1
  }

  /**
    What one iteration prints for byte `v`: all `precision` digits, since printf's
    conversion of a byte with this precision is exactly that wide (see RenderLoop).
  */
  function Group(v: Byte, f: Format): (s: string)
    requires ValidBase(f.base)
    ensures |s| == Width(f) && s[f.precision] == ' '
  {
    Fixed(v, f.base, f.precision) + " "
  }

  /**
    What iterations `i`, `i - 1`, ..., `0` of the loop print: `i + 1` groups of
    `Width(f)` characters each, and nothing when `i < 0`.
  */
  function Groups(start: seq<Byte>, i: int, f: Format): (s: string)
    requires ValidBase(f.base) && i < |start|
    ensures |s| == if i < 0 then 0 else Times(i + 1, Width(f))
    decreases if i < 0 then 0 else i + 1
  {
    if i < 0 then "" else Group(start[i], f) + Groups(start, i - 1, f)
  }

  /**
    The whole output for buffer `start` and C `int` length `len`.  The buffer must
    hold at least `len` bytes; a length of zero or less prints only the line break.
  */
  function Render(start: seq<Byte>, len: int, f: Format): (s: string)
    requires ValidBase(f.base) && len <= |start|
    ensures |s| > 0 && s[|s| - 1] == '\n'
    ensures len <= 0 ==> s == "\n"
  {
    Groups(start, len - 1, f) + "\n"
  }

  /** The loop of `print_bits` / `print_bytes` as written: `for (i = len - 1; i >= 0; --i)`. */
  method RenderLoop(start: seq<Byte>, len: int, f: Format) returns (out: string)
    requires ByteExact(f) && len <= |start|
    ensures out == Render(start, len, f)
  {
    out := "";
    var i := len - 1;
    while i >= 0
      invariant i <= len - 1 && (i >= -1 || i == len - 1)
      invariant out + Groups(start, i, f) == Groups(start, len - 1, f)
      decreases i + 1
    {
      var printed := Convert(start[i], f.base, f.precision) + " ";
      ConvertExact(start[i], f.base, f.precision);
      assert Groups(start, i, f) == printed + Groups(start, i - 1, f);
      out := out + printed;
      i := i - 1;
    }
    out := out + "\n";
  }

  /** The output holds one group per byte and the line break. */
  lemma RenderLength(start: seq<Byte>, len: int, f: Format)
    requires ValidBase(f.base) && len <= |start|
    ensures |Render(start, len, f)| == (if len <= 0 then 0 else Times(len, Width(f))) + 1
  {
  }

  /** A rendering for a positive length is the first group followed by the rendering of the rest. */
  lemma RenderStep(start: seq<Byte>, len: int, f: Format)
    requires ValidBase(f.base) && 0 < len <= |start|
    ensures Render(start, len, f) == Group(start[len - 1], f) + Render(start, len - 1, f)
  {
  }

  /** Character `r` of the `k`-th group (from 0) that iterations `i` down to `0` print is character `r` of what iteration `i - k` prints. */
  lemma {:induction false} GroupsAt(start: seq<Byte>, i: int, f: Format, k: nat, r: nat)
    requires ValidBase(f.base) && k <= i < |start| && r < Width(f)
    ensures Times(k, Width(f)) + r < |Groups(start, i, f)|
    ensures Groups(start, i, f)[Times(k, Width(f)) + r] == Group(start[i - k], f)[r]
    decreases k
  {
    var g, rest := Group(start[i], f), Groups(start, i - 1, f);
    assert Groups(start, i, f) == g + rest && |g| == Width(f);
    if k > 0 {
      GroupsAt(start, i - 1, f, k - 1, r);
      assert Times(k, Width(f)) == |g| + Times(k - 1, Width(f));
    }
  }

  /** Group `k` of the output is exactly what iteration `len - 1 - k` prints. */
  lemma RenderGroupChars(start: seq<Byte>, len: int, f: Format, k: nat, a: nat)
    requires ValidBase(f.base) && len <= |start| && k < len && a == Times(k, Width(f))
    ensures a + Width(f) < |Render(start, len, f)|
    ensures Render(start, len, f)[a .. a + Width(f)] == Group(start[len - 1 - k], f)
  {
    var s, g := Render(start, len, f), Group(start[len - 1 - k], f);
    GroupsAt(start, len - 1, f, k, f.precision);
    forall r | 0 <= r < Width(f)
      ensures s[a + r] == g[r]
    {
      GroupsAt(start, len - 1, f, k, r);
    }
  }

  /**
    Group `k` of the output, counted from the left from 0, is the zero-padded
    numeral of byte `start[len - 1 - k]` followed by a space: the bytes appear in
    reverse of memory order.
  */
  lemma RenderGroup(start: seq<Byte>, len: int, f: Format, k: nat, a: nat)
    requires ValidBase(f.base) && len <= |start| && k < len && a == Times(k, Width(f))
    ensures a + Width(f) < |Render(start, len, f)|
    ensures Render(start, len, f)[a .. a + f.precision] == Fixed(start[len - 1 - k], f.base, f.precision)
    ensures Render(start, len, f)[a + f.precision] == ' '
  {
    var s, p := Render(start, len, f), f.precision;
    var g := Group(start[len - 1 - k], f);
    RenderGroupChars(start, len, f, k, a);
    assert s[a + p] == s[a .. a + Width(f)][p] == g[p];
    assert s[a .. a + p] == s[a .. a + Width(f)][..p] == g[..p];
  }

  /**
    Character `r` of group `k`: a space at the last position of the group, and the
    digit at position `r` of the numeral of byte `start[len - 1 - k]` before it.
  */
  lemma RenderAt(start: seq<Byte>, len: int, f: Format, k: nat, r: nat)
    requires ValidBase(f.base) && len <= |start| && k < len && r < Width(f)
    ensures Times(k, Width(f)) + r < |Render(start, len, f)| - 1
    ensures var s := Render(start, len, f);
      if r == f.precision then s[Times(k, Width(f)) + r] == ' '
      else s[Times(k, Width(f)) + r] == Fixed(start[len - 1 - k], f.base, f.precision)[r]
  {
    GroupsAt(start, len - 1, f, k, r);
  }

  /** Group `k` of the output, starting at offset `a`, reads back in the format's base as byte `start[len - 1 - k]`. */
  lemma GroupReadsBack(start: seq<Byte>, len: int, f: Format, k: nat, a: nat)
    requires ByteExact(f) && len <= |start| && k < len && a == Times(k, Width(f))
    ensures a + Width(f) < |Render(start, len, f)|
    ensures Parse(Render(start, len, f)[a .. a + f.precision], f.base) == Some(start[len - 1 - k] as nat)
  {
    RenderGroup(start, len, f, k, a);
    ParseFixed(start[len - 1 - k], f.base, f.precision);
  }

  /** Apart from the line break, the output holds only spaces, which close each group, and digits of the base. */
  lemma RenderDigitAt(start: seq<Byte>, len: int, f: Format, k: nat, r: nat)
    requires ValidBase(f.base) && len <= |start| && k < len && r < Width(f)
    ensures Times(k, Width(f)) + r < |Render(start, len, f)| - 1
    ensures var c := Render(start, len, f)[Times(k, Width(f)) + r];
      if r == f.precision then c == ' ' else IsDigit(c, f.base)
  {
    RenderAt(start, len, f, k, r);
    FixedNumeral(start[len - 1 - k], f.base, f.precision);
  }

  /**
    The inverse of a rendering: reads groups of `precision` digits, each followed by
    a space, up to a final line break, and returns the bytes in the order printed.
    Anything else (a missing space or line break, a character that is not a digit of
    the base, a group above 255, trailing text) is rejected.
  */
  function Decode(s: string, f: Format): (r: Option<seq<Byte>>)
    requires ValidBase(f.base)
    ensures r.Some? ==> |s| == Times(|r.value|, Width(f)) + 1
    decreases |s|
  {
    if s == "\n" then Some([])
    else if |s| < Width(f) || s[f.precision] != ' ' then None
    else match Parse(s[..f.precision], f.base)
      case None => None
      case Some(v) =>
        if v >= 256 then None
        else match Decode(s[Width(f)..], f)
          case None => None
          case Some(rest) => Some([v] + rest)
  }

  /** The elements of `s` in the opposite order. */
  function Reverse<T>(s: seq<T>): (r: seq<T>)
    ensures |r| == |s|
    ensures forall i :: 0 <= i < |s| ==> r[i] == s[|s| - 1 - i]
  {
    if |s| == 0 then [] else [s[|s| - 1]] + Reverse(s[..|s| - 1])
  }

  /** Reversing twice gives the original sequence. */
  lemma ReverseReverse<T>(s: seq<T>)
    ensures Reverse(Reverse(s)) == s
  {
  }

  /** Decoding a rendering gives back the first `len` bytes of the buffer, reversed. */
  lemma {:induction false} DecodeRender(start: seq<Byte>, len: nat, f: Format)
    requires ByteExact(f) && len <= |start|
    ensures Decode(Render(start, len, f), f) == Some(Reverse(start[..len]))
    decreases len
  {
    if len > 0 {
      var s, rest := Render(start, len, f), Render(start, len - 1, f);
      var v := start[len - 1];
      var digits := Fixed(v, f.base, f.precision);
      RenderStep(start, len, f);
      assert s == digits + " " + rest;
      DecodeRender(start, len - 1, f);
      ParseFixed(v, f.base, f.precision);
      assert s != "\n" && s[f.precision] == ' ';
      assert s[..f.precision] == digits;
      assert s[Width(f)..] == rest;
      assert start[..len][..len - 1] == start[..len - 1];
      assert Reverse(start[..len]) == [v] + Reverse(start[..len - 1]);
    }
  }

  /** Prepending a byte to the buffer adds its group at the end of what the loop prints. */
  lemma {:induction false} GroupsCons(v: Byte, rest: seq<Byte>, i: int, f: Format)
    requires ValidBase(f.base) && 0 <= i <= |rest|
    ensures Groups([v] + rest, i, f) == Groups(rest, i - 1, f) + Group(v, f)
    decreases i
  {
    var longer := [v] + rest;
    if i > 0 {
      GroupsCons(v, rest, i - 1, f);
      assert longer[i] == rest[i - 1];
      var g := Group(rest[i - 1], f);
      assert Groups(longer, i, f) == g + (Groups(rest, i - 2, f) + Group(v, f));
      assert Groups(rest, i - 1, f) == g + Groups(rest, i - 2, f);
    } else {
      assert Groups(longer, i, f) == Group(longer[0], f) + "";
    }
  }

  /** Appending bytes beyond index `i` does not change what iterations `i` to `0` print. */
  lemma {:induction false} GroupsPrefix(start: seq<Byte>, more: seq<Byte>, i: int, f: Format)
    requires ValidBase(f.base) && i < |start|
    ensures Groups(start + more, i, f) == Groups(start, i, f)
    decreases if i < 0 then 0 else i + 1
  {
    if i >= 0 {
      GroupsPrefix(start, more, i - 1, f);
    }
  }

  /** A sequence is its part before position `p`, the element at `p`, and its part after. */
  lemma SplitAround<T>(s: seq<T>, p: nat)
    requires p < |s|
    ensures s == s[..p] + [s[p]] + s[p + 1..]
  {
  }

  /** One step of Decode on a text that is not just the line break. */
  lemma DecodeStep(s: string, f: Format)
    requires ValidBase(f.base) && Decode(s, f).Some? && s != "\n"
    ensures var bs := Decode(s, f).value;
      && |bs| > 0 && |s| >= Width(f) && s[f.precision] == ' '
      && Parse(s[..f.precision], f.base) == Some(bs[0] as nat)
      && Decode(s[Width(f)..], f) == Some(bs[1..])
  {
  }

  /** Rendering a buffer with one more byte at its end prints that byte's group first. */
  lemma RenderAppend(start: seq<Byte>, v: Byte, f: Format)
    requires ValidBase(f.base)
    ensures Render(start + [v], |start| + 1, f) == Group(v, f) + Render(start, |start|, f)
  {
    var longer := start + [v];
    assert longer[|start|] == v;
    RenderStep(longer, |start| + 1, f);
    GroupsPrefix(start, [v], |start| - 1, f);
    assert Render(longer, |start|, f) == Render(start, |start|, f);
  }

  /**
    Decode accepts only renderings: whatever it reads back, printing those bytes
    (stored in reverse) reproduces the input text exactly.
  */
  lemma {:induction false} RenderDecode(s: string, f: Format)
    requires ValidBase(f.base) && Decode(s, f).Some?
    ensures var bs := Decode(s, f).value; Render(Reverse(bs), |bs|, f) == s
    decreases |s|
  {
    var bs := Decode(s, f).value;
    if s != "\n" {
      DecodeStep(s, f);
      var v, rest := bs[0], bs[1..];
      var digits, tail := s[..f.precision], s[Width(f)..];
      RenderDecode(tail, f);
      FixedOfParse(digits, f.base);
      var rv := Reverse(rest);
      assert Reverse(bs) == rv + [v];
      RenderAppend(rv, v, f);
      SplitAround(s, f.precision);
    }
  }
}
