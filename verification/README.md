# Byte-layout printers, modelled in Dafny

The C++ snippets `print-bin.hpp` and `print-hex.hpp` show how a value is laid out
in memory:

- `print_bits(start, len)` walks a byte buffer from index `len - 1` down to index 0.
  It prints every byte with `printf("%.8b ", …)`, then prints a line break.
- `print_bytes(start, len)` does the same with `printf("%.2x ", …)`.
- `print_bin<T>(x)` and `print_hex<T>(x)` hand the `sizeof(T)` bytes of the object
  `x` to those loops, lowest address first.

The model returns the printed text as a string.

- **Digits.** The printf integer conversions with an explicit precision.
  - `Convert` gives the minimal digits of the value, zero-padded to the precision.
    Zero has no digits at all.
  - `Fixed` is the fixed-width numeral and `Parse` reads a numeral back.
  - For a byte, the conversions `%.8b` and `%.2x` print exactly 8 or 2 digits (`ConvertExact`).
- **Dump.** The loop shared by both printers, generic in the numeral base and the precision.
  - `Render` is the recursive definition.
  - `RenderLoop` is the `for` loop as written, proved equal to `Render`.
  - `Decode` is the inverse of a rendering.
- **Storage.** How an object of an integer type `T` is stored on a little-endian machine:
  - the two's-complement pattern of the value (`Pattern`);
  - split into bytes, least significant first (`Bytes`);
  - and the reverse reading (`ValueOf`).
- **ValueDump.** `print_bin<T>` / `print_hex<T>` in generic form. The printed text is the
  whole bit pattern, most significant digit first, cut into one group per byte.
- **PrintBin / PrintHex.** The two printers with their directives (`Bits`, `Hex`).
  Each property is restated with concrete offsets: group `k` starts at character
  `9k`, or at `3k` for hexadecimal.

The loop prints a space after every group, the last one included, so `print_bin`
prints `9 * sizeof(T)` characters before the line break (`PrintBits`, `PrintBitsAt`).

Offsets in the generic modules are written `Times(k, w)`, that is `k` copies of `w` added
up, rather than `k * w`. The solver handles repeated addition by unfolding one group at a
time, where a product would need non-linear arithmetic. `Arith.TimesIsMul` turns it back
into `k * w`, and the concrete modules state every offset as `9 * k` or `3 * k`.

## Model

| member | source | states |
|---|---|---|
| Dump.RenderLoop | cpp/data-representation/print-bin.hpp:9-14 | Running the loop from `i = len - 1` down to `0`, then printing the line break, produces exactly the rendering `Render`, for every `len`, including `len <= 0`. |
| Dump.Render | cpp/data-representation/print-bin.hpp:9-14 | The output always ends with the line break. With `len <= 0` the loop does not run and the output is exactly `"\n"`. |
| Dump.Group | cpp/data-representation/print-bin.hpp:11 | One iteration prints `precision + 1` characters, the last of them a space. |
| Dump.Groups | cpp/data-representation/print-bin.hpp:10-12 | Iterations `i` down to `0` print `i + 1` groups of `precision + 1` characters each, and nothing when `i < 0`. |
| Dump.RenderLength | cpp/data-representation/print-bin.hpp:9-14 | The output has `len * (precision + 1) + 1` characters for `len > 0`, and 1 otherwise. |
| Dump.RenderStep | cpp/data-representation/print-bin.hpp:10-11 | The first iteration prints the group of `start[len - 1]`; the rest is the output for `len - 1`. |
| Dump.GroupsAt | cpp/data-representation/print-bin.hpp:10-12 | Character `r` of the `k`-th group printed is character `r` of what iteration `i - k` prints. |
| Dump.RenderGroupChars | cpp/data-representation/print-bin.hpp:10-12 | The `k`-th group of the output, counted from the left, is exactly what iteration `len - 1 - k` prints. |
| Dump.RenderGroup | cpp/data-representation/print-bin.hpp:10-12 | The `k`-th group, counted from the left, lies inside the output. It is the zero-padded numeral of `start[len - 1 - k]` followed by a space, so the bytes appear in reverse of memory order. |
| Dump.RenderAt | cpp/data-representation/print-bin.hpp:10-12 | Every character of the output before the line break is either the space that closes group `k` or digit `r` of the numeral of `start[len - 1 - k]`. |
| Dump.RenderDigitAt | cpp/data-representation/print-bin.hpp:10-13 | Before the line break, the output holds only spaces, one closing each group, and digits of the base. |
| Dump.GroupReadsBack | cpp/data-representation/print-bin.hpp:10-12 | The digits of group `k` read back, in the format's base, as exactly the byte `start[len - 1 - k]`. |
| Dump.Decode | cpp/data-representation/print-bin.hpp:9-14 | The reader of the printed format: any text it accepts has one group of `precision + 1` characters per byte read, plus the line break. |
| Dump.DecodeRender | cpp/data-representation/print-bin.hpp:9-14 | Reading an output back gives the first `len` bytes of the buffer in reverse order. |
| Dump.RenderDecode | cpp/data-representation/print-bin.hpp:9-14 | The reader accepts only outputs of the loop: printing the bytes it read, stored in reverse, reproduces the text exactly. |
| Dump.GroupsCons | cpp/data-representation/print-bin.hpp:10-12 | The byte at index 0 is printed last: prepending a byte to the buffer appends its group after the others. |
| Dump.GroupsPrefix | cpp/data-representation/print-bin.hpp:10-12 | Bytes past index `i` do not affect what iterations `i` down to `0` print. |
| Dump.RenderAppend | cpp/data-representation/print-bin.hpp:10-12 | A byte added at the end of the buffer is printed first, before the groups of the other bytes. |
| Dump.DecodeStep | cpp/data-representation/print-bin.hpp:11 | A text the reader accepts starts with a group: digits of the first byte read, then a space. |
| Digits.Convert | cpp/data-representation/print-bin.hpp:11 | printf's unsigned conversion with precision `p` prints at least `p` characters. |
| Digits.ConvertExact | cpp/data-representation/print-bin.hpp:11 | For a value below `base^p`, printf's conversion with precision `p` is exactly the `p`-digit zero-padded numeral; for a byte, `%.8b` and `%.2x` have a fixed width. |
| Digits.MinimalNumeral | cpp/data-representation/print-bin.hpp:11 | Without padding, the conversion prints digits of the base only and never a leading `0`. |
| Digits.MinimalFits | cpp/data-representation/print-bin.hpp:11 | A value below `base^w` needs no more than `w` digits, so the precision is never exceeded. |
| Digits.ParseMinimal | cpp/data-representation/print-bin.hpp:11 | The unpadded digits denote the value. |
| Digits.ParseZerosPrefix | cpp/data-representation/print-bin.hpp:11 | Zero padding does not change the value a numeral denotes. |
| Digits.Fixed | cpp/data-representation/print-bin.hpp:11 | The zero-padded numeral of width `w` has exactly `w` characters, whatever the value. |
| Digits.FixedNumeral | cpp/data-representation/print-bin.hpp:11 | Fixed-width numerals consist of digits of the base. |
| Digits.ParseFixed | cpp/data-representation/print-bin.hpp:11 | Reading back the `w`-digit numeral of a value below `base^w` gives the value. |
| Digits.FixedOfParse | cpp/data-representation/print-bin.hpp:11 | Every numeral is the fixed-width numeral of its own value, so numerals and values correspond one to one. |
| Digits.ParseNumeral | cpp/data-representation/print-bin.hpp:11 | Reading succeeds exactly on strings made of digits of the base. |
| Digits.ParseAppend | cpp/data-representation/print-bin.hpp:16-19 | Writing one numeral after another shifts the first by the width of the second; this is how per-byte groups join into one number. |
| Digits.SplitLowByte | cpp/data-representation/print-bin.hpp:16-19 | When `p` digits hold one byte, the numeral of a value is the numeral of all but its low byte, followed by the `p` digits of that byte. |
| Digits.FixedAllMax | cpp/data-representation/print-bin.hpp:5-7 | The largest `w`-digit value is written as `w` copies of the largest digit, such as `11111111` or `ff`. |
| Digits.DigitChar | cpp/data-representation/print-hex.hpp:11 | printf writes digits as `0`-`9` and the lower-case letters `a`-`f`. |
| Digits.DigitValue | cpp/data-representation/print-hex.hpp:11 | Exactly the characters `0`-`9` and `a`-`f` have a digit value. |
| Digits.DigitInverse | cpp/data-representation/print-hex.hpp:11 | Digit characters and digit values correspond one to one. |
| Digits.BinaryDigit | cpp/data-representation/print-bin.hpp:11 | The digits of base 2 are exactly `0` and `1`. |
| Digits.HexDigit | cpp/data-representation/print-hex.hpp:11 | The digits of base 16 are exactly `0`-`9` and lower-case `a`-`f`. |
| Storage.Pattern | cpp/data-representation/print-bin.hpp:1-7 | The stored two's-complement pattern fits the type's width, and for a signed type its top bit is set exactly when the value is negative. |
| Storage.Bytes | cpp/data-representation/print-bin.hpp:16-19 | An object of type `T` occupies `sizeof(T)` bytes. |
| Storage.LittleEndian | cpp/data-representation/print-bin.hpp:2-4 | A number split into `n` bytes, least significant at the lowest address, has `n` bytes. |
| Storage.FromLittleEndian | cpp/data-representation/print-bin.hpp:2-4 | The number held by `n` bytes stored least significant first is below `256^n`. |
| Storage.FromToLittleEndian | cpp/data-representation/print-bin.hpp:2-4 | Storing a number of `n` bytes and reading it back gives the number. |
| Storage.ToFromLittleEndian | cpp/data-representation/print-bin.hpp:2-4 | Every byte sequence is the storage of the number it holds. |
| Storage.ValueOf | cpp/data-representation/print-bin.hpp:1-7 | Reading the bytes of an object as a signed or unsigned integer of its type gives a value in the type's range. |
| Storage.ValueOfBytes | cpp/data-representation/print-bin.hpp:16-19 | The bytes of an object hold the object's value. |
| Storage.BytesOfValue | cpp/data-representation/print-bin.hpp:16-19 | Every byte pattern of the right size is the storage of exactly one value. |
| Storage.LittleEndianAllOnes | cpp/data-representation/print-bin.hpp:5-7 | The largest `n`-byte number is stored as `n` bytes of 255. |
| Storage.BytesMinusOne | cpp/data-representation/print-bin.hpp:5-7 | A signed `-1` is stored with every bit set. |
| ValueDump.RenderValue | cpp/data-representation/print-bin.hpp:16-20 | The template prints `sizeof(T)` groups and a line break. |
| ValueDump.Chunked | cpp/data-representation/print-bin.hpp:1-7 | Cutting `n * p` digits into `n` groups of `p`, each followed by a space, gives `n * (p + 1)` characters. |
| ValueDump.GroupsLittleEndian | cpp/data-representation/print-bin.hpp:1-20 | Printing the little-endian bytes of a number in reverse shows the number's full numeral, most significant digit first, cut into one group per byte. |
| ValueDump.RenderValuePattern | cpp/data-representation/print-bin.hpp:1-20 | The template prints the value's whole two's-complement pattern, most significant digit first, in one group per byte. |
| ValueDump.RenderValueMinusOne | cpp/data-representation/print-bin.hpp:5-7 | A signed `-1` prints the largest digit of the base in every digit position, with a space closing each group. |
| ValueDump.DecodeRenderValue | cpp/data-representation/print-bin.hpp:16-20 | Reading the printed groups back and storing them in reverse gives the object's bytes, which hold the value again. |
| PrintBin.BitsExact | cpp/data-representation/print-bin.hpp:11 | Eight binary digits hold exactly one byte. |
| PrintBin.PrintBits | cpp/data-representation/print-bin.hpp:9-14 | `print_bits` prints `9 * len + 1` characters, 1 when `len <= 0`, ending in the line break; with `len <= 0` it prints only `"\n"`. |
| PrintBin.PrintBitsGroup | cpp/data-representation/print-bin.hpp:10-12 | Characters `9k` to `9k + 7` are the 8-digit binary numeral of `start[len - 1 - k]`, and character `9k + 8` is a space. |
| PrintBin.PrintBitsGroupValue | cpp/data-representation/print-bin.hpp:10-12 | Characters `9k` to `9k + 7` read back in base 2 as the byte `start[len - 1 - k]`. |
| PrintBin.PrintBitsAt | cpp/data-representation/print-bin.hpp:10-13 | Every character before the line break is a space when its position is 8 modulo 9 and `0` or `1` otherwise. |
| PrintBin.PrintBitsAlphabet | cpp/data-representation/print-bin.hpp:10-13 | The output uses only `0`, `1`, spaces and the final line break, with a space after every group, the last one included. |
| PrintBin.ReadBits | cpp/data-representation/print-bin.hpp:9-14 | Any text the reader accepts has `9 * n + 1` characters for `n` bytes. |
| PrintBin.ReadPrintBits | cpp/data-representation/print-bin.hpp:9-14 | Reading `print_bits`' output back gives the first `len` bytes in reverse order, and no bytes when `len <= 0`. |
| PrintBin.PrintReadBits | cpp/data-representation/print-bin.hpp:9-14 | The reader accepts only `print_bits` outputs: printing what it read reproduces the text. |
| PrintBin.PrintBinary | cpp/data-representation/print-bin.hpp:16-20 | `print_bin<T>` prints `9 * sizeof(T) + 1` characters. |
| PrintBin.PrintBinaryPattern | cpp/data-representation/print-bin.hpp:1-20 | `print_bin<T>` prints the `8 * sizeof(T)`-bit two's-complement pattern, most significant bit first, in groups of eight. |
| PrintBin.PrintBinaryMinusOneAt | cpp/data-representation/print-bin.hpp:5-7 | For a signed `-1`, each character before the line break is a space at positions 8 modulo 9 and `1` elsewhere. |
| PrintBin.PrintBinaryMinusOne | cpp/data-representation/print-bin.hpp:5-7 | `print_bin` of a signed `-1` is `11111111 ... 11111111`. |
| PrintBin.PrintBinaryRecoversValue | cpp/data-representation/print-bin.hpp:16-20 | The printed digits determine the value: reading them back and storing them in reverse recovers `x`. |
| PrintHex.HexExact | cpp/data-representation/print-hex.hpp:11 | Two hexadecimal digits hold exactly one byte. |
| PrintHex.PrintBytes | cpp/data-representation/print-hex.hpp:9-14 | `print_bytes` prints `3 * len + 1` characters, 1 when `len <= 0`, ending in the line break; with `len <= 0` it prints only `"\n"`. |
| PrintHex.PrintBytesGroup | cpp/data-representation/print-hex.hpp:10-12 | Characters `3k` and `3k + 1` are the 2-digit lower-case hexadecimal numeral of `start[len - 1 - k]`, and character `3k + 2` is a space. |
| PrintHex.PrintBytesGroupValue | cpp/data-representation/print-hex.hpp:10-12 | Characters `3k` and `3k + 1` read back in base 16 as the byte `start[len - 1 - k]`. |
| PrintHex.PrintBytesAt | cpp/data-representation/print-hex.hpp:10-13 | Every character before the line break is a space when its position is 2 modulo 3 and `0`-`9` or `a`-`f` otherwise. |
| PrintHex.PrintBytesAlphabet | cpp/data-representation/print-hex.hpp:10-13 | The output uses only `0`-`9`, lower-case `a`-`f`, spaces and the final line break, with a space after every group. |
| PrintHex.ReadBytes | cpp/data-representation/print-hex.hpp:9-14 | Any text the reader accepts has `3 * n + 1` characters for `n` bytes. |
| PrintHex.ReadPrintBytes | cpp/data-representation/print-hex.hpp:9-14 | Reading `print_bytes`' output back gives the first `len` bytes in reverse order, and no bytes when `len <= 0`. |
| PrintHex.PrintReadBytes | cpp/data-representation/print-hex.hpp:9-14 | The reader accepts only `print_bytes` outputs: printing what it read reproduces the text. |
| PrintHex.HexAgreesWithBits | cpp/data-representation/print-hex.hpp:9-14 | For the same buffer, hexadecimal group `k` and binary group `k` denote the same byte. |
| PrintHex.PrintHexadecimal | cpp/data-representation/print-hex.hpp:16-20 | `print_hex<T>` prints `3 * sizeof(T) + 1` characters. |
| PrintHex.PrintHexadecimalPattern | cpp/data-representation/print-hex.hpp:1-20 | `print_hex<T>` prints the `2 * sizeof(T)`-digit hexadecimal form of the two's-complement pattern, most significant digit first, in groups of two. |
| PrintHex.PrintHexadecimalMinusOneAt | cpp/data-representation/print-hex.hpp:5-7 | For a signed `-1`, each character before the line break is a space at positions 2 modulo 3 and `f` elsewhere. |
| PrintHex.PrintHexadecimalMinusOne | cpp/data-representation/print-hex.hpp:5-7 | `print_hex` of a signed `-1` is `ff ... ff`. |
| PrintHex.PrintHexadecimalRecoversValue | cpp/data-representation/print-hex.hpp:16-20 | The printed digits determine the value: reading them back and storing them in reverse recovers `x`. |

## Left out

- Standard output: `printf` writes to `stdout`. The model returns the text instead, and ignores printf's return value and its errors.
- The pointer cast in `print_bin` / `print_hex`: it is modelled as the `sizeof(T)` bytes of the object on a little-endian machine (`Storage.Bytes`). The source itself assumes little-endian (its header comments). Big-endian machines and detecting the byte order are not modelled.
- Floating-point and other non-integer `T`: their IEEE 754 layout is not modelled. Integer `T` is an `IntType(size, signed)` with two's complement, and sizes are whole bytes with no padding bits.
- Zero-size types: there are none in C++, so `ValidType` requires `size >= 1`.
- A buffer shorter than `len` bytes: reading past it is undefined behaviour in C and C++, so every member requires `len <= |start|`. A negative `len` is allowed: the loop does not run.
- The `int` width of `len`: it is an unbounded integer. For `len == INT_MIN`, computing `len - 1` overflows, which is undefined behaviour in C++. The model treats that case like any other `len <= 0` and prints only the line break.
- The `%b` conversion: it is modelled by its definition in C23 (ISO/IEC 9899:2024, section 7.23.6.1), the same unsigned conversion as `%o`, `%u` and `%x` in base 2. Older C libraries may not support it.
- The rest of the repository (the file reading and writing snippets, the Python decorator): it is not part of this model.
