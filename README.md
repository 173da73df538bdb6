# CRC-32 of the ROM patcher, modelled in Dafny

The patcher identifies ROM and patch files by their CRC-32. It shows that
value as eight hexadecimal digits and compares it with the checksums that
known patches expect. `js/crc.js` computes it in three parts:

- a 256-entry lookup table, built once when the script loads;
- `crc32(marcFile, headerSize, ignoreLast4Bytes)`, a table-driven loop
  over the file's bytes. It can skip a leading header and leave out the
  last four bytes;
- `padZeroes(intVal, nBytes)`, which renders a number in lowercase
  hexadecimal, left-padded with `'0'`.

This is the CRC-32 of IEEE 802.3 (clause 3.2.9), also used by ISO/IEC 3309
and ITU-T V.42:

- the reflected polynomial 0xEDB88320;
- the register preset to all ones;
- the final register complemented.

The model keeps the code's imperative form. Each part is a method with
loop invariants, proved against a pure recursive definition:

- `bits.dfy` (module `Bits`) holds unsigned 32-bit words and the
  JavaScript operators the code applies to them, written out on
  naturals. A word is the unsigned reading of a 32-bit pattern, a `nat`
  below 2^32.
  - `a ^ b` is `Xor(a, b)`, defined bit by bit.
  - `c >>> 8` is `c / 256`, `c & 0xff` is `c % 256` and `c & 1` is `c % 2`.
  - JavaScript's `-1` is `AllOnes`, so `crc ^ -1` is `Xor(crc, AllOnes)`,
    which the model proves equal to `AllOnes - crc`.
  - The final `>>> 0` is the reading of the result as unsigned, which the
    representation already is.
  - In the source, `^` yields a signed 32-bit Number. The register starts
    at `-1`, and every table entry whose last step xors in the polynomial
    is negative: entry 128 is `-306674912`, where the model holds
    `0xEDB88320`. These hold the same 32-bit patterns as the model's
    words. Every use of them goes through `^`, `>>>` or `&`, which read
    only the pattern, so the result is the same.
- `crc_table.dfy` (module `CrcTable`) holds the bitwise reduction
  `ReduceBit` and its `k`-fold iterate `Reduce`, the table entry
  `TableEntry(n) = Reduce(n, 8)`, the table initialiser `BuildCrcTable`
  (nested `for` loops filling an array), and the proof that one table
  lookup does the work of eight bitwise steps.
- `crc.dfy` (module `Crc`) holds the bitwise CRC-32 definition. The
  register `Register` feeds bytes one by one through eight reduction steps
  each, and `Checksum` presets the register and complements it at the end.
  The module also has:
  - `ViewBytes`, the bytes of the array the checksum reads, chosen by
    `headerSize`;
  - `CoveredBytes`, the part of that array `ignoreLast4Bytes` leaves in;
  - `Crc32Of`, the function's result, either a checksum or `RangeError`;
  - `Crc32`, the table-driven loop, proved equal to `Crc32Of` for every
    input.
- `hex.dfy` (module `Hex`) holds `ToHex`, which is `v.toString(16)` for
  non-negative integers, its inverse `HexValue`, the padded string
  `Padded`, and `PadZeroes`, the `while` loop that prepends `'0'`.

How the code's inputs become the model's:

- The lookup table is a module constant in the source. Here `Crc32`
  receives it as an array that must hold exactly the table entries,
  which is what `BuildCrcTable` returns.
- The file's `Uint8Array` is a view on an `ArrayBuffer`. The model gives
  it as the buffer's bytes together with the view's `byteOffset` and
  `length`.
- A `headerSize` of 0 is falsy in the source and selects the file's own
  array.
- Any other `headerSize` opens a new view on the whole underlying buffer,
  from that offset to the end of the buffer. This does not depend on the
  file's own offset and length. The typed-array constructor throws a
  `RangeError` when the offset is negative or past the end of the buffer.
  The model returns `RangeError` in that case.
- `Crc32` has no `modifies` clause, so it cannot write the file or the
  table.

## Model

| member | source | states |
|---|---|---|
| Crc.Crc32 | js/crc.js:23-33 | the loop's result is the bitwise CRC-32 of exactly the selected bytes: the file's own view without a header, and the buffer from the header offset to its end with one. It is `RangeError` exactly when a non-zero header offset lies outside the buffer. Every checksum is below 2^32 |
| CrcTable.BuildCrcTable | js/crc.js:13-22 | the new array has exactly 256 entries; entry `n` is `n` reduced eight times by the polynomial; every entry is the unsigned reading of a 32-bit pattern, which the source holds as a signed Number |
| CrcTable.TableEntries | js/crc.js:13-22 | every table entry is a 32-bit word, and entry 0 is 0 |
| CrcTable.ReduceWord | js/crc.js:17-18 | reduction steps keep a 32-bit register below 2^32 |
| CrcTable.ReduceBitXor | js/crc.js:18 | one reduction step is linear: reducing `a ^ b` gives the xor of the reductions of `a` and `b` |
| CrcTable.ReduceXor | js/crc.js:17-18 | any number of reduction steps is linear over xor |
| CrcTable.ReduceOfMultiple | js/crc.js:17-18 | a register whose low `k` bits are clear is only shifted right by `k` steps, because the polynomial is never xored in |
| CrcTable.TableStep | js/crc.js:30 | one table step `(crc >>> 8) ^ T[(crc ^ b) & 0xff]` equals feeding byte `b` through eight bitwise reduction steps |
| Bits.XorByte | js/crc.js:30 | xoring a byte into a word leaves `>>> 8` unchanged and changes `& 0xff` to the xor of the low byte with the byte |
| Bits.XorAllOnes | js/crc.js:32 | `crc ^ -1` on a word is its 32-bit complement `0xFFFFFFFF - crc` |
| Crc.RegisterWord | js/crc.js:26-30 | starting from a 32-bit register, the register stays below 2^32 however many bytes are fed in |
| Crc.RegisterAppend | js/crc.js:26-30 | the loop is incremental: the register after `a + b` is the register after `b`, started from the register left by `a` |
| Crc.ChecksumWord | js/crc.js:26-32 | the result is the complement of the final register, so it lies in [0, 2^32); over no bytes it is 0 |
| Crc.HeaderIsSuffix | js/crc.js:24 | holds by definition. With a header offset inside the buffer, the result is that of a file occupying the buffer from that offset to its end, with no header, whatever the file's own offset and length. For a file that fills its buffer, this is the checksum of the file's suffix. The result is `RangeError` exactly when the offset lies outside the buffer |
| Crc.CoveredRange | js/crc.js:24-29 | the bytes covered, as a range of the buffer, are `[byteOffset, byteOffset + length)` without a header and `[h, bufferLength)` with one, less the last four when they are left out. When fewer than four bytes are in view, the loop runs zero times and the result is 0 |
| Crc.IgnoreLast4IsTruncation | js/crc.js:28 | leaving out the last four bytes gives the same result as checksumming the file's view shortened by four bytes |
| Crc.FeedLittleEndian | js/crc.js:29-30 | feeding the `n` little-endian bytes of a value `x` through the loop equals xoring `x` into the register and applying `8n` reduction steps |
| Crc.SelfChecksumResidue | js/crc.js:28-32 | a file whose last four bytes store, little-endian, the checksum that `ignoreLast4Bytes` computes has the same whole-file checksum whatever its contents |
| Hex.PadZeroes | js/crc.js:5-10 | the loop returns the digits of `intVal` with zeros in front up to `2 * nBytes` characters; its length is `max(len(hex), 2 * nBytes)`; it is lowercase hexadecimal and denotes `intVal` |
| Hex.PaddedDigits | js/crc.js:6-9 | the padded string has length `max(len(hex), 2 * nBytes)`, is lowercase hexadecimal denoting the value, and is returned unchanged when the digits already fill `2 * nBytes` |
| Hex.PaddedStrip | js/crc.js:6-9 | only zeros are prepended: stripping leading zeros gives back `intVal.toString(16)` for a positive value; for 0 the result is `max(1, 2 * nBytes)` zeros |
| Hex.ZerosValue | js/crc.js:7-8 | prepending zeros never changes the value the digits denote |
| Hex.ToHexValue | js/crc.js:6 | `toString(16)` produces at least one lowercase hexadecimal digit, the digits denote the value, and the first digit is `'0'` only for 0 |
| Hex.ToHexLength | js/crc.js:6 | a value has at most `n` hexadecimal digits exactly when it is below 16^n |
| Hex.WordPadding | js/crc.js:5-10 | a 32-bit checksum has at most eight digits, so padding it to four bytes gives exactly eight characters (the display in js/RomPatcher.js:36 and :233) |

## Left out

- Concrete check values are not proved. Examples are the standard check value (CRC-32 of "123456789" is 0xCBF43926), individual table entries such as entry 1 = 0x77073096, and the residue constant 0xDEBB20E3 (complemented, 0x2144DF1C). `Xor` on naturals cannot be evaluated on 32-bit literals within the solver's limits. The model proves that the table-driven loop equals the bitwise definition for every input, and that the residue is one constant for all files.
- Crc.Crc32: the buffer is read as a sequence of bytes. Writes through other views of the same `ArrayBuffer` are not modelled; nothing writes during the call.
- Crc.Crc32: `headerSize` is an integer. Truthiness of other values is not modelled: `undefined`, `null` and `false` behave as 0, and a fractional offset is truncated by the typed-array constructor. `ignoreLast4Bytes` is a boolean.
- Crc.Crc32: the `marcFile` object is reduced to its array's buffer, offset and length. `MarcFile.js` is not part of this model.
- Hex.PadZeroes: `intVal` is a non-negative integer, which is what the callers pass (CRC-32 results). `toString(16)` of negative numbers (a leading `-`) and of fractions is not modelled.
- The lookup table is built once per script load in the source. The model has the initialiser as a method and passes its result to `Crc32`. Sharing of that constant between calls is not modelled.
- js/RomPatcher.js is not part of this model: DOM updates, worker setup and message passing, downloads, ZIP handling, event wiring, patch-format dispatch, and the custom-patch validators. The validators only compare `crc32` results with stored numbers.
- js/worker_apply.js (worker message handling, buffer marshalling) and js/locale.js (a string table) are not part of this model.
- The IPS and BPS patch codecs are loaded from files that are not part of this model.
