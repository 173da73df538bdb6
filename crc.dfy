/** The CRC-32 checksum the patcher computes over a ROM or patch file: the
    bitwise definition (reflected polynomial 0xEDB88320, register preset to
    all ones, result complemented), the selection of the bytes covered by
    the `headerSize` and `ignoreLast4Bytes` arguments, and the table-driven
    loop that computes it. */
module Crc {
  import opened Bits
  import opened CrcTable

  /** A byte of a file, as read from its `Uint8Array`. */
  type byte = x: nat | x < 256

  /** What a call of the checksum function yields: a checksum, or the
      `RangeError` the typed-array view constructor throws when the header
      offset lies outside the file. */
  datatype CrcResult = Crc(value: nat) | RangeError

  /** Feed one byte into the register bit by bit: xor it into the low byte,
      then reduce eight times. */
  function UpdateByte(crc: nat, b: byte): nat {
    Reduce(Xor(crc, b), 8)
  }

  /** The register after feeding `bytes`, in order, into `init`. */
  function Register(init: nat, bytes: seq<byte>): nat {
    if |bytes| == 0 then init else UpdateByte(Register(init, bytes[..|bytes| - 1]), bytes[|bytes| - 1])
  }

  /** The CRC-32 of `bytes`: the register preset to all ones, and the final
      register complemented. */
  function Checksum(bytes: seq<byte>): nat {
    Xor(Register(AllOnes, bytes), AllOnes)
  }

  /** The bytes of the array the checksum reads. A file's bytes are the
      `length` bytes of its `buffer` starting at `byteOffset`. With
      `headerSize` 0 the checksum reads the file's own array; otherwise it
      opens a new view on the whole buffer, from `headerSize` to the end of
      the buffer. */
  function ViewBytes(buffer: seq<byte>, byteOffset: nat, length: nat, headerSize: int): seq<byte>
    requires byteOffset + length <= |buffer|
    requires 0 <= headerSize <= |buffer|
  {
    if headerSize == 0 then buffer[byteOffset..byteOffset + length] else buffer[headerSize..]
  }

  /** The bytes of `view` the checksum covers: all of them, or all but the
      last four when `ignoreLast4Bytes` is set, and none when fewer than four
      are there. */
  function CoveredBytes(view: seq<byte>, ignoreLast4Bytes: bool): seq<byte> {
    if !ignoreLast4Bytes then view
    else if |view| < 4 then []
    else view[..|view| - 4]
  }

  /** The result of the checksum function for a file whose array sees
      `length` bytes of `buffer` from `byteOffset`. A header offset outside
      the buffer makes the view constructor throw. */
  function Crc32Of(buffer: seq<byte>, byteOffset: nat, length: nat, headerSize: int, ignoreLast4Bytes: bool): CrcResult
    requires byteOffset + length <= |buffer|
  {
    if 0 <= headerSize <= |buffer| then
      Crc(Checksum(CoveredBytes(ViewBytes(buffer, byteOffset, length, headerSize), ignoreLast4Bytes)))
    else RangeError
  }

  /** The table-driven checksum over a file whose array sees `length` bytes
      of `buffer` from `byteOffset`. A non-zero `headerSize` reads the buffer
      from that offset to its end instead (and is refused when outside the
      buffer); `ignoreLast4Bytes` leaves out the trailing four bytes. The
      register is a word throughout, and the loop agrees with the bitwise
      definition byte by byte. */
  method Crc32(table: array<nat>, buffer: array<byte>, byteOffset: nat, length: nat, headerSize: int,
               ignoreLast4Bytes: bool)
    returns (r: CrcResult)
    requires IsCrcTable(table)
    requires byteOffset + length <= buffer.Length
    ensures r == Crc32Of(buffer[..], byteOffset, length, headerSize, ignoreLast4Bytes)
    ensures r.RangeError? <==> headerSize < 0 || headerSize > buffer.Length
    ensures r.Crc? ==> IsWord(r.value)
  {
    var start, count := byteOffset, length;
    if headerSize != 0 {
      if headerSize < 0 || headerSize > buffer.Length {
        return RangeError;
      }
      start, count := headerSize, buffer.Length - headerSize;
    }
    ghost var view := buffer[start..start + count];
    assert view == ViewBytes(buffer[..], byteOffset, length, headerSize);
    var crc := AllOnes;
    var len := if ignoreLast4Bytes then count - 4 else count;
    var i := 0;
    while i < len
      invariant 0 <= i <= |view|
      invariant len <= 0 ==> i == 0
      invariant len > 0 ==> i <= len
      invariant crc == Register(AllOnes, view[..i])
      invariant IsWord(crc)
    {
      var b := buffer[start + i];
      assert b == view[i];
      var index := Xor(crc, b) % 256;
      assert table[index] == TableEntry(index);
      LookupStep(view, i, crc);
      crc := Xor(crc / 256, table[index]);
      i := i + 1;
    }
    CoveredPrefix(view, ignoreLast4Bytes, len, i);
    FinalComplement(buffer[..], byteOffset, length, headerSize, ignoreLast4Bytes, crc);
    r := Crc(Xor(crc, AllOnes));
  }

  /** One pass of the loop: the table step on the register so far feeds
      the next byte, and keeps the register a word. */
  lemma LookupStep(view: seq<byte>, i: nat, crc: nat)
    requires i < |view|
    ensures crc == Register(AllOnes, view[..i]) ==>
      Xor(crc / 256, TableEntry(Xor(crc, view[i]) % 256)) == Register(AllOnes, view[..i + 1])
      && IsWord(Xor(crc / 256, TableEntry(Xor(crc, view[i]) % 256)))
  {
    if crc == Register(AllOnes, view[..i]) {
      RegisterWord(AllOnes, view[..i]);
      assert (view[..i + 1])[..i] == view[..i];
      TableStep(crc, view[i]);
      TableEntries();
      XorWord(crc / 256, TableEntry(Xor(crc, view[i]) % 256));
    }
  }

  /** Where the loop stops: the bytes it has fed are the covered ones. */
  lemma CoveredPrefix(view: seq<byte>, ignoreLast4Bytes: bool, len: int, i: nat)
    requires len == if ignoreLast4Bytes then |view| - 4 else |view|
    requires i == if len <= 0 then 0 else len
    ensures view[..i] == CoveredBytes(view, ignoreLast4Bytes)
  {
  }

  /** The final `(crc ^ -1) >>> 0` on the register over the covered bytes is
      the result, and a word. */
  lemma FinalComplement(buffer: seq<byte>, byteOffset: nat, length: nat, headerSize: int, ignoreLast4Bytes: bool,
                        crc: nat)
    requires byteOffset + length <= |buffer| && 0 <= headerSize <= |buffer|
    ensures crc == Register(AllOnes, CoveredBytes(ViewBytes(buffer, byteOffset, length, headerSize), ignoreLast4Bytes))
      ==> Crc32Of(buffer, byteOffset, length, headerSize, ignoreLast4Bytes) == Crc(Xor(crc, AllOnes))
          && IsWord(Xor(crc, AllOnes))
  {
    ChecksumWord(CoveredBytes(ViewBytes(buffer, byteOffset, length, headerSize), ignoreLast4Bytes));
  }

  // ---------------------------------------------------------------------
  // Properties of the checksum.

  /** The register is incremental: feeding `a + b` is feeding `b` into the
      register left by `a`. */
  lemma {:induction false} RegisterAppend(init: nat, a: seq<byte>, b: seq<byte>)
    ensures Register(init, a + b) == Register(Register(init, a), b)
    decreases |b|
  {
    if |b| == 0 {
      assert a + b == a;
    } else {
      var last := |b| - 1;
      assert (a + b)[..|a + b| - 1] == a + b[..last];
      RegisterAppend(init, a, b[..last]);
    }
  }

  /** Feeding bytes keeps a word a word. */
  lemma {:induction false} RegisterWord(init: nat, bytes: seq<byte>)
    requires IsWord(init)
    ensures IsWord(Register(init, bytes))
    decreases |bytes|
  {
    if |bytes| > 0 {
      var front := bytes[..|bytes| - 1];
      var b := bytes[|bytes| - 1];
      RegisterWord(init, front);
      XorWord(Register(init, front), b);
      ReduceWord(Xor(Register(init, front), b), 8);
    }
  }

  /** The final `(crc ^ -1) >>> 0` is the 32-bit complement of the register,
      so the checksum is a word; over no bytes it is 0. */
  lemma ChecksumWord(bytes: seq<byte>)
    ensures Checksum(bytes) == AllOnes - Register(AllOnes, bytes)
    ensures IsWord(Checksum(bytes))
    ensures bytes == [] ==> Checksum(bytes) == 0
  {
    RegisterWord(AllOnes, bytes);
    XorAllOnes(Register(AllOnes, bytes));
  }

  /** A non-zero header offset inside the buffer reads the buffer from
      that offset to its end, whatever the file's own offset and length, as
      a file occupying that part of the buffer with no header would; for a
      file that fills its buffer this is the suffix of the file. Outside
      the buffer it is an error. */
  lemma HeaderIsSuffix(buffer: seq<byte>, byteOffset: nat, length: nat, headerSize: int, ignoreLast4Bytes: bool)
    requires byteOffset + length <= |buffer|
    ensures 0 < headerSize <= |buffer| ==>
      Crc32Of(buffer, byteOffset, length, headerSize, ignoreLast4Bytes)
      == Crc32Of(buffer, headerSize, |buffer| - headerSize, 0, ignoreLast4Bytes)
    ensures byteOffset == 0 && length == |buffer| && 0 <= headerSize <= |buffer| ==>
      Crc32Of(buffer, 0, |buffer|, headerSize, ignoreLast4Bytes)
      == Crc32Of(buffer[headerSize..], 0, |buffer| - headerSize, 0, ignoreLast4Bytes)
    ensures Crc32Of(buffer, byteOffset, length, headerSize, ignoreLast4Bytes) == RangeError
      <==> headerSize < 0 || headerSize > |buffer|
  {
    if 0 < headerSize <= |buffer| {
      assert ViewBytes(buffer, byteOffset, length, headerSize)
        == ViewBytes(buffer, headerSize, |buffer| - headerSize, 0);
    }
    if byteOffset == 0 && length == |buffer| && 0 <= headerSize <= |buffer| {
      assert ViewBytes(buffer, 0, |buffer|, headerSize)
        == ViewBytes(buffer[headerSize..], 0, |buffer| - headerSize, 0);
    }
  }

  /** The bytes covered, as a range of the buffer: the file's own bytes
      `[byteOffset, byteOffset + length)` without a header and
      `[headerSize, |buffer|)` with one, less the last four when
      `ignoreLast4Bytes` is set; when fewer than four bytes are in view the
      loop runs zero times and the result is 0. */
  lemma CoveredRange(buffer: seq<byte>, byteOffset: nat, length: nat, headerSize: int, ignoreLast4Bytes: bool)
    requires byteOffset + length <= |buffer|
    requires 0 <= headerSize <= |buffer|
    ensures var covered := CoveredBytes(ViewBytes(buffer, byteOffset, length, headerSize), ignoreLast4Bytes);
      && (headerSize == 0 && !ignoreLast4Bytes ==> covered == buffer[byteOffset..byteOffset + length])
      && (headerSize == 0 && ignoreLast4Bytes && length >= 4 ==> covered == buffer[byteOffset..byteOffset + length - 4])
      && (headerSize != 0 && !ignoreLast4Bytes ==> covered == buffer[headerSize..])
      && (headerSize != 0 && ignoreLast4Bytes && headerSize + 4 <= |buffer| ==> covered == buffer[headerSize..|buffer| - 4])
    ensures ignoreLast4Bytes && |ViewBytes(buffer, byteOffset, length, headerSize)| < 4 ==>
      Crc32Of(buffer, byteOffset, length, headerSize, ignoreLast4Bytes) == Crc(0)
  {
    if ignoreLast4Bytes && |ViewBytes(buffer, byteOffset, length, headerSize)| < 4 {
      ChecksumWord([]);
    }
  }

  /** Leaving out the last four bytes is checksumming the file cut short by
      four bytes. */
  lemma IgnoreLast4IsTruncation(buffer: seq<byte>, byteOffset: nat, length: nat)
    requires byteOffset + length <= |buffer| && length >= 4
    ensures Crc32Of(buffer, byteOffset, length, 0, true) == Crc32Of(buffer, byteOffset, length - 4, 0, false)
  {
    assert CoveredBytes(ViewBytes(buffer, byteOffset, length, 0), true)
      == CoveredBytes(ViewBytes(buffer, byteOffset, length - 4, 0), false);
  }

  /** The `n` bytes of `x`, least significant first. */
  function LittleEndian(x: nat, n: nat): seq<byte> {
    if n == 0 then [] else [x % 256] + LittleEndian(x / 256, n - 1)
  }

  /** Eight reduction steps after xoring in `x` are eight steps after
      xoring in its low byte, followed by xoring in the rest of `x`. */
  lemma SplitLowByte(c: nat, x: nat)
    ensures Xor(Reduce(Xor(c, x % 256), 8), x / 256) == Reduce(Xor(c, x), 8)
  {
    var lo, hi := x % 256, x / 256;
    var h := Pow2(8) * hi;
    assert Pow2(8) == 256;
    assert h + lo == x;
    XorDisjoint(hi, lo, 8);
    XorComm(lo, h);
    XorAssoc(c, lo, h);
    assert Xor(Xor(c, lo), h) == Xor(c, x);
    ReduceXor(Xor(c, lo), h, 8);
    ReduceOfMultiple(hi, 8);
  }

  /** Feeding the little-endian bytes of an `n`-byte value `x` into the
      register is xoring `x` in and reducing once per bit. */
  lemma {:induction false} FeedLittleEndian(c: nat, x: nat, n: nat)
    requires x < Pow2(8 * n)
    ensures Register(c, LittleEndian(x, n)) == Reduce(Xor(c, x), 8 * n)
    decreases n
  {
    if n == 0 {
      XorZero(c);
    } else {
      var lo, hi := x % 256, x / 256;
      var rest := LittleEndian(hi, n - 1);
      assert Pow2(8) == 256;
      Pow2Add(8, 8 * (n - 1));
      var c' := Reduce(Xor(c, lo), 8);
      calc {
        Register(c, LittleEndian(x, n));
        { RegisterAppend(c, [lo], rest); assert [lo][..0] == []; }
        Register(c', rest);
        { FeedLittleEndian(c', hi, n - 1); }
        Reduce(Xor(c', hi), 8 * (n - 1));
        { SplitLowByte(c, x); }
        Reduce(Reduce(Xor(c, x), 8), 8 * (n - 1));
        { ReduceAdd(Xor(c, x), 8, 8 * (n - 1)); }
        Reduce(Xor(c, x), 8 * n);
      }
    }
  }

  /** The value every message followed by its own checksum, little-endian,
      checksums to. */
  const Residue: nat := Xor(Reduce(AllOnes, 32), AllOnes)

  /** A file whose last four bytes hold, least significant first, the
      checksum of the bytes before them (the checksum `ignoreLast4Bytes`
      computes) has the same whole-file checksum whatever its contents. */
  lemma SelfChecksumResidue(buffer: seq<byte>, byteOffset: nat, length: nat)
    requires byteOffset + length <= |buffer| && length >= 4
    requires buffer[byteOffset + length - 4..byteOffset + length]
      == LittleEndian(Crc32Of(buffer, byteOffset, length, 0, true).value, 4)
    ensures Crc32Of(buffer, byteOffset, length, 0, false) == Crc(Residue)
  {
    var data := buffer[byteOffset..byteOffset + length];
    var body := data[..length - 4];
    var reg := Register(AllOnes, body);
    var crc := Xor(reg, AllOnes);
    assert data == body + buffer[byteOffset + length - 4..byteOffset + length];
    RegisterWord(AllOnes, body);
    WordLimitIsPow2();
    XorWord(reg, AllOnes);
    RegisterAppend(AllOnes, body, LittleEndian(crc, 4));
    FeedLittleEndian(reg, crc, 4);
    XorAssoc(reg, reg, AllOnes);
    XorSelf(reg);
    XorZero(AllOnes);
  }
}
