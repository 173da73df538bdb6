/** The 256-entry lookup table of the table-driven CRC-32 and the bitwise
    reduction by the reflected polynomial 0xEDB88320 it is built from. */
module CrcTable {
  import opened Bits

  /** The reflected CRC-32 generator polynomial. */
  const Polynomial: nat := 0xEDB8_8320

  /** One step of the bitwise reduction, `(c & 1) ? 0xedb88320 ^ (c >>> 1)
      : c >>> 1`: shift the register right by one bit and, when the bit
      shifted out was set, xor in the polynomial. */
  function ReduceBit(c: nat): nat {
    if c % 2 == 1 then Xor(Polynomial, c / 2) else c / 2
  }

  /** `k` consecutive reduction steps starting from `c`. */
  function Reduce(c: nat, k: nat): nat {
    if k == 0 then c else ReduceBit(Reduce(c, k - 1))
  }

  /** Entry `n` of the table: byte value `n` reduced eight times. */
  function TableEntry(n: nat): nat
    requires n < 256
  {
    Reduce(n, 8)
  }

  /** `table` holds exactly the 256 entries of the CRC-32 table. */
  ghost predicate IsCrcTable(table: array<nat>)
    reads table
  {
    table.Length == 256 && forall n :: 0 <= n < 256 ==> table[n] == TableEntry(n)
  }

  /** The initialiser of the table constant: for every byte value, run the
      reduction eight times and store the register. */
  method BuildCrcTable() returns (crcTable: array<nat>)
    ensures fresh(crcTable)
    ensures IsCrcTable(crcTable)
    ensures forall n :: 0 <= n < 256 ==> IsWord(crcTable[n])
  {
    crcTable := new nat[256];
    for n := 0 to 256
      invariant forall m :: 0 <= m < n ==> crcTable[m] == TableEntry(m) && IsWord(crcTable[m])
    {
      var c := n;
      for k := 0 to 8
        invariant c == Reduce(n, k)
      {
        c := ReduceBit(c);
      }
      ReduceWord(n, 8);
      crcTable[n] := c;
    }
  }

  /** The reduction keeps a word a word. */
  lemma ReduceBitWord(c: nat)
    requires IsWord(c)
    ensures IsWord(ReduceBit(c))
  {
    if c % 2 == 1 {
      XorWord(Polynomial, c / 2);
    }
  }

  lemma {:induction false} ReduceWord(c: nat, k: nat)
    requires IsWord(c)
    ensures IsWord(Reduce(c, k))
  {
    if k > 0 {
      ReduceWord(c, k - 1);
      ReduceBitWord(Reduce(c, k - 1));
    }
  }

  /** Every table entry is a 32-bit word, and entry 0 is 0. */
  lemma TableEntries()
    ensures forall n :: 0 <= n < 256 ==> IsWord(TableEntry(n))
    ensures TableEntry(0) == 0
  {
    forall n | 0 <= n < 256
      ensures IsWord(TableEntry(n))
    {
      ReduceWord(n, 8);
    }
    ReduceZero(8);
  }

  lemma {:induction false} ReduceZero(k: nat)
    ensures Reduce(0, k) == 0
  {
    if k > 0 {
      ReduceZero(k - 1);
    }
  }

  // ---------------------------------------------------------------------
  // The reduction is linear over xor, which is what lets one table lookup
  // stand for eight bitwise steps.

  /** One reduction step is linear over xor. */
  lemma ReduceBitXor(a: nat, b: nat)
    ensures ReduceBit(Xor(a, b)) == Xor(ReduceBit(a), ReduceBit(b))
  {
    XorHalves(a, b);
    if a % 2 == 1 && b % 2 == 1 {
      assert Xor(a, b) % 2 == 0;
      XorPairCancel(Polynomial, a / 2, b / 2);
    } else if a % 2 == 1 {
      assert Xor(a, b) % 2 == 1;
      XorAssoc(Polynomial, a / 2, b / 2);
    } else if b % 2 == 1 {
      assert Xor(a, b) % 2 == 1;
      XorSwapFront(a / 2, Polynomial, b / 2);
    } else {
      assert Xor(a, b) % 2 == 0;
    }
  }

  /** Reducing the xor of two registers is the xor of their reductions. */
  lemma {:induction false} ReduceXor(a: nat, b: nat, k: nat)
    ensures Reduce(Xor(a, b), k) == Xor(Reduce(a, k), Reduce(b, k))
  {
    if k > 0 {
      ReduceXor(a, b, k - 1);
      ReduceBitXor(Reduce(a, k - 1), Reduce(b, k - 1));
    }
  }

  /** Reduction steps compose. */
  lemma {:induction false} ReduceAdd(c: nat, j: nat, k: nat)
    ensures Reduce(Reduce(c, j), k) == Reduce(c, j + k)
  {
    if k > 0 {
      ReduceAdd(c, j, k - 1);
    }
  }

  /** Bits above the low `k` only move down: the polynomial is never
      xored in while the bits shifted out are clear. */
  lemma {:induction false} ReduceOfMultiple(q: nat, k: nat)
    ensures Reduce(Pow2(k) * q, k) == q
    decreases k
  {
    if k > 0 {
      assert Pow2(k) * q == Pow2(k - 1) * (2 * q);
      ReduceOfMultiple(2 * q, k - 1);
    }
  }

  /** One table lookup equals eight bitwise steps: feeding byte `b` into the
      register `crc` bit by bit gives `(crc >>> 8) ^ table[(crc ^ b) & 0xff]`. */
  lemma TableStep(crc: nat, b: nat)
    requires b < 256
    ensures Reduce(Xor(crc, b), 8) == Xor(crc / 256, TableEntry(Xor(crc, b) % 256))
  {
    var c := Xor(crc, b);
    var q, r := c / 256, c % 256;
    assert Pow2(8) == 256;
    XorDisjoint(q, r, 8);
    assert c == Xor(256 * q, r);
    ReduceXor(256 * q, r, 8);
    ReduceOfMultiple(q, 8);
    XorByte(crc, b);
  }
}
