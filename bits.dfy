/** Unsigned 32-bit words and the JavaScript bitwise operators the CRC code
    uses, written out on natural numbers.

    JavaScript's `^` works on the 32-bit two's-complement pattern of its
    operands; `>>> k` and `& 0xff` read that pattern as unsigned. Every
    word here is the unsigned reading of such a pattern, a natural number
    below 2^32, so `a ^ b` is `Xor(a, b)`, `c >>> 8` is `c / 256`,
    `c & 0xff` is `c % 256` and `c & 1` is `c % 2`. */
module Bits {

  /** One more than the largest unsigned 32-bit word. */
  const WordLimit: nat := 0x1_0000_0000

  /** The word with all 32 bits set: JavaScript's `-1` read as unsigned. */
  const AllOnes: nat := 0xFFFF_FFFF

  predicate IsWord(x: nat) {
    x < WordLimit
  }

  /** 2 to the power `n`. */
  function Pow2(n: nat): (p: nat)
    ensures p >= 1
  {
    if n == 0 then 1 else 2 * Pow2(n - 1)
  }

  /** Bitwise exclusive or: the low bits are added modulo 2, the rest is
      the exclusive or of the halves. */
  function Xor(a: nat, b: nat): nat
    decreases a + b
  {
    if a == 0 && b == 0 then 0 else 2 * Xor(a / 2, b / 2) + (a + b) % 2
  }

  lemma DivMod2(q: nat, r: nat)
    requires r < 2
    ensures (2 * q + r) % 2 == r && (2 * q + r) / 2 == q
  {
  }

  /** The two halves of an exclusive or: its low bit and the rest. */
  lemma XorHalves(a: nat, b: nat)
    ensures Xor(a, b) % 2 == (a + b) % 2
    ensures Xor(a, b) / 2 == Xor(a / 2, b / 2)
  {
    if a != 0 || b != 0 {
      DivMod2(Xor(a / 2, b / 2), (a + b) % 2);
    }
  }

  /** Two numbers with the same low bit and the same upper bits are equal. */
  lemma SameHalves(x: nat, y: nat)
    requires x % 2 == y % 2 && x / 2 == y / 2
    ensures x == y
  {
  }

  lemma {:induction false} XorZero(a: nat)
    ensures Xor(a, 0) == a && Xor(0, a) == a
    decreases a
  {
    if a > 0 {
      XorZero(a / 2);
    }
  }

  lemma {:induction false} XorSelf(a: nat)
    ensures Xor(a, a) == 0
    decreases a
  {
    if a > 0 {
      XorSelf(a / 2);
    }
  }

  lemma {:induction false} XorComm(a: nat, b: nat)
    ensures Xor(a, b) == Xor(b, a)
    decreases a + b
  {
    if a != 0 || b != 0 {
      XorComm(a / 2, b / 2);
    }
  }

  lemma ParityAssoc(a: nat, b: nat, c: nat, ab: nat, bc: nat, l: nat, r: nat)
    requires ab % 2 == (a + b) % 2 && bc % 2 == (b + c) % 2
    requires l % 2 == (ab + c) % 2 && r % 2 == (a + bc) % 2
    ensures l % 2 == r % 2
  {
  }

  lemma {:induction false} XorAssoc(a: nat, b: nat, c: nat)
    ensures Xor(Xor(a, b), c) == Xor(a, Xor(b, c))
    decreases a + b + c
  {
    if a + b + c > 0 {
      var ab, bc := Xor(a, b), Xor(b, c);
      var l, r := Xor(ab, c), Xor(a, bc);
      XorHalves(a, b);
      XorHalves(b, c);
      XorHalves(ab, c);
      XorHalves(a, bc);
      XorAssoc(a / 2, b / 2, c / 2);
      assert l / 2 == r / 2;
      ParityAssoc(a, b, c, ab, bc, l, r);
      SameHalves(l, r);
    }
  }

  /** Xoring the same value into both operands leaves their xor unchanged. */
  lemma XorPairCancel(p: nat, x: nat, y: nat)
    ensures Xor(Xor(p, x), Xor(p, y)) == Xor(x, y)
  {
    XorComm(p, x);
    XorAssoc(x, p, Xor(p, y));
    XorAssoc(p, p, y);
    XorSelf(p);
    XorZero(y);
  }

  /** A value xored into the second operand can be moved to the front. */
  lemma XorSwapFront(x: nat, p: nat, y: nat)
    ensures Xor(x, Xor(p, y)) == Xor(p, Xor(x, y))
  {
    XorAssoc(x, p, y);
    XorComm(x, p);
    XorAssoc(p, x, y);
  }

  /** Exclusive or keeps values inside `n` bits. */
  lemma {:induction false} XorBound(a: nat, b: nat, n: nat)
    requires a < Pow2(n) && b < Pow2(n)
    ensures Xor(a, b) < Pow2(n)
  {
    if n == 0 {
      assert a == 0 && b == 0;
    } else {
      XorBound(a / 2, b / 2, n - 1);
    }
  }

  lemma WordLimitIsPow2()
    ensures WordLimit == Pow2(32)
  {
    assert Pow2(8) == 256;
    assert Pow2(16) == 256 * 256 by {
      Pow2Add(8, 8);
    }
    Pow2Add(16, 16);
  }

  lemma {:induction false} Pow2Add(m: nat, n: nat)
    ensures Pow2(m + n) == Pow2(m) * Pow2(n)
  {
    if n > 0 {
      Pow2Add(m, n - 1);
    }
  }

  /** Exclusive or of two words is a word. */
  lemma XorWord(a: nat, b: nat)
    requires IsWord(a) && IsWord(b)
    ensures IsWord(Xor(a, b))
  {
    WordLimitIsPow2();
    XorBound(a, b, 32);
  }

  lemma OnesHalves(n: nat)
    requires n > 0
    ensures (Pow2(n) - 1) % 2 == 1 && (Pow2(n) - 1) / 2 == Pow2(n - 1) - 1
  {
  }

  lemma ComplementHalves(a: nat, h: nat)
    requires a <= 2 * h + 1
    ensures (2 * h + 1 - a) % 2 == (a + 2 * h + 1) % 2
    ensures (2 * h + 1 - a) / 2 == h - a / 2
  {
  }

  /** Xoring the all-ones word complements every bit. */
  lemma {:induction false} XorOnes(a: nat, n: nat)
    requires a < Pow2(n)
    ensures Xor(a, Pow2(n) - 1) == Pow2(n) - 1 - a
  {
    if n == 0 {
      assert a == 0;
    } else {
      var ones, half := Pow2(n) - 1, Pow2(n - 1) - 1;
      var x := Xor(a, ones);
      OnesHalves(n);
      assert ones == 2 * half + 1;
      XorOnes(a / 2, n - 1);
      XorHalves(a, ones);
      assert x / 2 == half - a / 2;
      ComplementHalves(a, half);
      SameHalves(x, ones - a);
    }
  }

  /** JavaScript's `c ^ -1` on a word is its 32-bit complement. */
  lemma XorAllOnes(a: nat)
    requires IsWord(a)
    ensures Xor(a, AllOnes) == AllOnes - a
  {
    WordLimitIsPow2();
    XorOnes(a, 32);
  }

  /** Bits of `q` shifted above `n` low bits of `r` do not overlap them,
      so their exclusive or is their sum. */
  lemma {:induction false} XorDisjoint(q: nat, r: nat, n: nat)
    requires r < Pow2(n)
    ensures Xor(Pow2(n) * q, r) == Pow2(n) * q + r
  {
    if n == 0 {
      XorZero(q);
    } else {
      var hi := Pow2(n) * q;
      assert hi == 2 * (Pow2(n - 1) * q);
      XorDisjoint(q, r / 2, n - 1);
      XorHalves(hi, r);
      SameHalves(Xor(hi, r), hi + r);
    }
  }

  /** A byte xored into a word changes only its low byte:
      `(c ^ b) >>> 8 == c >>> 8` and `(c ^ b) & 0xff == (c & 0xff) ^ b`. */
  lemma XorByte(c: nat, b: nat)
    requires b < 256
    ensures Xor(c, b) == 256 * (c / 256) + Xor(c % 256, b)
    ensures Xor(c, b) / 256 == c / 256
    ensures Xor(c, b) % 256 == Xor(c % 256, b)
  {
    var h, l := c / 256, c % 256;
    assert Pow2(8) == 256;
    XorDisjoint(h, l, 8);
    assert c == Xor(256 * h, l);
    XorAssoc(256 * h, l, b);
    XorBound(l, b, 8);
    XorDisjoint(h, Xor(l, b), 8);
  }
}
