/** C's unsigned words as naturals, with the bitwise operators defined bit by bit. */
module Bits {

  const U32: nat := 0x1_0000_0000
  const U64: nat := 0x1_0000_0000_0000_0000

  type Word = x: nat | x < U64
  type Byte = x: nat | x < 256

  function Pow2(k: nat): (p: nat)
    ensures p > 0
  {
    if k == 0 then 1 else 2 * Pow2(k - 1)
  }

  /** The word whose `k` lowest bits are set. */
  function Ones(k: nat): nat {
    if k == 0 then 0 else 2 * Ones(k - 1) + 1
  }

  function BitAnd(x: nat, y: nat): nat {
    if x == 0 || y == 0 then 0
    else 2 * BitAnd(x / 2, y / 2) + (if x % 2 == 1 && y % 2 == 1 then 1 else 0)
  }

  function BitOr(x: nat, y: nat): nat
    decreases x + y
  {
    if x == 0 then y else if y == 0 then x
    else 2 * BitOr(x / 2, y / 2) + (if x % 2 == 1 || y % 2 == 1 then 1 else 0)
  }

  /** `~x` at 32 bits. */
  function BitNot32(x: nat): nat
    requires x < U32
  {
    U32 - 1 - x
  }

  /** `x << k` before it is cut to the word's width. */
  function Shl(x: nat, k: nat): nat
    decreases k, x
  {
    if k == 0 then x else 2 * Shl(x, k - 1)
  }

  /** `x >> k`. */
  function Shr(x: nat, k: nat): nat
    decreases k, x
  {
    if k == 0 then x else Shr(x / 2, k - 1)
  }

  /** Is bit `k` of `x` set? */
  predicate TestBit(x: nat, k: nat)
    decreases k
  {
    if k == 0 then x % 2 == 1 else TestBit(x / 2, k - 1)
  }

  lemma AndDouble(x: nat, y: nat)
    ensures BitAnd(x, 2 * y) == 2 * BitAnd(x / 2, y)
  {
  }

  lemma Reassociate(a: nat, b: nat)
    ensures 2 * a * b == 2 * (a * b)
  {
  }

  lemma TestZero(k: nat)
    ensures !TestBit(0, k)
    decreases k
  {
  }

  lemma {:induction false} TestAnd(x: nat, y: nat, k: nat)
    ensures TestBit(BitAnd(x, y), k) <==> TestBit(x, k) && TestBit(y, k)
    decreases k
  {
    if x == 0 || y == 0 {
      TestZero(k);
    } else if k > 0 {
      TestAnd(x / 2, y / 2, k - 1);
    }
  }

  lemma {:induction false} TestOr(x: nat, y: nat, k: nat)
    ensures TestBit(BitOr(x, y), k) <==> TestBit(x, k) || TestBit(y, k)
    decreases k
  {
    if x == 0 || y == 0 {
      TestZero(k);
    } else if k > 0 {
      TestOr(x / 2, y / 2, k - 1);
    }
  }

  lemma {:induction false} TestPow2(j: nat, k: nat)
    ensures TestBit(Pow2(j), k) <==> j == k
    decreases k
  {
    if k == 0 || j == 0 {
      if k > 0 { TestZero(k - 1); }
    } else {
      TestPow2(j - 1, k - 1);
    }
  }

  lemma {:induction false} TestOnes(n: nat, k: nat)
    ensures TestBit(Ones(n), k) <==> k < n
    decreases k
  {
    if n == 0 {
      TestZero(k);
    } else if k > 0 {
      TestOnes(n - 1, k - 1);
    }
  }

  /** Complementing an `n`-bit word flips every one of its bits. */
  lemma {:induction false} TestComplement(n: nat, x: nat, k: nat)
    requires x <= Ones(n) && k < n
    ensures TestBit(Ones(n) - x, k) <==> !TestBit(x, k)
    decreases k
  {
    if k > 0 {
      assert (Ones(n) - x) / 2 == Ones(n - 1) - x / 2;
      TestComplement(n - 1, x / 2, k - 1);
    }
  }

  lemma TestNot32(x: nat, k: nat)
    requires x < U32 && k < 32
    ensures TestBit(BitNot32(x), k) <==> !TestBit(x, k)
  {
    Powers();
    OnesIsPow2(32);
    TestComplement(32, x, k);
  }

  /** A mask of one bit tests that bit. */
  lemma {:induction false} AndPow2(x: nat, k: nat)
    ensures BitAnd(x, Pow2(k)) != 0 <==> TestBit(x, k)
    decreases k
  {
    if x == 0 {
      TestZero(k);
    } else if k > 0 {
      AndPow2(x / 2, k - 1);
    }
  }

  lemma {:induction false} OnesIsPow2(k: nat)
    ensures Ones(k) == Pow2(k) - 1
  {
    if k > 0 { OnesIsPow2(k - 1); }
  }

  lemma {:induction false} OrBound(x: nat, y: nat, n: nat)
    requires x < Pow2(n) && y < Pow2(n)
    ensures BitOr(x, y) < Pow2(n)
    decreases n
  {
    if n > 0 && x != 0 && y != 0 {
      OrBound(x / 2, y / 2, n - 1);
    }
  }

  lemma {:induction false} AndBound(x: nat, y: nat)
    ensures BitAnd(x, y) <= x && BitAnd(x, y) <= y
  {
    if x != 0 && y != 0 { AndBound(x / 2, y / 2); }
  }

  lemma {:induction false} MulStep(d: nat, a: nat, b: nat)
    ensures a < b ==> d * a + d <= d * b
    decreases b
  {
    if a + 1 < b {
      MulStep(d, a, b - 1);
      assert d * b == d * (b - 1) + d;
    } else if a + 1 == b {
      assert d * b == d * a + d;
    }
  }

  /** Dividing is characterised by quotient and remainder. */
  lemma DivMod(x: nat, d: nat, q: nat, r: nat)
    requires d > 0 && x == d * q + r && r < d
    ensures x / d == q && x % d == r
  {
    MulStep(d, q, x / d);
    MulStep(d, x / d, q);
  }

  /** The two ways of dividing by `2 * d`. */
  lemma HalveFirst(x: nat, d: nat)
    requires d > 0
    ensures x / (2 * d) == (x / 2) / d
    ensures x % (2 * d) == 2 * ((x / 2) % d) + x % 2
  {
    var q, r := (x / 2) / d, (x / 2) % d;
    assert x / 2 == d * q + r;
    assert x == 2 * (d * q + r) + x % 2 == (2 * d) * q + (2 * r + x % 2);
    DivMod(x, 2 * d, q, 2 * r + x % 2);
  }

  /** The powers of two that the kernel's masks and shifts use. */
  lemma Powers()
    ensures Pow2(7) == 0x80 && Pow2(8) == 0x100 && Pow2(9) == 0x200 && Pow2(12) == 0x1000
    ensures Pow2(16) == 0x1_0000 && Pow2(24) == 0x100_0000 && Pow2(32) == U32
    ensures Pow2(40) == 0x100_0000_0000
  {
  }

  lemma {:induction false} Pow2Add(a: nat, b: nat)
    ensures Pow2(a + b) == Pow2(a) * Pow2(b)
    decreases a
  {
    if a > 0 {
      Pow2Add(a - 1, b);
      Reassociate(Pow2(a - 1), Pow2(b));
    }
  }

  /** Masking with low ones is taking a remainder. */
  lemma {:induction false} AndOnes(x: nat, k: nat)
    ensures BitAnd(x, Ones(k)) == x % Pow2(k)
    decreases k
  {
    if k > 0 {
      HalveFirst(x, Pow2(k - 1));
      AndOnes(x / 2, k - 1);
      if x != 0 { assert Ones(k) / 2 == Ones(k - 1); }
    }
  }

  /** A shifted mask ignores the bits shifted in. */
  lemma {:induction false} AndShl(x: nat, y: nat, k: nat)
    ensures BitAnd(x, Shl(y, k)) == Shl(BitAnd(Shr(x, k), y), k)
    decreases k
  {
    if k > 0 {
      AndShl(x / 2, y, k - 1);
      AndDouble(x, Shl(y, k - 1));
    }
  }

  /** Joining words whose set bits do not overlap is adding them. */
  lemma {:induction false} OrShl(x: nat, y: nat, k: nat)
    requires y < Pow2(k)
    ensures BitOr(Shl(x, k), y) == Shl(x, k) + y
    decreases k
  {
    if k > 0 {
      OrShl(x, y / 2, k - 1);
      assert Shl(x, k) / 2 == Shl(x, k - 1);
    }
  }

  lemma {:induction false} ShlIsTimes(x: nat, k: nat)
    ensures Shl(x, k) == Pow2(k) * x
    decreases k
  {
    if k > 0 {
      ShlIsTimes(x, k - 1);
      Reassociate(Pow2(k - 1), x);
    }
  }

  lemma {:induction false} ShrIsDivide(x: nat, k: nat)
    ensures Shr(x, k) == x / Pow2(k)
    decreases k
  {
    if k > 0 {
      ShrIsDivide(x / 2, k - 1);
      HalveFirst(x, Pow2(k - 1));
    }
  }

  // The bytes of a little-endian word.

  function GetByte(w: nat, k: nat): (b: Byte)
    decreases k
  {
    if k == 0 then w % 256 else GetByte(w / 256, k - 1)
  }

  function SetByte(w: nat, k: nat, b: Byte): nat
    decreases k
  {
    if k == 0 then w - w % 256 + b else w % 256 + 256 * SetByte(w / 256, k - 1, b)
  }

  lemma {:induction false} GetSetByte(w: nat, k: nat, b: Byte, j: nat)
    ensures GetByte(SetByte(w, k, b), j) == if j == k then b else GetByte(w, j)
    decreases k
  {
    if k == 0 {
      assert (w - w % 256 + b) / 256 == w / 256;
    } else if j > 0 {
      GetSetByte(w / 256, k - 1, b, j - 1);
    }
  }

  lemma {:induction false} SetByteBound(w: nat, k: nat, b: Byte, n: nat)
    requires k < n && w < Pow2(8 * n)
    ensures SetByte(w, k, b) < Pow2(8 * n)
    decreases n
  {
    var p := Pow2(8 * (n - 1));
    Pow2Add(8, 8 * (n - 1));
    Powers();
    assert Pow2(8 * n) == 256 * p;
    if k > 0 { SetByteBound(w / 256, k - 1, b, n - 1); }
  }

  /** A 64-bit word with one byte replaced. */
  function SetWordByte(w: Word, k: nat, b: Byte): Word
    requires k < 8
  {
    Powers();
    Pow2Add(32, 32);
    SetByteBound(w, k, b, 8);
    SetByte(w, k, b)
  }
}
