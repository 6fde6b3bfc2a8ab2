/** Machine words as bounded integers, and the bit operations on them that the program uses. */
module Words {

  type byte = x: int | 0 <= x < 256

  type uint32 = x: int | 0 <= x < 0x1_0000_0000

  /** Unsigned 32-bit addition: wraps. */
  function Add32(a: uint32, b: uint32): uint32 {
    (a + b) % 0x1_0000_0000
  }

  function Bit(a: nat): nat {
    if a % 2 == 0 then 0 else 1
  }

  /** Bitwise exclusive or. */
  function Xor(a: nat, b: nat): nat {
    if a == 0 && b == 0 then 0 else 2 * Xor(a / 2, b / 2) + if Bit(a) == Bit(b) then 0 else 1
  }

  /** The low `k` bits of a number. */
  function Low(a: nat, k: nat): nat {
    if k == 0 then 0 else 2 * Low(a / 2, k - 1) + Bit(a)
  }

  lemma XorParts(a: nat, b: nat)
    ensures Bit(Xor(a, b)) == (if Bit(a) == Bit(b) then 0 else 1)
    ensures Xor(a, b) / 2 == Xor(a / 2, b / 2)
  {
    if a > 0 || b > 0 {
      var x := Xor(a / 2, b / 2);
      assert Xor(a, b) == 2 * x + if Bit(a) == Bit(b) then 0 else 1;
    }
  }

  lemma LowParts(a: nat, k: nat)
    requires k > 0
    ensures Bit(Low(a, k)) == Bit(a) && Low(a, k) / 2 == Low(a / 2, k - 1)
  {
  }

  lemma FromParts(x: nat, y: nat)
    requires Bit(x) == Bit(y) && x / 2 == y / 2
    ensures x == y
  {
  }

  lemma {:induction false} XorLow(a: nat, b: nat, k: nat)
    ensures Low(Xor(a, b), k) == Xor(Low(a, k), Low(b, k))
    decreases k, 1
  {
    if k > 0 {
      XorLowStep(a, b, k);
    }
  }

  lemma XorLowStep(a: nat, b: nat, k: nat)
    requires k > 0
    ensures Low(Xor(a, b), k) == Xor(Low(a, k), Low(b, k))
    decreases k, 0
  {
    hide Xor;
    hide Low;
    hide Bit;
    XorLow(a / 2, b / 2, k - 1);
    XorParts(a, b);
    XorParts(Low(a, k), Low(b, k));
    LowParts(a, k);
    LowParts(b, k);
    LowParts(Xor(a, b), k);
    FromParts(Low(Xor(a, b), k), Xor(Low(a, k), Low(b, k)));
  }

  lemma {:induction false} XorCommutes(a: nat, b: nat)
    ensures Xor(a, b) == Xor(b, a)
  {
    if a > 0 || b > 0 {
      XorCommutes(a / 2, b / 2);
    }
  }

  /** Doing it again undoes an exclusive or. */
  lemma {:induction false} XorCancels(a: nat, b: nat)
    ensures Xor(Xor(a, b), b) == a
  {
    if a > 0 || b > 0 {
      XorCancels(a / 2, b / 2);
      XorParts(a, b);
      XorParts(Xor(a, b), b);
      hide Xor;
      FromParts(Xor(Xor(a, b), b), a);
    }
  }

  /** Bit k of an exclusive or is set exactly when bit k of one operand is, but not of both. */
  lemma {:induction false} XorBits(a: nat, b: nat, k: nat)
    ensures Xor(a, b) / Pow2(k) % 2 == 1 <==> (a / Pow2(k) % 2 == 1) != (b / Pow2(k) % 2 == 1)
    decreases k
  {
    XorParts(a, b);
    hide Xor;
    if k > 0 {
      XorBits(a / 2, b / 2, k - 1);
      HalfDiv(a, Pow2(k - 1));
      HalfDiv(b, Pow2(k - 1));
      HalfDiv(Xor(a, b), Pow2(k - 1));
    }
  }

  lemma HalfDiv(a: nat, p: nat)
    requires p > 0
    ensures a / (2 * p) == a / 2 / p
  {
    HalfMod(a, p);
    assert a == 2 * p * (a / (2 * p)) + a % (2 * p);
    assert a / 2 == p * (a / 2 / p) + a / 2 % p;
    assert 2 * p * (a / (2 * p)) == 2 * p * (a / 2 / p);
    SameFactor(2 * p, a / (2 * p), a / 2 / p);
  }

  lemma SameFactor(p: nat, m: int, n: int)
    requires p > 0 && p * m == p * n
    ensures m == n
  {
    assert p * (m - n) == 0;
  }

  function Pow2(k: nat): (p: nat)
    ensures p > 0
  {
    if k == 0 then 1 else 2 * Pow2(k - 1)
  }

  lemma HalfMod(a: nat, p: nat)
    requires p > 0
    ensures a % (2 * p) == 2 * (a / 2 % p) + a % 2
  {
    var q, r := a / 2 / p, a / 2 % p;
    assert a / 2 == q * p + r;
    assert a == (2 * p) * q + (a % 2 + 2 * r);
    ModIs(a, 2 * p, q, a % 2 + 2 * r);
  }

  lemma ModIs(a: nat, p: nat, q: nat, r: nat)
    requires r < p && a == p * q + r
    ensures a % p == r
  {
    var d: int := a / p - q;
    assert a == p * (a / p) + a % p;
    assert p * d == r - a % p;
    assert d > 0 ==> p * d >= p;
    assert d < 0 ==> p * d + p <= 0;
  }

  lemma {:induction false} LowIsMod(a: nat, k: nat)
    ensures Low(a, k) == a % Pow2(k)
    decreases k
  {
    if k > 0 {
      LowIsMod(a / 2, k - 1);
      HalfMod(a, Pow2(k - 1));
    }
  }

  lemma {:induction false} XorBound(a: nat, b: nat, k: nat)
    requires a < Pow2(k) && b < Pow2(k)
    ensures Xor(a, b) < Pow2(k)
    decreases k
  {
    if k > 0 {
      XorBound(a / 2, b / 2, k - 1);
    }
  }

  lemma {:induction false} Pow2Doubles(k: nat, p: nat)
    requires Pow2(k) == p
    ensures Pow2(k + 4) == 16 * p
  {
    assert Pow2(k + 4) == 2 * Pow2(k + 3) && Pow2(k + 3) == 2 * Pow2(k + 2) && Pow2(k + 2) == 2 * Pow2(k + 1);
  }

  lemma WordSizes()
    ensures Pow2(16) == 0x1_0000 && Pow2(32) == 0x1_0000_0000
  {
    Pow2Doubles(0, 1);
    Pow2Doubles(4, 16);
    Pow2Doubles(8, 256);
    Pow2Doubles(12, 4096);
    Pow2Doubles(16, 0x1_0000);
    Pow2Doubles(20, 0x10_0000);
    Pow2Doubles(24, 0x100_0000);
    Pow2Doubles(28, 0x1000_0000);
  }

  function Xor32(a: uint32, b: uint32): (r: uint32)
    ensures r == Xor(a, b)
  {
    WordSizes();
    XorBound(a, b, 32);
    Xor(a, b)
  }

  /** The low sixteen bits of an exclusive or depend only on the low sixteen bits of its operands. */
  lemma Xor16(a: uint32, b: uint32)
    ensures Xor32(a, b) % 0x1_0000 == Xor(a % 0x1_0000, b % 0x1_0000)
  {
    WordSizes();
    LowIsMod(a, 16);
    LowIsMod(b, 16);
    LowIsMod(Xor32(a, b), 16);
    XorLow(a, b, 16);
  }
}
