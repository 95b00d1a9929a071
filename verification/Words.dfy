/** Machine words of 64 bits, and the bit tricks that find the lowest set bit. */
module Words {
  import opened ConstantRange

  const WORD: nat := Pow2(64)

  /** The word that an integer becomes. */
  function W(x: int): (r: int)
    ensures 0 <= r < WORD
  {
    Wrap(x, WORD)
  }

  lemma Halved(p: nat, q: nat)
    requires p == 2 * q
    ensures p % 2 == 0 && p / 2 == q
  {
  }

  lemma Pow2Step(k: nat)
    requires k > 0
    ensures Pow2(k) == 2 * Pow2(k - 1)
  {
  }

  lemma Pow2Half(k: nat, p: nat)
    requires k >= 2 && p == Pow2(k)
    ensures p >= 4 && p % 2 == 0 && p == 2 * (p / 2) && p / 2 == Pow2(k - 1)
  {
    hide Pow2;
    Pow2Step(k);
    Pow2Step(k - 1);
    Halved(p, Pow2(k - 1));
  }

  lemma WordBig()
    ensures WORD >= 4 && WORD % 2 == 0 && WORD == 2 * (WORD / 2) && WORD / 2 == Pow2(63)
  {
    hide Pow2;
    Pow2Half(64, WORD);
  }

  lemma WCong(x: int, y: int, k: int)
    requires x == y + k * WORD
    ensures W(x) == W(y)
  {
    WrapCongruent(x, y, k, WORD);
  }

  lemma WQuotient(x: int) returns (k: int)
    ensures x == W(x) + k * WORD
  {
    k := x / WORD;
  }

  lemma WSmall(x: int)
    requires 0 <= x < WORD
    ensures W(x) == x
  {
    WrapSmall(x, WORD);
  }

  lemma WAdd(a: int, b: int)
    ensures W(W(a) + b) == W(a + b)
  {
    hide W, Wrap, Pow2;
    var k := WQuotient(a);
    WCong(a + b, W(a) + b, k);
  }

  lemma WMul(a: int, b: int)
    ensures W(W(a) * b) == W(a * b)
  {
    hide W, Wrap, Pow2;
    var k := WQuotient(a);
    assert a * b == W(a) * b + (k * b) * WORD by { Expand(W(a), k, WORD, b); }
    WCong(a * b, W(a) * b, k * b);
  }

  lemma Expand(r: int, k: int, m: int, b: int)
    ensures (r + k * m) * b == r * b + (k * b) * m
  {
    assert (r + k * m) * b == r * b + (k * m) * b;
    assert (k * m) * b == (k * b) * m;
  }

  /** Words that agree as words may replace each other in a sum. */
  lemma WSame(a: int, b: int, c: int)
    requires W(a) == W(b)
    ensures W(a + c) == W(b + c)
  {
    hide W, Wrap, Pow2;
    WAdd(a, c);
    WAdd(b, c);
  }

  lemma WNegSame(a: int, b: int, c: int)
    requires W(a) == W(b)
    ensures W(c - a) == W(c - b)
  {
    hide W, Wrap, Pow2;
    var j := WQuotient(a);
    var k := WQuotient(b);
    assert c - a == (c - b) + (k - j) * WORD by { assert (k - j) * WORD == k * WORD - j * WORD; }
    WCong(c - a, c - b, k - j);
  }

  // ----- Bits -----

  lemma {:induction false} OrIsSum(x: nat, c: nat)
    requires BitAnd(x, c) == 0
    ensures BitOr(x, c) == x + c
    decreases x
  {
    if x > 0 && c > 0 { OrIsSum(x / 2, c / 2); }
  }

  function BitXor(x: nat, y: nat): (r: nat)
    decreases x
  {
    if x == 0 then y else if y == 0 then x
    else 2 * BitXor(x / 2, y / 2) + (if (x % 2 == 1) != (y % 2 == 1) then 1 else 0)
  }

  /** The exponent of the lowest set bit. */
  function LowExp(x: nat): (k: nat)
    requires x > 0
    decreases x
  {
    if x % 2 == 1 then 0 else 1 + LowExp(x / 2)
  }

  predicate Divides(d: nat, x: int)
    requires d > 0
  {
    x % d == 0
  }

  lemma DividesMul(d: nat, x: int, y: int)
    requires d > 0 && Divides(d, x)
    ensures Divides(d, x * y)
  {
    var q := x / d;
    assert x * y == (q * y) * d by { assert x == q * d; Rearrange(q, d, y); }
    DivModUnique(x * y, q * y, 0, d);
  }

  lemma Rearrange(q: int, d: int, y: int)
    ensures (q * d) * y == (q * y) * d
  {
  }

  lemma DividesSum(d: nat, x: int, y: int)
    requires d > 0 && Divides(d, x) && Divides(d, y)
    ensures Divides(d, x + y)
  {
    assert x + y == (x / d + y / d) * d by { assert x == (x / d) * d && y == (y / d) * d; Distribute(x / d, y / d, d); }
    DivModUnique(x + y, x / d + y / d, 0, d);
  }

  lemma Commute(a: int, b: int)
    ensures a * b == b * a
  {
  }

  lemma Assoc(a: int, b: int, c: int)
    ensures (a * b) * c == a * (b * c)
  {
  }

  lemma MulSum(a: int, b: int, c: int)
    ensures a * (b + c) == a * b + a * c
  {
  }

  lemma Distribute(a: int, b: int, d: int)
    ensures (a + b) * d == a * d + b * d
  {
  }

  /** Adding a multiple changes no remainder. */
  lemma RemainderSame(d: nat, x: int, y: int)
    requires d > 0 && Divides(d, y)
    ensures (x + y) % d == x % d
  {
    WrapCongruent(x + y, x, y / d, d);
  }

  lemma {:induction false} Pow2Divides(j: nat, k: nat)
    requires j <= k
    ensures Divides(Pow2(j), Pow2(k))
    decreases k
  {
    if j < k {
      Pow2Divides(j, k - 1);
      DividesMul(Pow2(j), Pow2(k - 1), 2);
    } else {
      DivModUnique(Pow2(k), 1, 0, Pow2(k));
    }
  }

  /** Twice a divisor divides twice the number. */
  lemma DividesDouble(d: nat, x: int)
    requires d > 0 && Divides(d, x)
    ensures Divides(2 * d, 2 * x)
  {
    var q := x / d;
    assert 2 * x == q * (2 * d) by { assert x == q * d; Rearrange(q, d, 2); }
    DivModUnique(2 * x, q, 0, 2 * d);
  }

  /** The lowest set bit of an or divides both. */
  lemma {:induction false} LowBitDivides(x: nat, y: nat)
    requires BitOr(x, y) > 0
    ensures Divides(Pow2(LowExp(BitOr(x, y))), x) && Divides(Pow2(LowExp(BitOr(x, y))), y)
    decreases x
  {
    var o := BitOr(x, y);
    if o % 2 == 1 {
      assert Pow2(LowExp(o)) == 1;
    } else {
      OrEven(x, y);
      var d := Pow2(LowExp(BitOr(x / 2, y / 2)));
      if x > 0 { LowBitDivides(x / 2, y / 2); } else { LowBitSelf(y / 2); }
      assert Pow2(LowExp(o)) == 2 * d;
      DividesDouble(d, x / 2);
      DividesDouble(d, y / 2);
    }
  }

  lemma OrEven(x: nat, y: nat)
    requires BitOr(x, y) > 0 && BitOr(x, y) % 2 == 0
    ensures x % 2 == 0 && y % 2 == 0 && BitOr(x / 2, y / 2) == BitOr(x, y) / 2 > 0
  {
  }

  lemma {:induction false} LowBitSelf(y: nat)
    requires y > 0
    ensures BitOr(0, y) == y && Divides(Pow2(LowExp(y)), y) && Divides(Pow2(LowExp(y)), 0)
    decreases y
  {
    if y % 2 == 1 {
      assert Pow2(LowExp(y)) == 1;
    } else {
      LowBitSelf(y / 2);
      DividesDouble(Pow2(LowExp(y / 2)), y / 2);
    }
  }

  /** What is left of x after clearing its lowest set bit, taken out of x, is that bit. */
  lemma {:induction false} LowestSetBit(x: nat)
    requires x > 0
    ensures BitXor(x, BitAnd(x, x - 1)) == Pow2(LowExp(x))
    decreases x
  {
    if x % 2 == 1 {
      AndEven(x);
      XorOdd(x);
    } else {
      LowestSetBit(x / 2);
      LowBitEven(x);
    }
  }

  lemma XorOdd(x: nat)
    requires x % 2 == 1
    ensures BitXor(x, x - 1) == 1
  {
    XorSelf(x / 2);
    assert (x - 1) / 2 == x / 2;
  }

  lemma AndStep(x: nat, y: nat)
    ensures BitAnd(x, y) == 2 * BitAnd(x / 2, y / 2) + (if x % 2 == 1 && y % 2 == 1 then 1 else 0)
  {
  }

  lemma XorStep(x: nat, y: nat)
    ensures BitXor(x, y) == 2 * BitXor(x / 2, y / 2) + (if (x % 2 == 1) != (y % 2 == 1) then 1 else 0)
  {
  }

  lemma LowBitEven(x: nat)
    requires x > 0 && x % 2 == 0
    ensures BitXor(x, BitAnd(x, x - 1)) == 2 * BitXor(x / 2, BitAnd(x / 2, x / 2 - 1))
  {
    hide BitXor, BitAnd;
    assert (x - 1) / 2 == x / 2 - 1;
    AndStep(x, x - 1);
    XorStep(x, BitAnd(x, x - 1));
  }

  lemma AndEven(x: nat)
    requires x % 2 == 1
    ensures BitAnd(x, x - 1) == x - 1
  {
    AndSelf(x / 2);
    assert (x - 1) / 2 == x / 2;
  }

  lemma {:induction false} AndSelf(x: nat)
    ensures BitAnd(x, x) == x
    decreases x
  {
    if x > 0 { AndSelf(x / 2); }
  }

  lemma {:induction false} XorSelf(x: nat)
    ensures BitXor(x, x) == 0
    decreases x
  {
    if x > 0 { XorSelf(x / 2); }
  }

  lemma MaskStep(x: nat, p: nat)
    requires p > 0
    ensures BitAnd(x, 2 * p - 1) == 2 * BitAnd(x / 2, p - 1) + x % 2
  {
    assert (2 * p - 1) / 2 == p - 1 && (2 * p - 1) % 2 == 1;
  }

  /** Masking with the bits below a power of two is taking the remainder. */
  lemma {:induction false} MaskIsRemainder(x: nat, k: nat)
    ensures BitAnd(x, Pow2(k) - 1) == x % Pow2(k)
    decreases k
  {
    hide BitAnd;
    if k == 0 {
      assert BitAnd(x, 0) == 0 by { MaskNone(x); }
    } else {
      MaskIsRemainder(x / 2, k - 1);
      MaskStep(x, Pow2(k - 1));
      HalfRemainder(x, Pow2(k - 1));
    }
  }

  lemma MaskNone(x: nat)
    ensures BitAnd(x, 0) == 0
  {
  }

  lemma HalfRemainder(x: nat, p: nat)
    requires p > 0
    ensures x % (2 * p) == 2 * ((x / 2) % p) + x % 2
  {
    var q, r := (x / 2) / p, (x / 2) % p;
    assert x == q * (2 * p) + (2 * r + x % 2) by { assert x / 2 == q * p + r; Rearrange(q, p, 2); }
    DivModUnique(x, q, 2 * r + x % 2, 2 * p);
  }

  /** The lowest set bit of a number of k bits is one of them. */
  lemma {:induction false} LowExpBound(x: nat, k: nat)
    requires 0 < x < Pow2(k)
    ensures LowExp(x) < k
    decreases k
  {
    if x % 2 == 0 { LowExpBound(x / 2, k - 1); }
  }
}
