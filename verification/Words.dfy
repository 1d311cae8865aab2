/**
 Fixed-width words as natural numbers, and the same words as sequences of bits,
 least significant bit first. Shifts, masks and bitwise-or are written out as
 the machine does them; the lemmas say what each does to the bits.
 */
module Words {

  type u8 = x: nat | x < 0x100
  type u64 = x: nat | x < 0x1_0000_0000_0000_0000

  function Pow2(n: nat): (p: nat)
    ensures p > 0
  {
    if n == 0 then 1 else 2 * Pow2(n - 1)
  }

  function Bit(v: nat, i: nat): bool
    decreases i, v
  {
    if i == 0 then v % 2 == 1 else Bit(v / 2, i - 1)
  }

  /** The low `k` bits of `v`, least significant first. */
  function Bits(v: nat, k: nat): (b: seq<bool>)
    ensures |b| == k
  {
    seq(k, i requires 0 <= i < k => Bit(v, i))
  }

  lemma BitsCons(v: nat, k: nat)
    requires k > 0
    ensures Bits(v, k) == [v % 2 == 1] + Bits(v / 2, k - 1)
    ensures Bits(v, k)[1..] == Bits(v / 2, k - 1)
  {
  }

  /** The number whose bits, least significant first, are `b`. */
  function Val(b: seq<bool>): nat
  {
    if b == [] then 0 else (if b[0] then 1 else 0) + 2 * Val(b[1..])
  }

  function Or(x: nat, y: nat): nat
    decreases x + y
  {
    if x == 0 && y == 0 then 0
    else (if x % 2 == 1 || y % 2 == 1 then 1 else 0) + 2 * Or(x / 2, y / 2)
  }

  function And(x: nat, y: nat): nat
  {
    if x == 0 then 0
    else (if x % 2 == 1 && y % 2 == 1 then 1 else 0) + 2 * And(x / 2, y / 2)
  }

  /** `x << n` in 64 bits; the source's shift is undefined from the word's width on. */
  function Shl64(x: u64, n: nat): (r: u64)
    requires n < 64
  {
    (x * Pow2(n)) % 0x1_0000_0000_0000_0000
  }

  /** `x >> n`, one place at a time. */
  function Shr(x: nat, n: nat): nat
    decreases n, x
  {
    if n == 0 then x else Shr(x / 2, n - 1)
  }

  function OrBits(a: seq<bool>, b: seq<bool>): (r: seq<bool>)
    requires |a| == |b|
    ensures |r| == |a|
  {
    seq(|a|, i requires 0 <= i < |a| => a[i] || b[i])
  }

  function Zeros(n: nat): (z: seq<bool>)
    ensures |z| == n
  {
    seq(n, _ => false)
  }

  // ---------------------------------------------------------------- arithmetic

  lemma Quotient(x: int, d: int, q: int, r: int)
    requires d > 0 && x == q * d + r && 0 <= r < d
    ensures x / d == q && x % d == r
  {
    var e := x / d - q;
    assert e * d == r - x % d by {
      assert x == (x / d) * d + x % d;
      assert e * d == (x / d) * d - q * d;
    }
    MulIsFar(e, d);
  }

  /** Quotient and remainder of numbers that are not negative. */
  function Quot(x: nat, d: nat): nat
    requires d > 0
  {
    x / d
  }

  function Rem(x: nat, d: nat): (r: nat)
    requires d > 0
    ensures r < d
  {
    x % d
  }

  lemma QuotRem(x: nat, d: nat)
    requires d > 0
    ensures x == Quot(x, d) * d + Rem(x, d)
  {
  }

  lemma QuotUnique(x: nat, d: nat, q: nat, r: nat)
    requires d > 0 && x == q * d + r && r < d
    ensures Quot(x, d) == q && Rem(x, d) == r
  {
    Quotient(x, d, q, r);
  }

  lemma MulIsFar(e: int, d: int)
    requires d > 0
    ensures e >= 1 ==> e * d >= d
    ensures e <= -1 ==> e * d <= -d
  {
  }

  lemma MulStrict(x: nat, y: nat, p: nat)
    requires x < y && p > 0
    ensures 0 <= x * p < y * p
  {
  }

  lemma NestedQuotient(s: nat, t: nat, a: nat, b: nat)
    requires a > 0 && t < b
    ensures (s * b + t) * a == s * (a * b) + t * a
    ensures 0 <= t * a <= a * b - a
  {
    assert t * a <= (b - 1) * a;
  }

  lemma DivDiv(x: nat, a: nat, b: nat)
    requires a > 0 && b > 0
    ensures a * b > 0 && x / (a * b) == (x / a) / b
  {
    var q, r := Quot(x, a), Rem(x, a);
    var s, t := Quot(q, b), Rem(q, b);
    QuotRem(x, a);
    QuotRem(q, b);
    NestedQuotient(s, t, a, b);
    Quotient(x, a * b, s, t * a + r);
  }

  lemma {:induction false} Pow2Add(a: nat, b: nat)
    ensures Pow2(a + b) == Pow2(a) * Pow2(b)
  {
    if a == 0 {
    } else {
      Pow2Add(a - 1, b);
      assert 2 * (Pow2(a - 1) * Pow2(b)) == (2 * Pow2(a - 1)) * Pow2(b);
    }
  }

  lemma {:induction false} Pow2Monotone(a: nat, b: nat)
    requires a <= b
    ensures Pow2(a) <= Pow2(b)
    decreases b - a
  {
    if a < b { Pow2Monotone(a + 1, b); }
  }

  lemma WordSizes()
    ensures Pow2(8) == 0x100
    ensures Pow2(64) == 0x1_0000_0000_0000_0000
  {
    assert Pow2(4) == 16;
    Pow2Add(4, 4);
    Pow2Add(8, 8);
    Pow2Add(16, 16);
    Pow2Add(32, 32);
  }

  lemma {:induction false} ShrIsDiv(v: nat, a: nat)
    ensures Shr(v, a) == v / Pow2(a)
    decreases a
  {
    if a > 0 {
      ShrIsDiv(v / 2, a - 1);
      DivDiv(v, 2, Pow2(a - 1));
    }
  }

  lemma {:induction false} ShrShr(x: nat, a: nat, b: nat)
    ensures Shr(Shr(x, a), b) == Shr(x, a + b)
    decreases a
  {
    if a > 0 { ShrShr(x / 2, a - 1, b); }
  }

  lemma {:induction false} ShrShrinks(x: nat, n: nat)
    ensures Shr(x, n) <= x
    decreases n
  {
    if n > 0 { ShrShrinks(x / 2, n - 1); }
  }

  // ------------------------------------------------------------- bits of words

  lemma {:induction false} BitShr(v: nat, a: nat, i: nat)
    ensures Bit(Shr(v, a), i) == Bit(v, a + i)
    decreases a
  {
    if a > 0 { BitShr(v / 2, a - 1, i); }
  }

  lemma BitsSplit(v: nat, a: nat, b: nat)
    ensures Bits(v, a + b) == Bits(v, a) + Bits(Shr(v, a), b)
  {
    forall i | 0 <= i < b ensures Bit(Shr(v, a), i) == Bit(v, a + i) {
      BitShr(v, a, i);
    }
  }

  lemma BitsPrefix(v: nat, a: nat, k: nat)
    requires a <= k
    ensures Bits(v, k)[..a] == Bits(v, a)
    ensures Bits(v, k)[a..] == Bits(Shr(v, a), k - a)
  {
    BitsSplit(v, a, k - a);
  }

  lemma ModTwice(v: nat, k: nat)
    requires k > 0
    ensures v % Pow2(k) == v % 2 + 2 * ((v / 2) % Pow2(k - 1))
  {
    var p := Pow2(k - 1);
    var q, r := (v / 2) / p, (v / 2) % p;
    assert v == 2 * (q * p + r) + v % 2;
    assert 2 * (q * p + r) == q * (2 * p) + 2 * r;
    Quotient(v, 2 * p, q, 2 * r + v % 2);
  }

  lemma {:induction false} ValOfBits(v: nat, k: nat)
    ensures Val(Bits(v, k)) == v % Pow2(k)
    decreases k
  {
    if k == 0 {
    } else {
      ValOfBits(v / 2, k - 1);
      ModTwice(v, k);
      BitsCons(v, k);
    }
  }

  lemma ValOfSmall(v: nat, k: nat)
    requires v < Pow2(k)
    ensures Val(Bits(v, k)) == v
  {
    ValOfBits(v, k);
    Quotient(v, Pow2(k), 0, v);
  }

  lemma {:induction false} BitsOfVal(b: seq<bool>)
    ensures Val(b) < Pow2(|b|)
    ensures Bits(Val(b), |b|) == b
  {
    if b == [] {
    } else {
      BitsOfVal(b[1..]);
      BitsCons(Val(b), |b|);
      assert b == [b[0]] + b[1..];
    }
  }

  lemma {:induction false} ValAppend(a: seq<bool>, b: seq<bool>)
    ensures Val(a + b) == Val(a) + Val(b) * Pow2(|a|)
  {
    if a == [] {
      assert a + b == b;
    } else {
      ValAppend(a[1..], b);
      assert (a + b)[1..] == a[1..] + b;
      assert 2 * (Val(b) * Pow2(|a| - 1)) == Val(b) * Pow2(|a|);
    }
  }

  lemma {:induction false} BitsOfZero(k: nat)
    ensures Bits(0, k) == Zeros(k)
  {
    if k > 0 {
      BitsOfZero(k - 1);
      BitsCons(0, k);
      assert Zeros(k) == [false] + Zeros(k - 1);
    }
  }

  lemma ZeroBitsIffZero(v: nat, k: nat)
    ensures Bits(v, k) == Zeros(k) <==> v % Pow2(k) == 0
  {
    ValOfBits(v, k);
    BitsOfZero(k);
    ValOfBits(0, k);
    if v % Pow2(k) == 0 { BitsOfVal(Bits(v, k)); }
  }

  /** Only the residue modulo a power of two decides the low bits. */
  lemma BitsOfMod(v: nat, j: nat, k: nat)
    requires k <= j
    ensures v % Pow2(j) >= 0
    ensures Bits(v % Pow2(j), k) == Bits(v, k)
  {
    ValOfBits(v, j);
    BitsOfVal(Bits(v, j));
    BitsPrefix(v, k, j);
    BitsPrefix(v % Pow2(j), k, j);
  }

  /** Multiplying by a power of two puts zeros below the word's bits. */
  lemma {:induction false} BitsOfShifted(v: nat, n: nat, k: nat)
    requires n <= k
    ensures v * Pow2(n) >= 0
    ensures Bits(v * Pow2(n), k) == Zeros(n) + Bits(v, k - n)
    decreases n
  {
    if n == 0 {
      assert Zeros(0) + Bits(v, k) == Bits(v, k);
    } else {
      BitsOfShifted(v, n - 1, k - 1);
      var w := v * Pow2(n - 1);
      assert v * Pow2(n) == 2 * w;
      assert Zeros(n) == [false] + Zeros(n - 1);
      BitsCons(2 * w, k);
      assert [false] + (Zeros(n - 1) + Bits(v, k - n)) == Zeros(n) + Bits(v, k - n);
    }
  }

  lemma {:induction false} BitsOfOr(x: nat, y: nat, k: nat)
    ensures Bits(Or(x, y), k) == OrBits(Bits(x, k), Bits(y, k))
    decreases k
  {
    if k == 0 {
    } else if x == 0 && y == 0 {
      BitsOfZero(k);
    } else {
      BitsOfOr(x / 2, y / 2, k - 1);
      var z := Or(x, y);
      assert z / 2 == Or(x / 2, y / 2);
      assert (z % 2 == 1) == (x % 2 == 1 || y % 2 == 1);
      BitsCons(x, k);
      BitsCons(y, k);
      BitsCons(z, k);
    }
  }

  /** Or of words that fit `k` bits fits `k` bits. */
  lemma {:induction false} OrFits(x: nat, y: nat, k: nat)
    requires x < Pow2(k) && y < Pow2(k)
    ensures Or(x, y) < Pow2(k)
  {
    if k > 0 && !(x == 0 && y == 0) {
      OrFits(x / 2, y / 2, k - 1);
    }
  }

  /** Or onto clear high bits concatenates the bits, so it adds the shifted word. */
  lemma {:induction false} OrDisjoint(x: nat, y: nat, n: nat)
    requires x < Pow2(n)
    ensures y * Pow2(n) >= 0
    ensures Or(x, y * Pow2(n)) == x + y * Pow2(n)
    decreases n
  {
    if n == 0 {
      OrZero(y);
    } else {
      OrDisjoint(x / 2, y, n - 1);
      var w := y * Pow2(n - 1);
      assert y * Pow2(n) == 2 * w;
    }
  }

  lemma {:induction false} OrZero(y: nat)
    ensures Or(0, y) == y
  {
    if y > 0 { OrZero(y / 2); }
  }

  lemma {:induction false} OrCommutes(x: nat, y: nat)
    ensures Or(x, y) == Or(y, x)
    decreases x + y
  {
    if x + y > 0 { OrCommutes(x / 2, y / 2); }
  }

  lemma {:induction false} ShrOfOr(x: nat, y: nat, n: nat)
    ensures Shr(Or(x, y), n) == Or(Shr(x, n), Shr(y, n))
    decreases n
  {
    if n > 0 {
      assert Or(x, y) / 2 == Or(x / 2, y / 2);
      ShrOfOr(x / 2, y / 2, n - 1);
    }
  }

  /** A word ored with few bits: those bits are ored, and above them it is the word itself. */
  lemma OrLow(x: nat, low: seq<bool>)
    ensures Bits(Or(x, Val(low)), |low|) == OrBits(low, Bits(x, |low|))
    ensures forall n | n >= |low| :: Shr(Or(x, Val(low)), n) == Shr(x, n)
  {
    BitsOfOr(x, Val(low), |low|);
    BitsOfVal(low);
    forall n | n >= |low| ensures Shr(Or(x, Val(low)), n) == Shr(x, n) {
      ShrOfOr(x, Val(low), n);
      Pow2Monotone(|low|, n);
      ShrOfSmall(Val(low), n);
      OrCommutes(Shr(x, n), 0);
      OrZero(Shr(x, n));
    }
  }

  lemma ShrOfSmall(v: nat, n: nat)
    requires v < Pow2(n)
    ensures Shr(v, n) == 0
  {
    ShrIsDiv(v, n);
  }

  /** Oring in again what has been ored in changes nothing. */
  lemma OrAgain(x: nat, low: seq<bool>, n: nat, k: nat)
    ensures var whole := Bits(Shr(Or(x, Val(low)), n), k); OrBits(whole, Bits(Shr(x, n), k)) == whole
  {
    ShrOfOr(x, Val(low), n);
    BitsOfOr(Shr(x, n), Shr(Val(low), n), k);
  }

  // --------------------------------------------------------------------- masks

  /** The complement of all-ones shifted left: ones in the low `count` places. */
  method LowOrderOnes(count: nat) returns (r: u64)
    requires count < 64
    ensures r == Pow2(count) - 1
  {
    WordSizes();
    Pow2Monotone(count, 64);
    var p, w := Pow2(count), Pow2(64);
    assert (w - 1) * p == (p - 1) * w + (w - p);
    Quotient((w - 1) * p, w, p - 1, w - p);
    r := 0xFFFF_FFFF_FFFF_FFFF - Shl64(0xFFFF_FFFF_FFFF_FFFF, count);
  }

  lemma {:induction false} AndOnes(x: nat, ones: nat, k: nat)
    requires ones == Pow2(k) - 1
    ensures And(x, ones) == Val(Bits(x, k))
    decreases k
  {
    if k == 0 {
      AndZero(x);
    } else if x == 0 {
      ValOfSmall(0, k);
    } else {
      AndOnes(x / 2, ones / 2, k - 1);
      BitsCons(x, k);
    }
  }

  lemma {:induction false} AndZero(x: nat)
    ensures And(x, 0) == 0
  {
    if x > 0 { AndZero(x / 2); }
  }

  /** A word that fits, shifted to a position where it still fits, loses no bit. */
  lemma Shl64Fits(x: u64, k: nat, n: nat)
    requires x < Pow2(k) && n < 64 && n + k <= 64
    ensures Shl64(x, n) == x * Pow2(n) < Pow2(n + k)
  {
    var p, q := Pow2(n), Pow2(k);
    Pow2Add(k, n);
    MulStrict(x, q, p);
    assert x * p < Pow2(n + k);
    WordSizes();
    Pow2Monotone(n + k, 64);
    Quotient(x * p, 0x1_0000_0000_0000_0000, 0, x * p);
  }
}
