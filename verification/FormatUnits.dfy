/**
 masq-mobile/src/core/walletBalance.ts, `formatUnits`: an amount of a token's smallest
 units written as a decimal, cut off after some places. Amounts come from unsigned
 hexadecimal quantities and are not negative.
 */
module FormatUnits {
  import opened Words
  import Seqs

  function Pow10(n: nat): (p: nat)
    ensures p > 0
  {
    if n == 0 then 1 else 10 * Pow10(n - 1)
  }

  function Digit(d: nat): char
    requires d < 10
  {
    '0' + d as char
  }

  predicate IsDigits(s: string) { forall i | 0 <= i < |s| :: '0' <= s[i] <= '9' }

  /** `toString()` of a number. */
  function ToDecimal(n: nat): (s: string)
    ensures s != [] && IsDigits(s)
  {
    if n < 10 then [Digit(n)] else ToDecimal(n / 10) + [Digit(n % 10)]
  }

  /** `padStart(width, '0')`. */
  function PadStart(s: string, width: nat): string
  {
    if |s| >= width then s else seq(width - |s|, _ => '0') + s
  }

  /** `slice(0, n)`. */
  function Slice(s: string, n: nat): string
  {
    if n <= |s| then s[..n] else s
  }

  /** `replace(/0+$/, '')`. */
  function TrimZeros(s: string): string
  {
    if s != [] && s[|s| - 1] == '0' then TrimZeros(s[..|s| - 1]) else s
  }

  function Format(value: nat, decimals: nat, visibleDecimals: nat): string
  {
    var base := Pow10(decimals);
    var integer := Quot(value, base);
    var fraction := PadStart(ToDecimal(Rem(value, base)), decimals);
    var trimmed := TrimZeros(Slice(fraction, visibleDecimals));
    if trimmed != [] then ToDecimal(integer) + "." + trimmed else ToDecimal(integer)
  }

  // ------------------------------------------------------------- reading a decimal

  /** The number that digits stand for. */
  function ReadNat(s: string): nat
    requires IsDigits(s)
  {
    if s == [] then 0 else ReadNat(s[..|s| - 1]) * 10 + (s[|s| - 1] - '0') as nat
  }

  /** What stands before the first dot; everything when there is none. */
  function BeforeDot(s: string): string
  {
    if s == [] || s[0] == '.' then [] else [s[0]] + BeforeDot(s[1..])
  }

  /** What stands behind the first dot; nothing when there is none. */
  function BehindDot(s: string): string
  {
    if |BeforeDot(s)| + 1 <= |s| then s[|BeforeDot(s)| + 1..] else []
  }

  predicate NoZeroAhead(s: string) { s == "0" || (s != [] && s[0] != '0') }

  /** Digits without leading zeros, and then possibly a dot and digits that do not end in zero. */
  predicate IsNeatDecimal(s: string) {
    && NoZeroAhead(BeforeDot(s)) && IsDigits(BeforeDot(s)) && IsDigits(BehindDot(s))
    && (s != BeforeDot(s) ==> BehindDot(s) != [])
    && (BehindDot(s) != [] ==> BehindDot(s)[|BehindDot(s)| - 1] != '0')
  }

  /** The decimal's value in units of 10^-places, for at least as many places as it has. */
  function ReadScaled(s: string, places: nat): nat
    requires IsNeatDecimal(s) && |BehindDot(s)| <= places
  {
    ReadNat(BeforeDot(s)) * Pow10(places) + ReadNat(BehindDot(s)) * Pow10(places - |BehindDot(s)|)
  }

  function MinPlaces(decimals: nat, visibleDecimals: nat): nat
  {
    if decimals <= visibleDecimals then decimals else visibleDecimals
  }

  // ----------------------------------------------------------------------- digits

  lemma {:induction false} Pow10Add(a: nat, b: nat)
    ensures Pow10(a + b) == Pow10(a) * Pow10(b)
  {
    if a > 0 {
      Pow10Add(a - 1, b);
      assert 10 * (Pow10(a - 1) * Pow10(b)) == (10 * Pow10(a - 1)) * Pow10(b);
    }
  }

  lemma ReadSnoc(s: string, c: char)
    requires IsDigits(s) && '0' <= c <= '9'
    ensures IsDigits(s + [c]) && ReadNat(s + [c]) == ReadNat(s) * 10 + (c - '0') as nat
  {
    Seqs.Parts(s, [c]);
  }

  lemma {:induction false} ReadToDecimal(n: nat)
    ensures ReadNat(ToDecimal(n)) == n
  {
    if n < 10 {
      Seqs.EmptyLeft([Digit(n)]);
      ReadSnoc([], Digit(n));
    } else {
      ReadToDecimal(n / 10);
      ReadSnoc(ToDecimal(n / 10), Digit(n % 10));
    }
  }

  lemma {:induction false} NoLeadingZero(n: nat)
    ensures NoZeroAhead(ToDecimal(n)) && (n > 0 ==> ToDecimal(n)[0] != '0')
  {
    if n >= 10 { NoLeadingZero(n / 10); }
  }

  lemma {:induction false} ToDecimalLength(n: nat, d: nat)
    requires d > 0 && n < Pow10(d)
    ensures |ToDecimal(n)| <= d
    decreases d
  {
    if n >= 10 { ToDecimalLength(n / 10, d - 1); }
  }

  lemma {:induction false} OnlyZeros(k: nat)
    ensures IsDigits(seq(k, _ => '0')) && ReadNat(seq(k, _ => '0')) == 0
  {
    if k > 0 {
      OnlyZeros(k - 1);
      var fewer := seq(k - 1, _ => '0');
      assert seq(k, _ => '0') == fewer + ['0'];
      ReadSnoc(fewer, '0');
    }
  }

  lemma {:induction false} ReadZeros(k: nat, s: string)
    requires IsDigits(s)
    ensures IsDigits(seq(k, _ => '0') + s) && ReadNat(seq(k, _ => '0') + s) == ReadNat(s)
    decreases |s|
  {
    var zeros := seq(k, _ => '0');
    if s == [] {
      Seqs.EmptyRight(zeros);
      OnlyZeros(k);
    } else {
      hide ReadNat;
      var init, c := s[..|s| - 1], s[|s| - 1];
      ReadZeros(k, init);
      Seqs.Unsnoc(s);
      Seqs.Assoc(zeros, init, [c]);
      ReadSnoc(zeros + init, c);
    }
  }

  /** The first digits of a number are its quotient. */
  lemma {:induction false} ReadPrefix(s: string, k: nat)
    requires IsDigits(s) && k <= |s|
    ensures ReadNat(s[..k]) == Quot(ReadNat(s), Pow10(|s| - k))
    decreases |s| - k
  {
    if k == |s| {
      assert s[..k] == s;
    } else {
      var init, c := s[..|s| - 1], (s[|s| - 1] - '0') as nat;
      ReadPrefix(init, k);
      assert init[..k] == s[..k];
      DivDiv(ReadNat(s), 10, Pow10(|init| - k));
      Quotient(ReadNat(s), 10, ReadNat(init), c);
    }
  }

  lemma OneMorePlace(t: nat, n: nat)
    ensures (t * Pow10(n)) * 10 == t * Pow10(n + 1)
  {
  }

  lemma NoMorePlace(t: nat)
    ensures t == t * Pow10(0)
  {
  }

  lemma {:induction false} TrimZerosReads(s: string)
    requires IsDigits(s)
    ensures |TrimZeros(s)| <= |s| && IsDigits(TrimZeros(s))
    ensures TrimZeros(s) != [] ==> TrimZeros(s)[|TrimZeros(s)| - 1] != '0'
    ensures ReadNat(s) == ReadNat(TrimZeros(s)) * Pow10(|s| - |TrimZeros(s)|)
  {
    if s != [] && s[|s| - 1] == '0' {
      var init := s[..|s| - 1];
      TrimZerosReads(init);
      var n := |init| - |TrimZeros(init)|;
      Seqs.Unsnoc(s);
      ReadSnoc(init, '0');
      OneMorePlace(ReadNat(TrimZeros(init)), n);
    } else {
      NoMorePlace(ReadNat(s));
    }
  }

  // --------------------------------------------------------------------- the dot

  lemma {:induction false} DotAt(a: string, b: string)
    requires IsDigits(a)
    ensures BeforeDot(a) == a && BehindDot(a) == []
    ensures BeforeDot(a + "." + b) == a && BehindDot(a + "." + b) == b
  {
    BeforeDotOf(a, []);
    Seqs.EmptyRight(a);
    BeforeDotOf(a, "." + b);
    Seqs.Assoc(a, ".", b);
    Seqs.Parts(a + ".", b);
  }

  lemma {:induction false} BeforeDotOf(a: string, rest: string)
    requires IsDigits(a) && (rest == [] || rest[0] == '.')
    ensures BeforeDot(a + rest) == a
  {
    if a == [] {
      Seqs.EmptyLeft(rest);
    } else {
      Seqs.TailOfConcat(a, rest);
      BeforeDotOf(a[1..], rest);
      Seqs.Uncons(a);
    }
  }

  // ------------------------------------------------------------- exact truncation

  /** The kept digits of the fraction stand for the fraction rounded down. */
  lemma KeptDigits(x: nat, d: nat, k: nat)
    requires x < Pow10(d)
    ensures var kept := TrimZeros(Slice(PadStart(ToDecimal(x), d), k));
            var j := MinPlaces(d, k);
            && IsDigits(kept) && |kept| <= j
            && (kept != [] ==> kept[|kept| - 1] != '0')
            && ReadNat(kept) * Pow10(j - |kept|) == Quot(x, Pow10(d - j))
  {
    if d == 0 {
      NoDigits(x, k);
    } else {
      hide Quot, ToDecimal, ReadNat, TrimZeros, Pow10, PadStart, Slice, MinPlaces;
      PaddedReads(x, d);
      var padded, j := PadStart(ToDecimal(x), d), MinPlaces(d, k);
      SliceIsPrefix(padded, d, k);
      ReadPrefix(padded, j);
      TrimZerosReads(padded[..j]);
    }
  }

  lemma SliceIsPrefix(s: string, d: nat, k: nat)
    requires |s| == d
    ensures var j := MinPlaces(d, k); j <= d && Slice(s, k) == s[..j]
  {
    assert s[..d] == s;
  }

  /** Without decimals nothing is kept. */
  lemma NoDigits(x: nat, k: nat)
    requires x < Pow10(0)
    ensures TrimZeros(Slice(PadStart(ToDecimal(x), 0), k)) == []
    ensures ReadNat([]) * Pow10(0) == Quot(x, Pow10(0))
  {
    assert TrimZeros("0") == TrimZeros([]) == [];
  }

  lemma PaddedReads(x: nat, d: nat)
    requires d > 0 && x < Pow10(d)
    ensures var padded := PadStart(ToDecimal(x), d);
            |padded| == d && IsDigits(padded) && ReadNat(padded) == x
  {
    var digits := ToDecimal(x);
    ToDecimalLength(x, d);
    ReadToDecimal(x);
    ReadZeros(d - |digits|, digits);
    if |digits| == d { Seqs.EmptyLeft(digits); }
  }

  lemma ScaledQuotient(value: nat, d: nat, j: nat)
    requires j <= d
    ensures Quot(value, Pow10(d)) * Pow10(j) + Quot(Rem(value, Pow10(d)), Pow10(d - j)) == Quot(value, Pow10(d - j))
  {
    Pow10Add(j, d - j);
    QuotientOfParts(value, Pow10(j), Pow10(d - j), Pow10(d));
  }

  lemma QuotientOfParts(value: nat, high: nat, low: nat, base: nat)
    requires high > 0 && low > 0 && base == high * low
    ensures Quot(value, base) * high + Quot(Rem(value, base), low) == Quot(value, low)
  {
    hide Quot, Rem;
    var q, r := Quot(value, base), Rem(value, base);
    var s, t := Quot(r, low), Rem(r, low);
    QuotRem(value, base);
    QuotRem(r, low);
    Distribute(q, high, low, s);
    QuotUnique(value, low, q * high + s, t);
  }

  lemma Distribute(q: nat, high: nat, low: nat, s: nat)
    ensures (q * high + s) * low == q * (high * low) + s * low
    ensures q * high + s >= 0
  {
  }

  /**
   The output is a neat decimal with no more places than are to be seen, and its value
   is exactly the amount rounded down to that many places.
   */
  lemma ExactTruncation(value: nat, decimals: nat, visibleDecimals: nat)
    ensures var out := Format(value, decimals, visibleDecimals);
            var j := MinPlaces(decimals, visibleDecimals);
            && IsNeatDecimal(out) && |BehindDot(out)| <= j
            && ReadScaled(out, j) == Quot(value, Pow10(decimals - j))
  {
    hide Quot, Rem, TrimZeros, PadStart, Slice, ToDecimal, ReadNat, BeforeDot;
    var base := Pow10(decimals);
    var x := Rem(value, base);
    var kept := TrimZeros(Slice(PadStart(ToDecimal(x), decimals), visibleDecimals));
    KeptDigits(x, decimals, visibleDecimals);
    DotAt(ToDecimal(Quot(value, base)), kept);
    NoLeadingZero(Quot(value, base));
    ReadToDecimal(Quot(value, base));
    ScaledQuotient(value, decimals, MinPlaces(decimals, visibleDecimals));
  }

  // ------------------------------------------------------- one form for each value

  lemma {:induction false} ReadsBelow(s: string)
    requires IsDigits(s)
    ensures ReadNat(s) < Pow10(|s|)
  {
    if s != [] { ReadsBelow(s[..|s| - 1]); }
  }

  lemma {:induction false} ReadsPositive(s: string)
    requires IsDigits(s) && s != [] && s[0] != '0'
    ensures ReadNat(s) > 0
  {
    if |s| > 1 { ReadsPositive(s[..|s| - 1]); }
  }

  lemma ReadsPart(s: string)
    requires IsDigits(s) && s != []
    ensures var init := s[..|s| - 1]; s == init + [Digit(ReadNat(s) % 10)] && ReadNat(init) == ReadNat(s) / 10
  {
    Seqs.Unsnoc(s);
  }

  lemma ReadsLong(s: string)
    requires IsDigits(s) && NoZeroAhead(s) && |s| > 1
    ensures NoZeroAhead(s[..|s| - 1]) && ReadNat(s) >= 10
  {
    ReadsPositive(s[..|s| - 1]);
  }

  /** Numbers of the same value are written the same: of one length, or without leading zeros. */
  lemma {:induction false} SameNumber(a: string, b: string)
    requires IsDigits(a) && IsDigits(b) && ReadNat(a) == ReadNat(b)
    requires |a| == |b| || (NoZeroAhead(a) && NoZeroAhead(b))
    ensures a == b
  {
    if a != [] && b != [] {
      ReadsPart(a);
      ReadsPart(b);
      if |a| == |b| {
        SameNumber(a[..|a| - 1], b[..|b| - 1]);
      } else {
        if |a| > 1 { ReadsLong(a); }
        if |b| > 1 { ReadsLong(b); }
        if |a| > 1 && |b| > 1 { SameNumber(a[..|a| - 1], b[..|b| - 1]); }
      }
    }
  }

  lemma SamePlaces(m: nat, n: nat, p: nat)
    requires p > 0 && m * p == n * p
    ensures m == n
  {
  }

  lemma MulAssoc(a: nat, b: nat, c: nat)
    ensures (a * b) * c == a * (b * c)
  {
  }

  lemma TenTimes(m: nat, n: nat)
    requires n > 0
    ensures m * Pow10(n) == 10 * (m * Pow10(n - 1))
  {
  }

  lemma LastDigit(s: string)
    requires IsDigits(s) && s != [] && s[|s| - 1] != '0'
    ensures forall k: nat :: ReadNat(s) != 10 * k
  {
  }

  /** A fraction that does not end in zero is not that of a shorter one. */
  lemma ShorterFraction(f: string, g: string, places: nat)
    requires IsDigits(f) && IsDigits(g) && |f| < |g| <= places && g[|g| - 1] != '0'
    ensures ReadNat(f) * Pow10(places - |f|) != ReadNat(g) * Pow10(places - |g|)
  {
    hide ReadNat, Pow10;
    var m, n, p := ReadNat(f), |g| - |f|, Pow10(places - |g|);
    Pow10Add(n, places - |g|);
    MulAssoc(m, Pow10(n), p);
    TenTimes(m, n);
    LastDigit(g);
    if (m * Pow10(n)) * p == ReadNat(g) * p { SamePlaces(m * Pow10(n), ReadNat(g), p); }
  }

  lemma SameFraction(f: string, g: string, places: nat)
    requires IsDigits(f) && IsDigits(g) && |f| <= places && |g| <= places
    requires f != [] ==> f[|f| - 1] != '0'
    requires g != [] ==> g[|g| - 1] != '0'
    requires ReadNat(f) * Pow10(places - |f|) == ReadNat(g) * Pow10(places - |g|)
    ensures f == g
  {
    hide ReadNat, Pow10;
    if |f| < |g| {
      ShorterFraction(f, g, places);
    } else if |g| < |f| {
      ShorterFraction(g, f, places);
    } else {
      SamePlaces(ReadNat(f), ReadNat(g), Pow10(places - |f|));
      SameNumber(f, g);
    }
  }

  lemma FractionBelow(f: string, places: nat)
    requires IsDigits(f) && |f| <= places
    ensures ReadNat(f) * Pow10(places - |f|) < Pow10(places)
  {
    hide ReadNat, Pow10;
    ReadsBelow(f);
    Pow10Add(|f|, places - |f|);
    MulStrict(ReadNat(f), Pow10(|f|), Pow10(places - |f|));
  }

  lemma BeforeDotStep(s: string)
    requires s != [] && s[0] != '.'
    ensures BeforeDot(s) == [s[0]] + BeforeDot(s[1..]) && BehindDot(s) == BehindDot(s[1..])
  {
  }

  lemma {:induction false} BeforeDotIs(s: string)
    ensures BeforeDot(s) <= s
    ensures s == BeforeDot(s) || s == BeforeDot(s) + ("." + BehindDot(s))
    ensures s == BeforeDot(s) ==> BehindDot(s) == []
  {
    if s != [] {
      Seqs.Uncons(s);
      if s[0] != '.' {
        hide BeforeDot;
        BeforeDotStep(s);
        BeforeDotIs(s[1..]);
        Seqs.Assoc([s[0]], BeforeDot(s[1..]), "." + BehindDot(s[1..]));
      }
    }
  }

  /** A value has one neat decimal. */
  lemma NeatIsUnique(x: string, y: string, places: nat)
    requires IsNeatDecimal(x) && IsNeatDecimal(y) && |BehindDot(x)| <= places && |BehindDot(y)| <= places
    requires ReadScaled(x, places) == ReadScaled(y, places)
    ensures x == y
  {
    hide ReadNat, Pow10, BeforeDot, BehindDot, Quot, Rem;
    var f, g := BehindDot(x), BehindDot(y);
    FractionBelow(f, places);
    FractionBelow(g, places);
    var p := Pow10(places);
    QuotUnique(ReadScaled(x, places), p, ReadNat(BeforeDot(x)), ReadNat(f) * Pow10(places - |f|));
    QuotUnique(ReadScaled(y, places), p, ReadNat(BeforeDot(y)), ReadNat(g) * Pow10(places - |g|));
    SameNumber(BeforeDot(x), BeforeDot(y));
    SameFraction(f, g, places);
    BeforeDotIs(x);
    BeforeDotIs(y);
  }

  /** So the output is the only neat decimal of the amount rounded down. */
  lemma OnlyOutput(s: string, value: nat, decimals: nat, visibleDecimals: nat)
    requires IsNeatDecimal(s) && |BehindDot(s)| <= MinPlaces(decimals, visibleDecimals)
    requires var j := MinPlaces(decimals, visibleDecimals); ReadScaled(s, j) == Quot(value, Pow10(decimals - j))
    ensures s == Format(value, decimals, visibleDecimals)
  {
    hide Format, IsNeatDecimal, ReadScaled, BehindDot;
    ExactTruncation(value, decimals, visibleDecimals);
    NeatIsUnique(s, Format(value, decimals, visibleDecimals), MinPlaces(decimals, visibleDecimals));
  }

  /** A larger amount is never shown as a smaller one. */
  lemma Monotone(a: nat, b: nat, decimals: nat, visibleDecimals: nat)
    requires a <= b
    ensures var j := MinPlaces(decimals, visibleDecimals);
            var x, y := Format(a, decimals, visibleDecimals), Format(b, decimals, visibleDecimals);
            && IsNeatDecimal(x) && |BehindDot(x)| <= j && IsNeatDecimal(y) && |BehindDot(y)| <= j
            && ReadScaled(x, j) <= ReadScaled(y, j)
  {
    hide Format, IsNeatDecimal, ReadScaled, BehindDot;
    ExactTruncation(a, decimals, visibleDecimals);
    ExactTruncation(b, decimals, visibleDecimals);
    QuotMonotone(a, b, Pow10(decimals - MinPlaces(decimals, visibleDecimals)));
  }

  lemma QuotMonotone(a: nat, b: nat, p: nat)
    requires a <= b && p > 0
    ensures Quot(a, p) <= Quot(b, p)
  {
    hide Quot, Rem;
    var q, r := Quot(a, p), Quot(b, p);
    QuotRem(a, p);
    QuotRem(b, p);
    MulIsFar(q - r, p);
    assert (q - r) * p == q * p - r * p;
  }
}
