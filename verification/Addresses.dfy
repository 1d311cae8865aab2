/**
 IP addresses as numbers and as the segments they are written in. One family
 parameter covers both versions: four 8-bit octets, or eight 16-bit segments.
 */
module Addresses {
  import opened Words
  import Seqs

  datatype Family = V4 | V6

  function SegmentCount(f: Family): nat { if f.V4? then 4 else 8 }
  function SegmentBits(f: Family): nat { if f.V4? then 8 else 16 }

  /** The width of the difference-count field and of the difference-index field. */
  function IndexBits(f: Family): nat { if f.V4? then 2 else 3 }

  function AddressBits(f: Family): nat { if f.V4? then 32 else 128 }
  function OctetCount(f: Family): nat { if f.V4? then 4 else 16 }

  function Limit(f: Family): nat
  {
    if f.V4? then 0x1_0000_0000 else 0x1_0000_0000_0000_0000_0000_0000_0000_0000
  }

  lemma LimitIsPower(f: Family)
    ensures Limit(f) == Pow2(AddressBits(f))
  {
    WordSizes();
    Pow2Add(8, 8);
    Pow2Add(16, 16);
    Pow2Add(64, 64);
  }

  function MaxIp(f: Family): nat { Limit(f) - 1 }

  lemma FieldsHoldSegments(f: Family)
    ensures Pow2(IndexBits(f)) == SegmentCount(f)
  {
    assert Pow2(2) == 4 && Pow2(3) == 8;
  }

  /** One above, wrapping from the largest address to zero. */
  function PlusOne(f: Family, ip: nat): (r: nat)
    requires ip < Limit(f)
    ensures r < Limit(f)
  {
    if ip == MaxIp(f) then 0 else ip + 1
  }

  /** One below, wrapping from zero to the largest address. */
  function MinusOne(f: Family, ip: nat): (r: nat)
    requires ip < Limit(f)
    ensures r < Limit(f)
  {
    if ip == 0 then MaxIp(f) else ip - 1
  }

  lemma PlusMinusInverse(f: Family, ip: nat)
    requires ip < Limit(f)
    ensures MinusOne(f, PlusOne(f, ip)) == ip == PlusOne(f, MinusOne(f, ip))
  {
  }

  // ----------------------------------------------------------- digits, big-endian

  /** The `n` digits of `v` in base 2^w, most significant first. */
  function ToDigits(v: nat, n: nat, w: nat): (d: seq<nat>)
    ensures |d| == n
    decreases n, v
  {
    if n == 0 then [] else ToDigits(Shr(v, w), n - 1, w) + [v % Pow2(w)]
  }

  function FromDigits(d: seq<nat>, w: nat): nat
  {
    if d == [] then 0 else FromDigits(d[..|d| - 1], w) * Pow2(w) + d[|d| - 1]
  }

  ghost predicate AreDigits(d: seq<nat>, w: nat) {
    forall i | 0 <= i < |d| :: d[i] < Pow2(w)
  }

  lemma {:induction false} DigitsFit(v: nat, n: nat, w: nat)
    ensures AreDigits(ToDigits(v, n, w), w)
    decreases n
  {
    if n > 0 { DigitsFit(Shr(v, w), n - 1, w); }
  }

  /** The bits of `n` digits of `w` bits. */
  function Span(n: nat, w: nat): nat
  {
    if n == 0 then 0 else Span(n - 1, w) + w
  }

  lemma {:induction false} SpanIsProduct(n: nat, w: nat)
    ensures Span(n, w) == n * w
  {
    if n > 0 { SpanIsProduct(n - 1, w); }
  }

  lemma {:induction false} SpanMonotone(a: nat, b: nat, w: nat)
    requires a <= b
    ensures Span(a, w) <= Span(b, w)
  {
    if a < b { SpanMonotone(a, b - 1, w); }
  }

  lemma AddressSpans(f: Family)
    ensures Span(SegmentCount(f), SegmentBits(f)) == Span(OctetCount(f), 8) == AddressBits(f)
  {
    assert Span(4, 8) == 32;
    assert Span(8, 16) == 128;
    assert Span(16, 8) == 128;
  }

  lemma QuotientFits(v: nat, n: nat, w: nat)
    requires n > 0 && v < Pow2(Span(n, w))
    ensures Shr(v, w) < Pow2(Span(n - 1, w))
    ensures v == Shr(v, w) * Pow2(w) + v % Pow2(w)
  {
    Pow2Add(Span(n - 1, w), w);
    QuotientBelow(v, Pow2(w), Pow2(Span(n - 1, w)));
    ShrIsDiv(v, w);
  }

  lemma QuotientBelow(v: nat, p: nat, r: nat)
    requires p > 0 && v < r * p
    ensures v / p < r
    ensures v == (v / p) * p + v % p
  {
    if v / p >= r { MulMonotone(r, v / p, p); }
  }

  lemma MulMonotone(a: nat, b: nat, p: nat)
    requires a <= b
    ensures a * p <= b * p
  {
  }

  lemma {:induction false} FromToDigits(v: nat, n: nat, w: nat)
    requires v < Pow2(Span(n, w))
    ensures FromDigits(ToDigits(v, n, w), w) == v
    decreases n
  {
    if n > 0 {
      QuotientFits(v, n, w);
      FromToDigits(Shr(v, w), n - 1, w);
      Seqs.Parts(ToDigits(Shr(v, w), n - 1, w), [v % Pow2(w)]);
    }
  }

  lemma ShiftInDigit(v: nat, d: nat, w: nat)
    requires d < Pow2(w)
    ensures Shr(v * Pow2(w) + d, w) == v && (v * Pow2(w) + d) % Pow2(w) == d
  {
    Quotient(v * Pow2(w) + d, Pow2(w), v, d);
    ShrIsDiv(v * Pow2(w) + d, w);
  }

  lemma {:induction false} ToFromDigits(d: seq<nat>, w: nat)
    requires AreDigits(d, w)
    ensures ToDigits(FromDigits(d, w), |d|, w) == d
  {
    if d != [] {
      var init, last := d[..|d| - 1], d[|d| - 1];
      ToFromDigits(init, w);
      ShiftInDigit(FromDigits(init, w), last, w);
      Seqs.Unsnoc(d);
    }
  }

  lemma {:induction false} FromDigitsFits(d: seq<nat>, w: nat)
    requires AreDigits(d, w)
    ensures FromDigits(d, w) < Pow2(Span(|d|, w))
  {
    if d != [] {
      var init, last := d[..|d| - 1], d[|d| - 1];
      FromDigitsFits(init, w);
      Pow2Add(Span(|init|, w), w);
      PairFits(FromDigits(init, w), last, Pow2(Span(|init|, w)), Pow2(w));
    }
  }

  lemma PairFits(v: nat, d: nat, q: nat, p: nat)
    requires v < q && d < p
    ensures v * p + d < q * p
  {
    MulMonotone(v + 1, q, p);
    assert (v + 1) * p == v * p + p;
  }

  // ------------------------------------------------------------------- segments

  function Segments(f: Family, ip: nat): (s: seq<nat>)
    ensures |s| == SegmentCount(f)
  {
    ToDigits(ip, SegmentCount(f), SegmentBits(f))
  }

  function FromSegments(f: Family, s: seq<nat>): nat
  {
    FromDigits(s, SegmentBits(f))
  }

  lemma SegmentsRoundTrip(f: Family, ip: nat)
    requires ip < Limit(f)
    ensures FromSegments(f, Segments(f, ip)) == ip
    ensures AreDigits(Segments(f, ip), SegmentBits(f))
  {
    AddressSpans(f);
    LimitIsPower(f);
    FromToDigits(ip, SegmentCount(f), SegmentBits(f));
    DigitsFit(ip, SegmentCount(f), SegmentBits(f));
  }

  lemma SegmentsOfFrom(f: Family, s: seq<nat>)
    requires |s| == SegmentCount(f) && AreDigits(s, SegmentBits(f))
    ensures FromSegments(f, s) < Limit(f)
    ensures Segments(f, FromSegments(f, s)) == s
  {
    AddressSpans(f);
    LimitIsPower(f);
    FromDigitsFits(s, SegmentBits(f));
    ToFromDigits(s, SegmentBits(f));
  }

  /**
   The source gets at an address's number by shifting its octets in one at a time.
   For any address that is the number itself, and no shift loses a bit.
   */
  method IntegerFromIp(f: Family, ip: nat) returns (n: nat)
    requires ip < Limit(f)
    ensures n == ip
  {
    AddressSpans(f);
    LimitIsPower(f);
    var octets := ToDigits(ip, OctetCount(f), 8);
    DigitsFit(ip, OctetCount(f), 8);
    n := 0;
    for i := 0 to |octets|
      invariant n == FromDigits(octets[..i], 8)
    {
      Seqs.TakeOneMore(octets, i);
      Seqs.Parts(octets[..i], [octets[i]]);
      SpanMonotone(i + 1, OctetCount(f), 8);
      n := ShiftOctetIn(n, octets[..i], octets[i], AddressBits(f));
    }
    assert octets[..|octets|] == octets;
    FromToDigits(ip, OctetCount(f), 8);
  }

  method ShiftOctetIn(n: nat, ghost before: seq<nat>, octet: nat, width: nat) returns (r: nat)
    requires n == FromDigits(before, 8) && AreDigits(before, 8) && octet < Pow2(8)
    requires Span(|before| + 1, 8) <= width
    ensures r == n * Pow2(8) + octet
  {
    FromDigitsFits(before, 8);
    MulStrict(n, Pow2(Span(|before|, 8)), Pow2(8));
    Pow2Add(Span(|before|, 8), 8);
    Pow2Monotone(Span(|before| + 1, 8), width);
    Quotient(n * Pow2(8), Pow2(width), 0, n * Pow2(8));
    var shifted := (n * Pow2(8)) % Pow2(width);
    OrDisjoint(octet, n, 8);
    OrCommutes(shifted, octet);
    r := Or(shifted, octet);
  }

  // ---------------------------------------------------------------- differences

  datatype Difference = Difference(index: nat, value: nat)

  /** The segments from `i` on that `to` changes, in ascending order. */
  function DifferencesFrom(from: seq<nat>, to: seq<nat>, i: nat): seq<Difference>
    requires |from| == |to| && i <= |to|
    decreases |to| - i
  {
    if i == |to| then []
    else (if from[i] == to[i] then [] else [Difference(i, to[i])]) + DifferencesFrom(from, to, i + 1)
  }

  function IpsIntoDifferences(f: Family, from: nat, to: nat): seq<Difference>
  {
    DifferencesFrom(Segments(f, from), Segments(f, to), 0)
  }

  predicate Fits(f: Family, d: Difference) {
    d.index < SegmentCount(f) && d.value < Pow2(SegmentBits(f))
  }

  predicate AllFit(f: Family, ds: seq<Difference>) {
    forall i {:trigger ds[i]} | 0 <= i < |ds| :: Fits(f, ds[i])
  }

  function ApplyDifferences(s: seq<nat>, ds: seq<Difference>): (r: seq<nat>)
    requires forall i | 0 <= i < |ds| :: ds[i].index < |s|
    ensures |r| == |s|
    decreases |ds|
  {
    if ds == [] then s else ApplyDifferences(s[ds[0].index := ds[0].value], ds[1..])
  }

  lemma {:induction false} DifferencesRange(from: seq<nat>, to: seq<nat>, i: nat)
    requires |from| == |to| && i <= |to|
    ensures var ds := DifferencesFrom(from, to, i);
            && |ds| <= |to| - i
            && (forall k | 0 <= k < |ds| :: i <= ds[k].index < |to| && ds[k].value == to[ds[k].index])
            && (forall j, k | 0 <= j < k < |ds| :: ds[j].index < ds[k].index)
    decreases |to| - i
  {
    if i < |to| { DifferencesRange(from, to, i + 1); }
  }

  lemma {:induction false} NoDifference(from: seq<nat>, to: seq<nat>, i: nat)
    requires |from| == |to| && i <= |to|
    requires DifferencesFrom(from, to, i) == []
    ensures from[i..] == to[i..]
    decreases |to| - i
  {
    if i < |to| {
      NoDifference(from, to, i + 1);
      Seqs.DropOneMore(from, i);
      Seqs.DropOneMore(to, i);
    }
  }

  /** Applying the differences that lead to an address leads to it. */
  lemma {:induction false} DifferencesApply(from: seq<nat>, to: seq<nat>, i: nat)
    requires |from| == |to| && i <= |to| && from[..i] == to[..i]
    ensures forall k | 0 <= k < |DifferencesFrom(from, to, i)| :: DifferencesFrom(from, to, i)[k].index < |from|
    ensures ApplyDifferences(from, DifferencesFrom(from, to, i)) == to
    decreases |to| - i
  {
    DifferencesRange(from, to, i);
    if i < |to| {
      var from', rest := from[i := to[i]], DifferencesFrom(from, to, i + 1);
      assert from'[..i + 1] == to[..i + 1] by {
        Seqs.TakeOneMore(from', i);
        Seqs.TakeOneMore(to, i);
        assert from'[..i] == from[..i];
      }
      DifferencesIgnoreEarlier(from, from', to, i + 1);
      DifferencesApply(from', to, i + 1);
      if from[i] == to[i] {
        assert from' == from;
        Seqs.EmptyLeft(rest);
      } else {
        Seqs.Parts([Difference(i, to[i])], rest);
      }
    }
  }

  lemma {:induction false} DifferencesIgnoreEarlier(a: seq<nat>, b: seq<nat>, to: seq<nat>, i: nat)
    requires |a| == |b| == |to| && i <= |to| && a[i..] == b[i..]
    ensures DifferencesFrom(a, to, i) == DifferencesFrom(b, to, i)
    decreases |to| - i
  {
    if i < |to| {
      assert a[i] == a[i..][0] && b[i] == b[i..][0];
      assert a[i + 1..] == a[i..][1..] && b[i + 1..] == b[i..][1..];
      DifferencesIgnoreEarlier(a, b, to, i + 1);
    }
  }

  /**
   The segment-difference codec: exactly the segments that differ are listed, once each
   and in ascending order; between different addresses there is at least one, and the
   count less one, every index and every value fit their fields; and the differences
   applied to the one address give the other.
   */
  lemma DifferenceCodec(f: Family, from: nat, to: nat)
    requires from < Limit(f) && to < Limit(f)
    ensures var ds := IpsIntoDifferences(f, from, to);
            && (ds == [] <==> from == to)
            && |ds| <= SegmentCount(f)
            && AllFit(f, ds)
            && (forall j, k | 0 <= j < k < |ds| :: ds[j].index < ds[k].index)
            && (forall j | 0 <= j < SegmentCount(f) :: Lists(ds, j) <==> Segments(f, from)[j] != Segments(f, to)[j])
            && |ds| == |Differing(Segments(f, from), Segments(f, to), 0)|
            && FromSegments(f, ApplyDifferences(Segments(f, from), ds)) == to
  {
    hide Segments, FromSegments, DifferencesFrom, ApplyDifferences, Lists;
    var a, b := Segments(f, from), Segments(f, to);
    SegmentsRoundTrip(f, from);
    SegmentsRoundTrip(f, to);
    DifferencesRange(a, b, 0);
    DifferencesApply(a, b, 0);
    OnlyChanges(a, b, 0);
    if IpsIntoDifferences(f, from, to) == [] {
      NoDifference(a, b, 0);
      assert a[0..] == a && b[0..] == b;
    }
    if from == to { NoneToSelf(a, 0); }
  }

  lemma {:induction false} NoneToSelf(a: seq<nat>, i: nat)
    requires i <= |a|
    ensures DifferencesFrom(a, a, i) == []
    decreases |a| - i
  {
    if i < |a| { NoneToSelf(a, i + 1); }
  }

  /** The places from `i` on where two lists of segments differ. */
  function Differing(from: seq<nat>, to: seq<nat>, i: nat): set<nat>
    requires |from| == |to|
  {
    set j | i <= j < |to| && from[j] != to[j]
  }

  ghost predicate Lists(ds: seq<Difference>, j: nat) {
    exists k :: 0 <= k < |ds| && ds[k].index == j
  }

  lemma ListsCons(d: Difference, ds: seq<Difference>, j: nat)
    ensures Lists([d] + ds, j) <==> d.index == j || Lists(ds, j)
  {
    var all := [d] + ds;
    assert all[0] == d;
    if Lists(ds, j) {
      var k :| 0 <= k < |ds| && ds[k].index == j;
      assert all[k + 1].index == j;
    }
    if Lists(all, j) && d.index != j {
      var k :| 0 <= k < |all| && all[k].index == j;
      assert ds[k - 1].index == j;
    }
  }

  /** Exactly the places that differ are listed, each once. */
  lemma {:induction false} OnlyChanges(from: seq<nat>, to: seq<nat>, i: nat)
    requires |from| == |to| && i <= |to|
    ensures var ds := DifferencesFrom(from, to, i);
            && |ds| == |Differing(from, to, i)|
            && forall j :: Lists(ds, j) <==> j in Differing(from, to, i)
    decreases |to| - i
  {
    if i < |to| {
      OnlyChanges(from, to, i + 1);
      var more := DifferencesFrom(from, to, i + 1);
      if from[i] == to[i] {
        Seqs.EmptyLeft(more);
        assert Differing(from, to, i) == Differing(from, to, i + 1);
      } else {
        assert Differing(from, to, i) == {i} + Differing(from, to, i + 1);
        forall j ensures Lists([Difference(i, to[i])] + more, j) <==> j in Differing(from, to, i) {
          ListsCons(Difference(i, to[i]), more, j);
        }
      }
    } else {
      assert Differing(from, to, i) == {};
    }
  }

  /** Whatever differences are read, the segments stay segments. */
  lemma {:induction false} ApplyKeepsDigits(f: Family, s: seq<nat>, ds: seq<Difference>)
    requires |s| == SegmentCount(f) && AreDigits(s, SegmentBits(f))
    requires AllFit(f, ds)
    ensures AreDigits(ApplyDifferences(s, ds), SegmentBits(f))
    decreases |ds|
  {
    if ds != [] {
      assert Fits(f, ds[0]);
      ApplyKeepsDigits(f, s[ds[0].index := ds[0].value], ds[1..]);
    }
  }
}
