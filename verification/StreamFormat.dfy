/**
 The compressed stream as a value: a list of records, each the start of a block
 and its country, written as the segments its start changes from the record before.
 Writing and reading are defined on plain bit sequences, and shown to be inverse;
 a stream cut off anywhere reads as the records that are whole.
 */
module StreamFormat {
  import opened Words
  import opened Addresses
  import opened Wrappers
  import Seqs

  datatype Record = Record(start: nat, country: nat)

  const COUNTRY_BITS: nat := 9

  /** The address that the first record is taken to differ from. */
  function InitialStart(f: Family): (r: nat)
    ensures r < Limit(f)
  {
    MaxIp(f) - 1
  }

  // -------------------------------------------------------------------- writing

  predicate Codable(f: Family, prev: nat, r: Record) {
    && prev < Limit(f) && r.start < Limit(f)
    && r.start != prev
    && r.country < Pow2(COUNTRY_BITS)
  }

  /** Every record can be written after the one before it. */
  predicate Chain(f: Family, prev: nat, rs: seq<Record>)
    decreases |rs|
  {
    rs == [] || (Codable(f, prev, rs[0]) && Chain(f, rs[0].start, rs[1..]))
  }

  function LastStart(prev: nat, rs: seq<Record>): nat
  {
    if rs == [] then prev else rs[|rs| - 1].start
  }

  function EncodeDifference(f: Family, d: Difference): (b: seq<bool>)
    ensures |b| == IndexBits(f) + SegmentBits(f)
  {
    Bits(d.index, IndexBits(f)) + Bits(d.value, SegmentBits(f))
  }

  function EncodeDifferences(f: Family, ds: seq<Difference>): (b: seq<bool>)
    ensures |b| == Span(|ds|, IndexBits(f) + SegmentBits(f))
  {
    if ds == [] then [] else EncodeDifference(f, ds[0]) + EncodeDifferences(f, ds[1..])
  }

  function EncodeRecord(f: Family, prev: nat, r: Record): (b: seq<bool>)
    requires Codable(f, prev, r)
    ensures |b| >= IndexBits(f) + COUNTRY_BITS
  {
    DifferenceCodec(f, prev, r.start);
    var ds := IpsIntoDifferences(f, prev, r.start);
    Bits(|ds| - 1, IndexBits(f)) + (EncodeDifferences(f, ds) + Bits(r.country, COUNTRY_BITS))
  }

  function Encode(f: Family, prev: nat, rs: seq<Record>): seq<bool>
    requires Chain(f, prev, rs)
    decreases |rs|
  {
    if rs == [] then [] else EncodeRecord(f, prev, rs[0]) + Encode(f, rs[0].start, rs[1..])
  }

  lemma {:induction false} ChainAppend(f: Family, prev: nat, rs: seq<Record>, r: Record)
    requires Chain(f, prev, rs) && Codable(f, LastStart(prev, rs), r)
    ensures Chain(f, prev, rs + [r])
    ensures Encode(f, prev, rs + [r]) == Encode(f, prev, rs) + EncodeRecord(f, LastStart(prev, rs), r)
    decreases |rs|
  {
    if rs == [] {
      Seqs.EmptyLeft([r]);
      Seqs.EmptyLeft(EncodeRecord(f, prev, r));
      Seqs.EmptyRight(EncodeRecord(f, prev, r));
    } else {
      var start, tail := rs[0].start, rs[1..];
      Seqs.TailOfConcat(rs, [r]);
      ChainAppend(f, start, tail, r);
      Seqs.Assoc(EncodeRecord(f, prev, rs[0]), Encode(f, start, tail), EncodeRecord(f, LastStart(start, tail), r));
    }
  }

  // -------------------------------------------------------------------- the layout

  function Ones(n: nat, w: nat): seq<nat> { seq(n, _ => Pow2(w) - 1) }

  lemma {:induction false} FromOnes(n: nat, w: nat)
    ensures AreDigits(Ones(n, w), w) && FromDigits(Ones(n, w), w) == Pow2(Span(n, w)) - 1
  {
    if n > 0 {
      FromOnes(n - 1, w);
      assert Ones(n, w)[..n - 1] == Ones(n - 1, w);
      Pow2Add(Span(n - 1, w), w);
      OneLess(Pow2(Span(n - 1, w)), Pow2(w));
    }
  }

  lemma OneLess(q: nat, p: nat)
    requires q > 0 && p > 0
    ensures (q - 1) * p + (p - 1) == q * p - 1
  {
  }

  /** Ones, but for the last bit. */
  function AlmostOnes(n: nat, w: nat): (s: seq<nat>)
    requires n > 0 && w > 0
    ensures |s| == n
  {
    Pow2Monotone(1, w);
    var last: nat := Pow2(w) - 2;
    Ones(n - 1, w) + [last]
  }

  lemma AtLeastTwo(w: nat)
    requires w > 0
    ensures Pow2(w) >= 2
  {
    Pow2Monotone(1, w);
  }

  lemma FromSnoc(s: seq<nat>, d: nat, w: nat)
    ensures FromDigits(s + [d], w) == FromDigits(s, w) * Pow2(w) + d
  {
    Seqs.Parts(s, [d]);
  }

  lemma FromAlmostOnes(n: nat, w: nat)
    requires n > 0 && w > 0
    ensures AreDigits(AlmostOnes(n, w), w) && FromDigits(AlmostOnes(n, w), w) + 2 == Pow2(Span(n, w))
  {
    hide FromDigits, Ones, Pow2;
    FromOnes(n - 1, w);
    AtLeastTwo(w);
    FromSnoc(Ones(n - 1, w), Pow2(w) - 2, w);
    Pow2Add(Span(n - 1, w), w);
    OneLess(Pow2(Span(n - 1, w)), Pow2(w));
  }

  /** The first record is taken to differ from the last address but one. */
  lemma InitialSegments(f: Family)
    ensures Segments(f, InitialStart(f)) == AlmostOnes(SegmentCount(f), SegmentBits(f))
  {
    hide Pow2, AlmostOnes, Segments, FromDigits, Span;
    FromAlmostOnes(SegmentCount(f), SegmentBits(f));
    AddressSpans(f);
    LimitIsPower(f);
    SegmentsOfFrom(f, AlmostOnes(SegmentCount(f), SegmentBits(f)));
  }

  /** So the first record, which starts at address 0, lists every segment. */
  lemma FirstRecordIsFull(f: Family)
    ensures |Differing(Segments(f, InitialStart(f)), Segments(f, 0), 0)| == SegmentCount(f)
  {
    hide Segments, InitialStart;
    var w := SegmentBits(f);
    Pow2Monotone(2, w);
    assert Pow2(2) == 4;
    InitialSegments(f);
    SegmentsOfZero(f);
    AllDiffer(Segments(f, InitialStart(f)), Segments(f, 0), 0);
  }

  lemma {:induction false} AllDiffer(a: seq<nat>, b: seq<nat>, i: nat)
    requires |a| == |b| && i <= |b| && forall j | 0 <= j < |b| :: a[j] != b[j]
    ensures |Differing(a, b, i)| == |b| - i
    decreases |b| - i
  {
    if i < |b| {
      AllDiffer(a, b, i + 1);
      assert Differing(a, b, i) == {i} + Differing(a, b, i + 1);
    } else {
      assert Differing(a, b, i) == {};
    }
  }

  lemma SegmentsOfZero(f: Family)
    ensures Segments(f, 0) == seq(SegmentCount(f), _ => 0)
  {
    DigitsOfZero(SegmentCount(f), SegmentBits(f));
  }

  lemma {:induction false} DigitsOfZero(n: nat, w: nat)
    ensures ToDigits(0, n, w) == seq(n, _ => 0)
  {
    if n > 0 {
      ShrOfSmall(0, w);
      DigitsOfZero(n - 1, w);
    }
  }

  lemma {:induction false} DifferenceFields(f: Family, ds: seq<Difference>, k: nat)
    requires AllFit(f, ds) && k < |ds|
    ensures var w, o := IndexBits(f) + SegmentBits(f), Span(k, IndexBits(f) + SegmentBits(f));
            && o + w <= |EncodeDifferences(f, ds)|
            && EncodeDifferences(f, ds)[o..o + w] == EncodeDifference(f, ds[k])
    decreases k
  {
    hide Bits, EncodeDifference;
    var w := IndexBits(f) + SegmentBits(f);
    var first, rest := EncodeDifference(f, ds[0]), EncodeDifferences(f, ds[1..]);
    Seqs.Parts(first, rest);
    if k > 0 {
      DifferenceFields(f, ds[1..], k - 1);
      var o := Span(k - 1, w);
      assert (first + rest)[w + o..w + o + w] == rest[o..o + w];
    } else {
      assert (first + rest)[0..w] == first;
    }
  }

  /**
   A record as bits: the number of segments that change, less one; for each of them its
   index and its new value; nine bits of country. It is as long as that and no longer.
   */
  lemma RecordLayout(f: Family, prev: nat, r: Record)
    requires Codable(f, prev, r)
    ensures var n := |Differing(Segments(f, prev), Segments(f, r.start), 0)|;
            var bits := EncodeRecord(f, prev, r);
            && |bits| == IndexBits(f) + n * (IndexBits(f) + SegmentBits(f)) + COUNTRY_BITS
            && Val(bits[..IndexBits(f)]) == n - 1
            && Val(bits[|bits| - COUNTRY_BITS..]) == r.country
  {
    hide Bits, Val, IpsIntoDifferences, Differing, Segments;
    DifferenceCodec(f, prev, r.start);
    FieldsHoldSegments(f);
    var ds := IpsIntoDifferences(f, prev, r.start);
    var a, b, c := Bits(|ds| - 1, IndexBits(f)), EncodeDifferences(f, ds), Bits(r.country, COUNTRY_BITS);
    SpanIsProduct(|ds|, IndexBits(f) + SegmentBits(f));
    Seqs.Parts(a, b + c);
    ValOfSmall(|ds| - 1, IndexBits(f));
    ValOfSmall(r.country, COUNTRY_BITS);
    assert (a + (b + c))[|a| + |b|..] == c;
  }

  /** Where the k-th of its changes stands: index, then value. */
  lemma RecordField(f: Family, prev: nat, r: Record, k: nat)
    requires Codable(f, prev, r) && k < |IpsIntoDifferences(f, prev, r.start)|
    ensures var w, bits := IndexBits(f) + SegmentBits(f), EncodeRecord(f, prev, r);
            var d, o := IpsIntoDifferences(f, prev, r.start)[k], IndexBits(f) + Span(k, w);
            o + w <= |bits| && bits[o..o + w] == Bits(d.index, IndexBits(f)) + Bits(d.value, SegmentBits(f))
  {
    hide Bits, Val, IpsIntoDifferences, Span;
    DifferenceCodec(f, prev, r.start);
    var ds := IpsIntoDifferences(f, prev, r.start);
    var w := IndexBits(f) + SegmentBits(f);
    var a, b, c := Bits(|ds| - 1, IndexBits(f)), EncodeDifferences(f, ds), Bits(r.country, COUNTRY_BITS);
    DifferenceFields(f, ds, k);
    MiddleOf(a, b, c, Span(k, w), w);
  }

  lemma MiddleOf(a: seq<bool>, b: seq<bool>, c: seq<bool>, o: nat, w: nat)
    requires o + w <= |b|
    ensures (a + (b + c))[|a| + o..|a| + o + w] == b[o..o + w]
  {
  }

  // -------------------------------------------------------------------- reading

  /**
   Reads up to `n` differences. A field that is not there yields no difference, but
   what was taken before it is gone and the remaining attempts are still made.
   */
  function ReadDifferences(f: Family, bits: seq<bool>, n: nat): (r: (seq<Difference>, seq<bool>))
    ensures |r.0| <= n && Span(|r.0|, IndexBits(f) + SegmentBits(f)) + |r.1| <= |bits|
    ensures AllFit(f, r.0)
    decreases n
  {
    if n == 0 then ([], bits)
    else if |bits| < IndexBits(f) then ReadDifferences(f, bits, n - 1)
    else
      var index, afterIndex := Val(bits[..IndexBits(f)]), bits[IndexBits(f)..];
      if |afterIndex| < SegmentBits(f) then ReadDifferences(f, afterIndex, n - 1)
      else
        var value := Val(afterIndex[..SegmentBits(f)]);
        BitsOfVal(bits[..IndexBits(f)]);
        BitsOfVal(afterIndex[..SegmentBits(f)]);
        FieldsHoldSegments(f);
        var (ds, rest) := ReadDifferences(f, afterIndex[SegmentBits(f)..], n - 1);
        ([Difference(index, value)] + ds, rest)
  }

  /** The start that a record's differences make of the start before it. */
  function StartFrom(f: Family, prev: nat, ds: seq<Difference>): (r: nat)
    requires AllFit(f, ds)
    ensures r < Limit(f)
  {
    DigitsFit(prev, SegmentCount(f), SegmentBits(f));
    ApplyKeepsDigits(f, Segments(f, prev), ds);
    SegmentsOfFrom(f, ApplyDifferences(Segments(f, prev), ds));
    FromSegments(f, ApplyDifferences(Segments(f, prev), ds))
  }

  /** One record, and what is left of the bits; no record when a field is missing. */
  function ReadRecord(f: Family, bits: seq<bool>, prev: nat): (r: (Option<Record>, seq<bool>))
    ensures |r.1| <= |bits|
    ensures r.0.Some? ==> |r.1| < |bits| && r.0.value.start < Limit(f) && r.0.value.country < Pow2(COUNTRY_BITS)
  {
    if |bits| < IndexBits(f) then (None, bits)
    else
      var n := Val(bits[..IndexBits(f)]) + 1;
      var (ds, rest) := ReadDifferences(f, bits[IndexBits(f)..], n);
      if |ds| < n || |rest| < COUNTRY_BITS then (None, rest)
      else
        BitsOfVal(rest[..COUNTRY_BITS]);
        (Some(Record(StartFrom(f, prev, ds), Val(rest[..COUNTRY_BITS]))), rest[COUNTRY_BITS..])
  }

  /** All records up to the first that is not whole. */
  function Decode(f: Family, bits: seq<bool>, prev: nat): seq<Record>
    decreases |bits|
  {
    match ReadRecord(f, bits, prev)
    case (None, _) => []
    case (Some(r), rest) => [r] + Decode(f, rest, r.start)
  }

  /** The nine-bit field gives a country's index back exactly when it is below 512. */
  lemma CountryFieldIsExact(country: nat)
    ensures Val(Bits(country, COUNTRY_BITS)) == country <==> country < 512
    ensures Val(Bits(512, COUNTRY_BITS)) == 0
  {
    assert Pow2(COUNTRY_BITS) == 512;
    ValOfBits(country, COUNTRY_BITS);
    ValOfBits(512, COUNTRY_BITS);
    if country < 512 { Quotient(country, 512, 0, country); }
    Quotient(512, 512, 1, 0);
  }

  // ------------------------------------------------------- reading what is written

  lemma {:induction false} ReadsDifferences(f: Family, ds: seq<Difference>, rest: seq<bool>)
    requires AllFit(f, ds)
    ensures ReadDifferences(f, EncodeDifferences(f, ds) + rest, |ds|) == (ds, rest)
    decreases |ds|
  {
    if ds == [] {
      Seqs.EmptyLeft(rest);
    } else {
      var d, tail := ds[0], EncodeDifferences(f, ds[1..]) + rest;
      var index, value := Bits(d.index, IndexBits(f)), Bits(d.value, SegmentBits(f));
      ReadsDifferences(f, ds[1..], rest);
      Seqs.Assoc(index + value, EncodeDifferences(f, ds[1..]), rest);
      Seqs.Assoc(index, value, tail);
      Seqs.Parts(index, value + tail);
      Seqs.Parts(value, tail);
      FieldsHoldSegments(f);
      ValOfSmall(d.index, IndexBits(f));
      ValOfSmall(d.value, SegmentBits(f));
      Seqs.Uncons(ds);
    }
  }

  /** Reading a written record gives the record and leaves the bits behind it. */
  lemma ReadsRecord(f: Family, prev: nat, r: Record, rest: seq<bool>)
    requires Codable(f, prev, r)
    ensures ReadRecord(f, EncodeRecord(f, prev, r) + rest, prev) == (Some(r), rest)
  {
    var ds := IpsIntoDifferences(f, prev, r.start);
    DifferenceCodec(f, prev, r.start);
    var count, body, country := Bits(|ds| - 1, IndexBits(f)), EncodeDifferences(f, ds), Bits(r.country, COUNTRY_BITS);
    Seqs.Assoc(count, body + country, rest);
    Seqs.Assoc(body, country, rest);
    Seqs.Parts(count, body + (country + rest));
    FieldsHoldSegments(f);
    ValOfSmall(|ds| - 1, IndexBits(f));
    ReadsDifferences(f, ds, country + rest);
    Seqs.Parts(country, rest);
    ValOfSmall(r.country, COUNTRY_BITS);
  }

  /** No record is read from fewer bits than its difference count calls for. */
  lemma TooShortToRead(f: Family, bits: seq<bool>, prev: nat, n: nat)
    requires |bits| >= IndexBits(f) && n == Val(bits[..IndexBits(f)]) + 1
    requires |bits| < IndexBits(f) + Span(n, IndexBits(f) + SegmentBits(f)) + COUNTRY_BITS
    ensures ReadRecord(f, bits, prev).0.None?
  {
  }

  /** A record that is cut off is not read. */
  lemma CutRecordIsNotRead(f: Family, prev: nat, r: Record, n: nat)
    requires Codable(f, prev, r)
    requires n < |EncodeRecord(f, prev, r)|
    ensures ReadRecord(f, EncodeRecord(f, prev, r)[..n], prev).0.None?
  {
    if n >= IndexBits(f) {
      var ds := IpsIntoDifferences(f, prev, r.start);
      DifferenceCodec(f, prev, r.start);
      var whole, count := EncodeRecord(f, prev, r), Bits(|ds| - 1, IndexBits(f));
      assert whole[..n][..IndexBits(f)] == count;
      FieldsHoldSegments(f);
      ValOfSmall(|ds| - 1, IndexBits(f));
      TooShortToRead(f, whole[..n], prev, |ds|);
    }
  }

  /** How many of the records lie whole within the first `n` bits. */
  function WholeRecords(f: Family, prev: nat, rs: seq<Record>, n: nat): (k: nat)
    requires Chain(f, prev, rs)
    ensures k <= |rs|
    decreases |rs|
  {
    if rs == [] || n < |EncodeRecord(f, prev, rs[0])| then 0
    else 1 + WholeRecords(f, rs[0].start, rs[1..], n - |EncodeRecord(f, prev, rs[0])|)
  }

  /** It is the largest number of records whose encoding fits into those bits. */
  lemma {:induction false} WholeRecordsIsLargest(f: Family, prev: nat, rs: seq<Record>, n: nat, k: nat)
    requires Chain(f, prev, rs) && k <= |rs|
    ensures Chain(f, prev, rs[..k])
    ensures |Encode(f, prev, rs[..k])| <= n <==> k <= WholeRecords(f, prev, rs, n)
    decreases |rs|
  {
    hide EncodeRecord, Codable;
    if k > 0 {
      var size := |EncodeRecord(f, prev, rs[0])|;
      assert rs[..k][1..] == rs[1..][..k - 1];
      WholeRecordsIsLargest(f, rs[0].start, rs[1..], if n < size then 0 else n - size, k - 1);
    }
  }

  /** A stream cut off after any number of bits reads as exactly its whole records. */
  lemma {:induction false} DecodePrefix(f: Family, prev: nat, rs: seq<Record>, n: nat)
    requires Chain(f, prev, rs) && n <= |Encode(f, prev, rs)|
    ensures Decode(f, Encode(f, prev, rs)[..n], prev) == rs[..WholeRecords(f, prev, rs, n)]
    decreases |rs|
  {
    if rs == [] {
    } else {
      var first, rest := EncodeRecord(f, prev, rs[0]), Encode(f, rs[0].start, rs[1..]);
      if n < |first| {
        Seqs.PrefixOfConcat(first, rest, n);
        CutRecordIsNotRead(f, prev, rs[0], n);
      } else {
        var m := n - |first|;
        Seqs.PrefixPastConcat(first, rest, n);
        ReadsRecord(f, prev, rs[0], rest[..m]);
        DecodePrefix(f, rs[0].start, rs[1..], m);
        Seqs.TakeFromTail(rs, WholeRecords(f, rs[0].start, rs[1..], m));
      }
    }
  }

  /** The whole stream reads as what was written. */
  lemma DecodeEncode(f: Family, prev: nat, rs: seq<Record>)
    requires Chain(f, prev, rs)
    ensures Decode(f, Encode(f, prev, rs), prev) == rs
  {
    var bits := Encode(f, prev, rs);
    assert bits[..|bits|] == bits;
    DecodePrefix(f, prev, rs, |bits|);
    assert rs[..|rs|] == rs;
    WholeRecordsIsLargest(f, prev, rs, |bits|, |rs|);
  }
}
