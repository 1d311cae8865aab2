/**
 ip_country/src/country_block_serde.rs, reading: records are read off a bit queue one
 ahead of the block they end, until one is not whole.
 */
module Deserializer {
  import opened Words
  import opened Addresses
  import opened BitQueues
  import opened CountryBlocks
  import opened Countries
  import opened StreamFormat
  import opened Serializer
  import opened Tiling
  import opened Wrappers
  import WordPacking
  import Seqs

  // -------------------------------------------------------------- reading a record

  /** Makes up to `n` attempts; each takes an index, and a value only after an index. */
  method ReadDifferencesFrom(f: Family, q: BitQueue, n: nat) returns (ds: seq<Difference>)
    requires q.Valid()
    modifies q
    ensures q.Valid()
    ensures (ds, q.contents) == ReadDifferences(f, old(q.contents), n)
  {
    hide ReadDifferences, BitQueue.Valid;
    ds := [];
    ghost var all := ReadDifferences(f, q.contents, n);
    Seqs.EmptyLeft(all.0);
    for i := 0 to n
      invariant q.Valid()
      invariant ds + ReadDifferences(f, q.contents, n - i).0 == all.0
      invariant ReadDifferences(f, q.contents, n - i).1 == all.1
    {
      ghost var rest := ReadDifferences(f, q.contents, n - i);
      var d := ReadDifference(f, q, n - i);
      if d.Some? {
        Seqs.Assoc(ds, [d.value], ReadDifferences(f, q.contents, n - i - 1).0);
        ds := ds + [d.value];
      }
    }
    NoAttempts(f, q.contents);
    Seqs.EmptyRight(ds);
  }

  lemma NoAttempts(f: Family, bits: seq<bool>)
    ensures ReadDifferences(f, bits, 0) == ([], bits)
  {
  }

  method ReadDifference(f: Family, q: BitQueue, ghost n: nat) returns (d: Option<Difference>)
    requires q.Valid() && n > 0
    modifies q
    ensures q.Valid()
    ensures var before, after := ReadDifferences(f, old(q.contents), n), ReadDifferences(f, q.contents, n - 1);
            && after.1 == before.1
            && before.0 == if d.Some? then [d.value] + after.0 else after.0
  {
    hide BitQueue.Valid;
    var index := q.TakeBits(IndexBits(f));
    if index.None? { return None; }
    var value := q.TakeBits(SegmentBits(f));
    if value.None? { return None; }
    return Some(Difference(index.value, value.value));
  }

  /** Applies the differences to the segments in place, in the order they were read. */
  method NewStart(f: Family, prev: nat, ds: seq<Difference>) returns (start: nat)
    requires AllFit(f, ds)
    ensures start == StartFrom(f, prev, ds)
  {
    var segments := new nat[SegmentCount(f)](i requires 0 <= i < SegmentCount(f) => Segments(f, prev)[i]);
    assert segments[..] == Segments(f, prev);
    for i := 0 to |ds|
      invariant ApplyDifferences(segments[..], ds[i..]) == ApplyDifferences(Segments(f, prev), ds)
    {
      assert ds[i..][1..] == ds[i + 1..];
      ghost var before := segments[..];
      segments[ds[i].index] := ds[i].value;
      assert segments[..] == before[ds[i].index := ds[i].value];
    }
    start := FromSegments(f, segments[..]);
  }

  /** Reads exactly what `ReadRecord` says, from any bits at all. */
  method GetRecord(f: Family, q: BitQueue, prev: nat) returns (r: Option<Record>)
    requires q.Valid()
    modifies q
    ensures q.Valid()
    ensures (r, q.contents) == ReadRecord(f, old(q.contents), prev)
  {
    hide ReadDifferences, BitQueue.Valid, StartFrom;
    var countMinusOne := q.TakeBits(IndexBits(f));
    if countMinusOne.None? { return None; }
    BitsOfVal(old(q.contents)[..IndexBits(f)]);
    FieldsHoldSegments(f);
    var n: nat := countMinusOne.value + 1;
    var ds := ReadDifferencesFrom(f, q, n);
    if |ds| < n { return None; }
    var country := q.TakeBits(COUNTRY_BITS);
    if country.None? { return None; }
    var start := NewStart(f, prev, ds);
    return Some(Record(start, country.value));
  }

  // -------------------------------------------------------------- blocks one by one

  predicate InTable(t: CountryTable, rs: seq<Record>) {
    forall i | 0 <= i < |rs| :: rs[i].country < |t.countries|
  }

  ghost predicate InSpace(f: Family, rs: seq<Record>) {
    forall i | 0 <= i < |rs| :: rs[i].start < Limit(f)
  }

  function Resolve(f: Family, t: CountryTable, b: Block): CountryBlock
    requires b.country < |t.countries|
  {
    CountryBlock(IpRange(f, b.low, b.high), t.countries[b.country])
  }

  function ResolveAll(f: Family, t: CountryTable, bs: seq<Block>): (r: seq<CountryBlock>)
    requires forall i | 0 <= i < |bs| :: bs[i].country < |t.countries|
    ensures |r| == |bs|
  {
    seq(|bs|, i requires 0 <= i < |bs| => Resolve(f, t, bs[i]))
  }

  /** The country blocks that records stand for. */
  function Yield(f: Family, t: CountryTable, rs: seq<Record>): seq<CountryBlock>
    requires InTable(t, rs) && InSpace(f, rs)
  {
    ResolveAll(f, t, BlocksOf(f, rs))
  }

  lemma YieldCons(f: Family, t: CountryTable, rs: seq<Record>)
    requires rs != [] && InTable(t, rs) && InSpace(f, rs)
    ensures Yield(f, t, rs) == [Resolve(f, t, BlockAt(f, rs, 0))] + Yield(f, t, rs[1..])
  {
    var tail := rs[1..];
    assert forall i | 0 <= i < |tail| :: tail[i] == rs[i + 1];
    assert forall i | 0 <= i < |tail| :: BlockAt(f, tail, i) == BlockAt(f, rs, i + 1);
  }

  lemma {:induction false} DecodeInSpace(f: Family, bits: seq<bool>, prev: nat)
    ensures InSpace(f, Decode(f, bits, prev))
    decreases |bits|
  {
    var (r, rest) := ReadRecord(f, bits, prev);
    if r.Some? { DecodeInSpace(f, rest, r.value.start); }
  }

  lemma DecodeStep(f: Family, bits: seq<bool>, prev: nat)
    requires Decode(f, bits, prev) != []
    ensures var (r, rest) := ReadRecord(f, bits, prev);
      r.Some? && Decode(f, bits, prev) == [r.value] + Decode(f, rest, r.value.start)
  {
    hide ReadRecord;
  }

  class CountryBlockDeserializer {
    const family: Family
    const countries: CountryTable
    var prevRecord: Record
    const bitQueue: BitQueue
    var empty: bool
    ghost var pending: seq<Record>  // the records whose blocks are still to come

    ghost predicate Valid()
      reads this, bitQueue
    {
      && bitQueue.Valid()
      && InSpace(family, pending)
      && (empty ==> pending == [])
      && (!empty ==> pending == [prevRecord] + Decode(family, bitQueue.contents, prevRecord.start))
    }

    /** Reads the first record; without one the source panics. */
    constructor (f: Family, words: seq<u64>, bitCount: nat, t: CountryTable)
      requires WordPacking.WordsFor(bitCount) <= |words|
      requires Decode(f, WordPacking.WordBits(words, bitCount), InitialStart(f)) != []
      ensures Valid() && fresh(bitQueue)
      ensures family == f && countries == t
      ensures pending == Decode(f, WordPacking.WordBits(words, bitCount), InitialStart(f))
    {
      hide BitQueue.Valid, ReadRecord, Decode, InSpace, WordPacking.WordBits;
      var q := WordPacking.Load(words, bitCount);
      ghost var bits := q.contents;
      DecodeInSpace(f, bits, InitialStart(f));
      DecodeStep(f, bits, InitialStart(f));
      var first := GetRecord(f, q, InitialStart(f));
      family, countries, bitQueue := f, t, q;
      prevRecord, empty := first.value, false;
      pending := Decode(f, bits, InitialStart(f));
    }

    /**
     The next block: from the record in hand to just below the start of the next, or
     to the largest address if there is no whole record left. A country that is not
     in the table panics.
     */
    method Next() returns (r: Option<CountryBlock>)
      requires Valid() && InTable(countries, pending)
      modifies this, bitQueue
      ensures Valid()
      ensures old(pending) == [] ==> r.None? && pending == []
      ensures old(pending) != [] ==>
                && r == Some(Resolve(family, countries, BlockAt(family, old(pending), 0)))
                && pending == old(pending)[1..]
    {
      hide BitQueue.Valid, ReadRecord;
      if empty { return None; }
      ghost var bits := bitQueue.contents;
      DecodeInSpace(family, bits, prevRecord.start);
      var next := GetRecord(family, bitQueue, prevRecord.start);
      Seqs.Parts([prevRecord], Decode(family, bits, prevRecord.start));
      assert pending[0] == prevRecord;
      pending := pending[1..];
      match next {
        case Some(record) =>
          r := Some(CountryBlock(IpRange(family, prevRecord.start, MinusOne(family, record.start)),
                                 countries.countries[prevRecord.country]));
          prevRecord := record;
        case None =>
          empty := true;
          r := Some(CountryBlock(IpRange(family, prevRecord.start, MaxIp(family)),
                                 countries.countries[prevRecord.country]));
      }
    }

    /** All blocks still to come, in order. */
    method CollectVec() returns (blocks: seq<CountryBlock>)
      requires Valid() && InTable(countries, pending)
      modifies this, bitQueue
      ensures Valid() && pending == []
      ensures blocks == Yield(family, countries, old(pending))
    {
      blocks := [];
      ghost var all := Yield(family, countries, pending);
      Seqs.EmptyLeft(all);
      while true
        invariant Valid() && InTable(countries, pending)
        invariant blocks + Yield(family, countries, pending) == all
        decreases |pending|
      {
        ghost var before := pending;
        if before != [] { YieldCons(family, countries, before); }
        var r := Next();
        if r.None? {
          Seqs.EmptyRight(blocks);
          return;
        }
        Seqs.Assoc(blocks, [r.value], Yield(family, countries, pending));
        blocks := blocks + [r.value];
      }
    }
  }
}
