/**
 ip_country/src/country_block_serde.rs, writing: blocks of one family go in, gaps
 between them are filled with blocks of country 0, and each block becomes a record
 in a bit queue.
 */
module Serializer {
  import opened Words
  import opened Addresses
  import opened BitQueues
  import opened StreamFormat
  import Seqs

  /** A block of one family, with its country's index. */
  datatype Block = Block(low: nat, high: nat, country: nat)

  function RecordOf(b: Block): Record { Record(b.low, b.country) }

  function Records(bs: seq<Block>): (rs: seq<Record>)
    ensures |rs| == |bs|
    ensures forall i | 0 <= i < |bs| :: rs[i] == RecordOf(bs[i])
  {
    seq(|bs|, i requires 0 <= i < |bs| => RecordOf(bs[i]))
  }

  lemma RecordsAppend(bs: seq<Block>, b: Block)
    ensures Records(bs + [b]) == Records(bs) + [RecordOf(b)]
  {
  }

  /** The end of the last block; the largest address before there is one. */
  function LastEnd(f: Family, bs: seq<Block>): nat
  {
    if bs == [] then MaxIp(f) else bs[|bs| - 1].high
  }

  /** What a block adds: itself, after a filler when it does not follow on. */
  function WithGap(f: Family, prevEnd: nat, b: Block): seq<Block>
    requires prevEnd < Limit(f) && b.low < Limit(f)
  {
    var expected := PlusOne(f, prevEnd);
    if b.low == expected then [b] else [Block(expected, MinusOne(f, b.low), 0), b]
  }

  // --------------------------------------------------------------- one record

  lemma {:induction false} EncodeDifferencesAppend(f: Family, ds: seq<Difference>, d: Difference)
    ensures EncodeDifferences(f, ds + [d]) == EncodeDifferences(f, ds) + EncodeDifference(f, d)
  {
    if ds == [] {
      Seqs.EmptyLeft([d]);
      Seqs.EmptyLeft(EncodeDifference(f, d));
      Seqs.EmptyRight(EncodeDifference(f, d));
    } else {
      EncodeDifferencesAppend(f, ds[1..], d);
      Seqs.TailOfConcat(ds, [d]);
      Seqs.Assoc(EncodeDifference(f, ds[0]), EncodeDifferences(f, ds[1..]), EncodeDifference(f, d));
    }
  }

  /** Adds data that fits its field, so that the queue can be added to again. */
  method AddField(q: BitQueue, data: nat, width: nat)
    requires q.Valid() && q.Clean()
    requires width <= 16 && data < Pow2(width)
    modifies q
    ensures q.Valid() && q.Clean()
    ensures q.contents == old(q.contents) + Bits(data, width)
  {
    WordSizes();
    Pow2Monotone(width, 64);
    q.AddBits(data, width);
    ResidueIsZero(data, width, q.backBlank);
  }

  method AddDifferences(f: Family, q: BitQueue, ds: seq<Difference>)
    requires q.Valid() && q.Clean()
    requires AllFit(f, ds)
    modifies q
    ensures q.Valid() && q.Clean()
    ensures q.contents == old(q.contents) + EncodeDifferences(f, ds)
  {
    ghost var before := q.contents;
    FieldsHoldSegments(f);
    Seqs.EmptyRight(before);
    for i := 0 to |ds|
      invariant q.Valid() && q.Clean()
      invariant q.contents == before + EncodeDifferences(f, ds[..i])
    {
      AddField(q, ds[i].index, IndexBits(f));
      AddField(q, ds[i].value, SegmentBits(f));
      Seqs.TakeOneMore(ds, i);
      EncodeDifferencesAppend(f, ds[..i], ds[i]);
      Seqs.Assoc(before, EncodeDifferences(f, ds[..i]), Bits(ds[i].index, IndexBits(f)));
      Seqs.Assoc(before + EncodeDifferences(f, ds[..i]), Bits(ds[i].index, IndexBits(f)),
                 Bits(ds[i].value, SegmentBits(f)));
      Seqs.Assoc(before, EncodeDifferences(f, ds[..i]), EncodeDifference(f, ds[i]));
    }
    assert ds[..|ds|] == ds;
  }

  method AddRecord(f: Family, q: BitQueue, prev: nat, r: Record)
    requires q.Valid() && q.Clean()
    requires Codable(f, prev, r)
    modifies q
    ensures q.Valid() && q.Clean()
    ensures q.contents == old(q.contents) + EncodeRecord(f, prev, r)
  {
    ghost var before := q.contents;
    var ds := IpsIntoDifferences(f, prev, r.start);
    DifferenceCodec(f, prev, r.start);
    FieldsHoldSegments(f);
    var countMinusOne: nat := |ds| - 1;  // the difference list is never empty here
    AddField(q, countMinusOne, IndexBits(f));
    AddDifferences(f, q, ds);
    AddField(q, r.country, COUNTRY_BITS);
    ghost var a, b, c := Bits(countMinusOne, IndexBits(f)), EncodeDifferences(f, ds), Bits(r.country, COUNTRY_BITS);
    Seqs.Assoc(before, a, b);
    Seqs.Assoc(before, a + b, c);
    Seqs.Assoc(a, b, c);
  }

  // ------------------------------------------------- an index too large for its field

  /**
   An index of 512 or more does not only read as another one: its bits above the ninth
   stay in the back byte, and the count of the record behind it is ored onto them.
   */
  method SurplusSpills(f: Family, q: BitQueue, country: u64, count: nat) returns (ghost blank: nat)
    requires q.Valid() && q.Clean()
    requires 0 < count <= SegmentCount(f)
    modifies q
    ensures q.Valid() && blank > 0
    ensures q.contents == old(q.contents) + Bits(country, COUNTRY_BITS)
                          + Bits(Or(count - 1, Rem(country / 512, Pow2(blank))), IndexBits(f))
  {
    hide BitQueue.Valid, Bits, Or, Val, Shr;
    q.AddBits(country, COUNTRY_BITS);
    blank := q.backBlank;
    SurplusIs(country, blank);
    q.AddBits(count - 1, IndexBits(f));
  }

  lemma SurplusIs(country: nat, blank: nat)
    ensures Val(Bits(Shr(country, COUNTRY_BITS), blank)) == Rem(country / 512, Pow2(blank))
  {
    ValOfBits(Shr(country, COUNTRY_BITS), blank);
    ShrIsDiv(country, COUNTRY_BITS);
    NinePlaces();
  }

  lemma NinePlaces()
    ensures Pow2(COUNTRY_BITS) == 512
  {
  }

  /** With 512 itself, the record behind it reads its difference count right just when that is even. */
  lemma SpilledCount(f: Family, count: nat, blank: nat)
    requires 0 < count <= SegmentCount(f) && blank > 0
    ensures Val(Bits(Or(count - 1, Rem(512 / 512, Pow2(blank))), IndexBits(f))) == count - 1 <==> count % 2 == 0
  {
    Pow2Monotone(1, blank);
    assert Pow2(1) == 2;
    QuotUnique(1, Pow2(blank), 0, 1);
    var half := (count - 1) / 2;
    OrCommutes(half, 0);
    OrZero(half);
    assert Or(count - 1, 1) == 1 + 2 * half;
    FieldsHoldSegments(f);
    ValOfSmall(1 + 2 * half, IndexBits(f));
  }

  // --------------------------------------------------------- one family's blocks

  class VersionedIpSerializer {
    const family: Family
    var prevStart: nat
    var prevEnd: nat
    var blockCount: nat
    const bitQueue: BitQueue
    ghost var written: seq<Block>  // the blocks in the queue, fillers included

    ghost predicate Valid()
      reads this, bitQueue
    {
      && bitQueue.Valid() && bitQueue.Clean()
      && Chain(family, InitialStart(family), Records(written))
      && bitQueue.contents == Encode(family, InitialStart(family), Records(written))
      && prevStart == LastStart(InitialStart(family), Records(written)) < Limit(family)
      && prevEnd == LastEnd(family, written) < Limit(family)
      && blockCount == |written|
    }

    constructor (f: Family)
      ensures Valid() && fresh(bitQueue)
      ensures family == f && written == []
    {
      family := f;
      prevStart, prevEnd := InitialStart(f), MaxIp(f);
      blockCount := 0;
      bitQueue := new BitQueue();
      written := [];
    }

    /** Writes one block that follows on. */
    method AddFollowing(start: nat, end: nat, country: nat)
      requires Valid()
      requires start < Limit(family) && end < Limit(family) && country < Pow2(COUNTRY_BITS)
      requires start != prevStart
      modifies this, bitQueue
      ensures Valid()
      ensures written == old(written) + [Block(start, end, country)]
    {
      hide Encode, Chain, EncodeRecord;
      AddRecord(family, bitQueue, prevStart, Record(start, country));
      ChainAppend(family, InitialStart(family), Records(written), Record(start, country));
      RecordsAppend(written, Block(start, end, country));
      prevStart, prevEnd := start, end;
      blockCount := blockCount + 1;
      written := written + [Block(start, end, country)];
    }

    /**
     Adds a block, after a filler for the gap before it. The filler follows on, so
     the recursion is one deep. The call needs the block before to have ended
     somewhere else than just before its own start: otherwise there would be no
     difference to write and the source's count underflows.
     */
    method AddIp(start: nat, end: nat, country: nat)
      requires Valid()
      requires start < Limit(family) && end < Limit(family) && country < Pow2(COUNTRY_BITS)
      requires PlusOne(family, prevEnd) != prevStart
      modifies this, bitQueue
      ensures Valid()
      ensures written == old(written) + WithGap(family, old(prevEnd), Block(start, end, country))
      decreases if start != PlusOne(family, prevEnd) then 1 else 0
    {
      hide Encode, Chain;
      var expected := PlusOne(family, prevEnd);
      if start != expected {
        Pow2Monotone(0, COUNTRY_BITS);
        AddIp(expected, MinusOne(family, start), 0);
        assert prevStart == expected;
      }
      AddFollowing(start, end, country);
    }
  }
}
