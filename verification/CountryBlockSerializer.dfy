/**
 ip_country/src/country_block_serde.rs, `CountryBlockSerializer`: blocks of both
 families in any interleaving go to their own family's serializer, and finishing
 fills the gap behind the last block of each.
 */
module CountryBlockSerializers {
  import opened Addresses
  import opened BitQueues
  import opened CountryBlocks
  import opened StreamFormat
  import opened Serializer
  import opened Tiling
  import Seqs

  datatype FinalBitQueue = FinalBitQueue(bitQueue: BitQueue, blockCount: nat)

  function BlockOf(b: CountryBlock): Block { Block(b.range.low, b.range.high, b.country.index) }

  /** The blocks of one family, in order. */
  function OfFamily(f: Family, bs: seq<CountryBlock>): seq<Block>
  {
    if bs == [] then []
    else OfFamily(f, bs[..|bs| - 1])
         + (if bs[|bs| - 1].range.family == f then [BlockOf(bs[|bs| - 1])] else [])
  }

  lemma OfFamilyAppend(f: Family, bs: seq<CountryBlock>, b: CountryBlock)
    ensures OfFamily(f, bs + [b]) == if b.range.family == f then OfFamily(f, bs) + [BlockOf(b)] else OfFamily(f, bs)
  {
    Seqs.Parts(bs, [b]);
    Seqs.EmptyRight(OfFamily(f, bs));
  }

  /** For blocks in order the filler is exactly the gap, and there is always a difference to write. */
  lemma OrderedStep(f: Family, bs: seq<Block>, b: Block)
    requires Ordered(f, 0, bs) && Ordered(f, 0, bs + [b])
    ensures ValidBlock(f, b) && Above(0, bs) <= b.low
    ensures var written := Filled(f, 0, bs);
            && LastEnd(f, written) < Limit(f)
            && PlusOne(f, LastEnd(f, written)) == Above(0, bs)
            && PlusOne(f, LastEnd(f, written)) != LastStart(InitialStart(f), Records(written))
            && WithGap(f, LastEnd(f, written), b) == Gap(Above(0, bs), b.low) + [b]
  {
    OrderedSplit(f, 0, bs, b);
    if bs != [] {
      LastOf(f, bs);
    }
    if Above(0, bs) == b.low { Seqs.EmptyLeft([b]); }
  }

  lemma LastOf(f: Family, bs: seq<Block>)
    requires Ordered(f, 0, bs) && bs != []
    ensures var written, last := Filled(f, 0, bs), bs[|bs| - 1];
            && ValidBlock(f, last) && Above(0, bs) == last.high + 1
            && LastEnd(f, written) == last.high
            && LastStart(InitialStart(f), Records(written)) == last.low
  {
    FilledEnds(f, 0, bs);
    AboveLast(0, bs);
    OrderedAt(f, 0, bs, |bs| - 1);
  }

  lemma {:induction false} OrderedAt(f: Family, from: nat, bs: seq<Block>, i: nat)
    requires Ordered(f, from, bs) && i < |bs|
    ensures ValidBlock(f, bs[i]) && from <= bs[i].low
    decreases |bs|
  {
    if i > 0 { OrderedAt(f, bs[0].high + 1, bs[1..], i - 1); }
  }

  /** Finishing fills the gap behind the last block, and does nothing when there is none. */
  lemma FinishStep(f: Family, bs: seq<Block>)
    requires Ordered(f, 0, bs)
    ensures bs == [] ==> Filled(f, 0, bs) == [] && LastEnd(f, Filled(f, 0, bs)) == MaxIp(f)
    ensures var written, end := Filled(f, 0, bs), LastEnd(f, Filled(f, 0, bs));
            && end < Limit(f)
            && (end == MaxIp(f) && bs != [] ==> written == Covered(f, bs))
            && (end != MaxIp(f) ==>
                  && PlusOne(f, end) != LastStart(InitialStart(f), Records(written))
                  && written + WithGap(f, end, Block(PlusOne(f, end), MaxIp(f), 0)) == Covered(f, bs))
  {
    if bs != [] {
      LastOf(f, bs);
      FilledThenTail(f, 0, bs);
      if LastEnd(f, Filled(f, 0, bs)) == MaxIp(f) {
        Seqs.EmptyRight(Filled(f, 0, bs));
      }
    }
  }

  /** The serializer has been given these blocks, in order. */
  ghost predicate Holds(s: VersionedIpSerializer, f: Family, bs: seq<Block>)
    reads s, s.bitQueue
  {
    s.Valid() && s.family == f && Ordered(f, 0, bs) && s.written == Filled(f, 0, bs)
  }

  method NewFamily(f: Family) returns (s: VersionedIpSerializer)
    ensures fresh(s) && fresh(s.bitQueue) && s.family == f && Holds(s, f, [])
  {
    s := new VersionedIpSerializer(f);
  }

  method AddInOrder(s: VersionedIpSerializer, ghost f: Family, ghost bs: seq<Block>, b: Block)
    requires Holds(s, f, bs) && Ordered(f, 0, bs + [b])
    modifies s, s.bitQueue
    ensures Holds(s, f, bs + [b])
  {
    OrderedStep(f, bs, b);
    FilledAppend(f, 0, bs, b);
    s.AddIp(b.low, b.high, b.country);
  }

  method FinishFamily(s: VersionedIpSerializer, f: Family, ghost bs: seq<Block>) returns (final: FinalBitQueue)
    requires Holds(s, f, bs)
    modifies s, s.bitQueue
    ensures final.bitQueue == s.bitQueue && Finished(f, bs, final)
  {
    hide Encode, Chain, Records, Filled, CoveredFrom, Ordered;
    FinishStep(f, bs);
    if s.prevEnd != MaxIp(f) {
      s.AddIp(PlusOne(f, s.prevEnd), MaxIp(f), 0);
    }
    final := FinalBitQueue(s.bitQueue, s.blockCount);
  }

  class CountryBlockSerializer {
    const ipv4: VersionedIpSerializer
    const ipv6: VersionedIpSerializer
    ghost var given4: seq<Block>  // the blocks of each family, in the order they came
    ghost var given6: seq<Block>

    ghost predicate Valid()
      reads this, ipv4, ipv6, ipv4.bitQueue, ipv6.bitQueue
    {
      && ipv4 != ipv6 && ipv4.bitQueue != ipv6.bitQueue
      && ipv4.family.V4? && Holds(ipv4, ipv4.family, given4)
      && ipv6.family.V6? && Holds(ipv6, ipv6.family, given6)
    }

    constructor ()
      ensures fresh(ipv4) && fresh(ipv6) && fresh(ipv4.bitQueue) && fresh(ipv6.bitQueue)
      ensures given4 == [] && given6 == []
      ensures Valid()
    {
      hide Holds;
      var v4 := NewFamily(V4);
      var v6 := NewFamily(V6);
      ipv4, ipv6 := v4, v6;
      given4, given6 := [], [];
      new;
    }

    /** Adds a block above all earlier ones of its family. */
    method Add(b: CountryBlock)
      requires Valid()
      requires Ordered(b.range.family, 0, (if b.range.family.V4? then given4 else given6) + [BlockOf(b)])
      modifies this, ipv4, ipv6, ipv4.bitQueue, ipv6.bitQueue
      ensures Valid()
      ensures given4 == if b.range.family.V4? then old(given4) + [BlockOf(b)] else old(given4)
      ensures given6 == if b.range.family.V6? then old(given6) + [BlockOf(b)] else old(given6)
    {
      hide Holds;
      match b.range.family {
        case V4 =>
          AddInOrder(ipv4, ipv4.family, given4, BlockOf(b));
          given4 := given4 + [BlockOf(b)];
        case V6 =>
          AddInOrder(ipv6, ipv6.family, given6, BlockOf(b));
          given6 := given6 + [BlockOf(b)];
      }
    }

    /**
     What comes out for a family that got at least one block encodes its blocks with
     every gap filled, and counts them.
     */
    method Finish() returns (final4: FinalBitQueue, final6: FinalBitQueue)
      requires Valid()
      modifies this, ipv4, ipv6, ipv4.bitQueue, ipv6.bitQueue
      ensures final4.bitQueue == ipv4.bitQueue && Finished(ipv4.family, old(given4), final4)
      ensures final6.bitQueue == ipv6.bitQueue && Finished(ipv6.family, old(given6), final6)
    {
      hide Holds;
      final4 := FinishFamily(ipv4, ipv4.family, given4);
      final6 := FinishFamily(ipv6, ipv6.family, given6);
    }
  }

  ghost predicate Finished(f: Family, bs: seq<Block>, final: FinalBitQueue)
    reads final.bitQueue
  {
    var written := if bs == [] then [] else Covered(f, bs);
    && final.bitQueue.Valid()
    && Chain(f, InitialStart(f), Records(written))
    && final.bitQueue.contents == Encode(f, InitialStart(f), Records(written))
    && final.blockCount == |written|
  }
}
