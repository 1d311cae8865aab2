/**
 What the written blocks mean. Sorted, disjoint blocks with their gaps filled tile
 the whole address space, give every address the country it had before, and can be
 recovered from their starts alone.
 */
module Tiling {
  import opened Words
  import opened Addresses
  import opened StreamFormat
  import opened Serializer
  import Seqs

  predicate ValidBlock(f: Family, b: Block) {
    b.low <= b.high < Limit(f) && b.country < Pow2(COUNTRY_BITS)
  }

  /** Sorted and disjoint, with nothing below `from`. */
  predicate Ordered(f: Family, from: nat, bs: seq<Block>)
    decreases |bs|
  {
    bs == [] || (ValidBlock(f, bs[0]) && from <= bs[0].low && Ordered(f, bs[0].high + 1, bs[1..]))
  }

  /** Blocks that follow on from one another and reach from `from` to the largest address. */
  predicate Tiles(f: Family, from: nat, bs: seq<Block>)
    decreases |bs|
  {
    if bs == [] then from == Limit(f)
    else ValidBlock(f, bs[0]) && bs[0].low == from && Tiles(f, bs[0].high + 1, bs[1..])
  }

  /** The filler between `from` and a block that starts at `low`, if there is a gap. */
  function Gap(from: nat, low: nat): seq<Block>
  {
    if from < low then [Block(from, low - 1, 0)] else []
  }

  /** The blocks with a filler in every gap up to the last of them. */
  function Filled(f: Family, from: nat, bs: seq<Block>): seq<Block>
    decreases |bs|
  {
    if bs == [] then []
    else Gap(from, bs[0].low) + ([bs[0]] + Filled(f, bs[0].high + 1, bs[1..]))
  }

  /** The blocks with all gaps filled, the one behind the last block too. */
  function CoveredFrom(f: Family, from: nat, bs: seq<Block>): seq<Block>
    decreases |bs|
  {
    if bs == [] then Gap(from, Limit(f))
    else Gap(from, bs[0].low) + ([bs[0]] + CoveredFrom(f, bs[0].high + 1, bs[1..]))
  }

  function Covered(f: Family, bs: seq<Block>): seq<Block> { CoveredFrom(f, 0, bs) }

  /** The first address above all blocks. */
  function Above(from: nat, bs: seq<Block>): nat
    decreases |bs|
  {
    if bs == [] then from else Above(bs[0].high + 1, bs[1..])
  }

  lemma {:induction false} AboveLast(from: nat, bs: seq<Block>)
    requires bs != []
    ensures Above(from, bs) == bs[|bs| - 1].high + 1
    decreases |bs|
  {
    if |bs| > 1 { AboveLast(bs[0].high + 1, bs[1..]); }
  }

  /** The country of the block that holds an address; 0 when none does. */
  function CountryAt(bs: seq<Block>, ip: nat): nat
  {
    if bs == [] then 0
    else if bs[0].low <= ip <= bs[0].high then bs[0].country
    else CountryAt(bs[1..], ip)
  }

  // -------------------------------------------------------------------- tiling

  lemma {:induction false} OrderedSplit(f: Family, from: nat, bs: seq<Block>, b: Block)
    requires Ordered(f, from, bs)
    ensures Ordered(f, from, bs + [b]) <==> ValidBlock(f, b) && Above(from, bs) <= b.low
    decreases |bs|
  {
    if bs == [] {
      Seqs.EmptyLeft([b]);
    } else {
      Seqs.TailOfConcat(bs, [b]);
      OrderedSplit(f, bs[0].high + 1, bs[1..], b);
    }
  }

  lemma FillerIsValid(f: Family, low: nat, high: nat)
    requires low <= high < Limit(f)
    ensures ValidBlock(f, Block(low, high, 0))
  {
  }

  lemma {:induction false} CoveredTilesFrom(f: Family, from: nat, bs: seq<Block>)
    requires Ordered(f, from, bs) && from <= Limit(f)
    ensures Tiles(f, from, CoveredFrom(f, from, bs))
    decreases |bs|
  {
    if bs == [] {
      Seqs.EmptyRight(Gap(from, Limit(f)));
      TilesAfterGap(f, from, Limit(f), []);
    } else {
      var b, rest := bs[0], CoveredFrom(f, bs[0].high + 1, bs[1..]);
      CoveredTilesFrom(f, b.high + 1, bs[1..]);
      TilesCons(f, b, rest);
      TilesAfterGap(f, from, b.low, [b] + rest);
    }
  }

  lemma TilesAfterGap(f: Family, from: nat, low: nat, rest: seq<Block>)
    requires from <= low <= Limit(f) && Tiles(f, low, rest)
    ensures Tiles(f, from, Gap(from, low) + rest)
  {
    if from < low {
      FillerIsValid(f, from, low - 1);
      TilesCons(f, Block(from, low - 1, 0), rest);
    } else {
      Seqs.EmptyLeft(rest);
    }
  }

  lemma TilesCons(f: Family, b: Block, rest: seq<Block>)
    requires ValidBlock(f, b) && Tiles(f, b.high + 1, rest)
    ensures Tiles(f, b.low, [b] + rest)
  {
    Seqs.Parts([b], rest);
  }

  /** Sorted, disjoint blocks with their gaps filled tile the address space. */
  lemma CoveredTiles(f: Family, bs: seq<Block>)
    requires Ordered(f, 0, bs)
    ensures Tiles(f, 0, Covered(f, bs))
  {
    CoveredTilesFrom(f, 0, bs);
  }

  // ------------------------------------------------------------------- meaning

  lemma CountryAtCons(b: Block, rest: seq<Block>, ip: nat)
    ensures CountryAt([b] + rest, ip) == if b.low <= ip <= b.high then b.country else CountryAt(rest, ip)
  {
    Seqs.Parts([b], rest);
  }

  lemma {:induction false} NoneBelow(f: Family, from: nat, bs: seq<Block>, ip: nat)
    requires Ordered(f, from, bs) && ip < from
    ensures CountryAt(bs, ip) == 0
    decreases |bs|
  {
    if bs != [] { NoneBelow(f, bs[0].high + 1, bs[1..], ip); }
  }

  /** A filler gives no address a country. */
  lemma CountryAfterGap(from: nat, low: nat, rest: seq<Block>, ip: nat)
    requires ip < low ==> CountryAt(rest, ip) == 0
    ensures CountryAt(Gap(from, low) + rest, ip) == CountryAt(rest, ip)
  {
    if from < low {
      CountryAtCons(Block(from, low - 1, 0), rest, ip);
    } else {
      Seqs.EmptyLeft(rest);
    }
  }

  lemma {:induction false} CoveredFromMeansTheSame(f: Family, from: nat, bs: seq<Block>, ip: nat)
    requires Ordered(f, from, bs)
    ensures CountryAt(CoveredFrom(f, from, bs), ip) == CountryAt(bs, ip)
    decreases |bs|
  {
    if bs == [] {
      Seqs.EmptyRight(Gap(from, Limit(f)));
      CountryAfterGap(from, Limit(f), [], ip);
    } else {
      var b, rest := bs[0], CoveredFrom(f, bs[0].high + 1, bs[1..]);
      CoveredFromMeansTheSame(f, b.high + 1, bs[1..], ip);
      CountryAtCons(b, rest, ip);
      if ip < b.low { NoneBelow(f, b.high + 1, bs[1..], ip); }
      CountryAfterGap(from, b.low, [b] + rest, ip);
    }
  }

  /** Filling the gaps changes no address's country. */
  lemma CoveredMeansTheSame(f: Family, bs: seq<Block>, ip: nat)
    requires Ordered(f, 0, bs)
    ensures CountryAt(Covered(f, bs), ip) == CountryAt(bs, ip)
  {
    CoveredFromMeansTheSame(f, 0, bs, ip);
  }

  // ------------------------------------------------------------ blocks from starts

  /** The blocks that records stand for: each ends where the next begins. */
  function BlocksOf(f: Family, rs: seq<Record>): (bs: seq<Block>)
    requires forall i | 0 <= i < |rs| :: rs[i].start < Limit(f)
    ensures |bs| == |rs|
  {
    seq(|rs|, i requires 0 <= i < |rs| => BlockAt(f, rs, i))
  }

  function BlockAt(f: Family, rs: seq<Record>, i: nat): Block
    requires i < |rs|
    requires forall i | 0 <= i < |rs| :: rs[i].start < Limit(f)
  {
    Block(rs[i].start, if i + 1 < |rs| then MinusOne(f, rs[i + 1].start) else MaxIp(f), rs[i].country)
  }

  lemma {:induction false} TilesAt(f: Family, from: nat, bs: seq<Block>, i: nat)
    requires Tiles(f, from, bs) && i < |bs|
    ensures ValidBlock(f, bs[i]) && from <= bs[i].low
    ensures bs[i].high + 1 == if i + 1 < |bs| then bs[i + 1].low else Limit(f)
    decreases |bs|
  {
    if i > 0 { TilesAt(f, bs[0].high + 1, bs[1..], i - 1); }
  }

  /** Starts alone determine blocks that tile. */
  lemma BlocksOfStarts(f: Family, bs: seq<Block>)
    requires Tiles(f, 0, bs)
    ensures forall i | 0 <= i < |bs| :: Records(bs)[i].start < Limit(f)
    ensures BlocksOf(f, Records(bs)) == bs
  {
    forall i | 0 <= i < |bs| ensures bs[i].low < Limit(f) { TilesAt(f, 0, bs, i); }
    forall i | 0 <= i < |bs| ensures BlockAt(f, Records(bs), i) == bs[i] {
      TilesAt(f, 0, bs, i);
    }
  }

  // ------------------------------------------------------- the serializer's steps

  /** Adding a block in order appends it, and a filler if there is a gap. */
  lemma {:induction false} FilledAppend(f: Family, from: nat, bs: seq<Block>, b: Block)
    ensures Filled(f, from, bs + [b]) == Filled(f, from, bs) + (Gap(Above(from, bs), b.low) + [b])
    decreases |bs|
  {
    if bs == [] {
      Seqs.EmptyLeft([b]);
      Seqs.EmptyRight([b]);
      Seqs.EmptyLeft(Gap(from, b.low) + [b]);
    } else {
      Seqs.TailOfConcat(bs, [b]);
      FilledAppend(f, bs[0].high + 1, bs[1..], b);
      var last := Gap(Above(from, bs), b.low) + [b];
      Seqs.Regroup(Gap(from, bs[0].low), [bs[0]], Filled(f, bs[0].high + 1, bs[1..]), last);
    }
  }

  /** Filling the gap behind the last block covers everything. */
  lemma {:induction false} FilledThenTail(f: Family, from: nat, bs: seq<Block>)
    ensures Filled(f, from, bs) + Gap(Above(from, bs), Limit(f)) == CoveredFrom(f, from, bs)
    decreases |bs|
  {
    if bs == [] {
      Seqs.EmptyLeft(Gap(from, Limit(f)));
    } else {
      FilledThenTail(f, bs[0].high + 1, bs[1..]);
      var tail := Gap(Above(from, bs), Limit(f));
      Seqs.Regroup(Gap(from, bs[0].low), [bs[0]], Filled(f, bs[0].high + 1, bs[1..]), tail);
    }
  }

  /** The last block written ends where the last block given does. */
  lemma {:induction false} FilledEnds(f: Family, from: nat, bs: seq<Block>)
    requires bs != []
    ensures Filled(f, from, bs) != [] && Filled(f, from, bs)[|Filled(f, from, bs)| - 1] == bs[|bs| - 1]
    decreases |bs|
  {
    Seqs.Unsnoc(bs);
    FilledAppend(f, from, bs[..|bs| - 1], bs[|bs| - 1]);
  }
}
