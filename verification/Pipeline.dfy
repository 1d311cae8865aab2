/**
 The whole way of the country data: blocks are serialised, packed into words, loaded
 again, decoded and searched. What the search then answers for any address is read
 off the blocks that went in.
 */
module Pipeline {
  import opened Words
  import opened Addresses
  import opened BitQueues
  import opened CountryBlocks
  import opened Countries
  import opened StreamFormat
  import opened Serializer
  import opened Tiling
  import opened CountryBlockSerializers
  import opened Deserializer
  import opened CountryFinder
  import opened Wrappers
  import WordPacking
  import Seqs

  ghost predicate CountriesBelow(bs: seq<Block>, n: nat) {
    forall i | 0 <= i < |bs| :: bs[i].country < n
  }

  // ------------------------------------------------------ one family, there and back

  lemma {:induction false} CoveredCountries(f: Family, from: nat, bs: seq<Block>, n: nat)
    requires n > 0 && CountriesBelow(bs, n)
    ensures CountriesBelow(CoveredFrom(f, from, bs), n)
    decreases |bs|
  {
    if bs != [] { CoveredCountries(f, bs[0].high + 1, bs[1..], n); }
  }

  lemma CoveredIsNotEmpty(f: Family, bs: seq<Block>)
    ensures Covered(f, bs) != []
  {
  }

  /** What decoding gives back for blocks that were given in order: all of them, gaps filled. */
  lemma YieldOfCovered(f: Family, t: CountryTable, bs: seq<Block>)
    requires Ordered(f, 0, bs) && t.countries != [] && CountriesBelow(bs, |t.countries|)
    ensures CountriesBelow(Covered(f, bs), |t.countries|)
    ensures InTable(t, Records(Covered(f, bs))) && InSpace(f, Records(Covered(f, bs)))
    ensures Yield(f, t, Records(Covered(f, bs))) == ResolveAll(f, t, Covered(f, bs))
  {
    CoveredCountries(f, 0, bs, |t.countries|);
    CoveredTiles(f, bs);
    BlocksOfStarts(f, Covered(f, bs));
  }

  /** Packs a finished queue, loads it and decodes it. */
  method ThereAndBack(f: Family, t: CountryTable, q: BitQueue, ghost bs: seq<Block>) returns (blocks: seq<CountryBlock>)
    requires q.Valid()
    requires Ordered(f, 0, bs) && t.countries != [] && CountriesBelow(bs, |t.countries|)
    requires Chain(f, InitialStart(f), Records(Covered(f, bs)))
    requires q.contents == Encode(f, InitialStart(f), Records(Covered(f, bs)))
    modifies q
    ensures CountriesBelow(Covered(f, bs), |t.countries|)
    ensures blocks == ResolveAll(f, t, Covered(f, bs))
  {
    hide Ordered, Encode, Chain, CoveredFrom, Decode, Records, BitQueue.Valid, Yield, ResolveAll;
    ghost var records := Records(Covered(f, bs));
    CoveredIsNotEmpty(f, bs);
    YieldOfCovered(f, t, bs);
    DecodeEncode(f, InitialStart(f), records);
    var words, bitCount := WordPacking.Drain(q);
    var deserializer := new CountryBlockDeserializer(f, words, bitCount, t);
    blocks := deserializer.CollectVec();
  }

  // ------------------------------------------------------------- cut-off streams

  /** Records of blocks that tile always differ from the record before them. */
  lemma {:induction false} TilesChain(f: Family, from: nat, bs: seq<Block>, prev: nat)
    requires Tiles(f, from, bs) && prev < Limit(f)
    requires prev < from || (from == 0 && prev == InitialStart(f))
    ensures Chain(f, prev, Records(bs))
    decreases |bs|
  {
    if bs != [] {
      TilesChain(f, bs[0].high + 1, bs[1..], bs[0].low);
      assert Records(bs)[1..] == Records(bs[1..]);
    }
  }

  /**
   Of a stream of blocks that tile, cut off after any number of bits, the deserializer
   sees the blocks of the whole records, the last of them extended to the largest address.
   */
  lemma Truncation(f: Family, bs: seq<Block>, n: nat)
    requires Tiles(f, 0, bs)
    ensures Chain(f, InitialStart(f), Records(bs))
    ensures n <= |Encode(f, InitialStart(f), Records(bs))| ==>
              var k := WholeRecords(f, InitialStart(f), Records(bs), n);
              var seen := Decode(f, Encode(f, InitialStart(f), Records(bs))[..n], InitialStart(f));
              && seen == Records(bs)[..k]
              && InSpace(f, seen)
              && (k > 0 ==> BlocksOf(f, seen) == bs[..k - 1] + [Block(bs[k - 1].low, MaxIp(f), bs[k - 1].country)])
  {
    hide Encode, Decode, Records, Tiles, Chain, WholeRecords, BlocksOf, InSpace, InitialStart;
    InitialIsLast(f);
    TilesChain(f, 0, bs, InitialStart(f));
    if n <= |Encode(f, InitialStart(f), Records(bs))| {
      DecodePrefix(f, InitialStart(f), Records(bs), n);
      var k := WholeRecords(f, InitialStart(f), Records(bs), n);
      BlocksOfSome(f, bs, k);
    }
  }

  /** The blocks of the first `k` of some that tile, the last one extended. */
  function Extended(f: Family, bs: seq<Block>, k: nat): seq<Block>
    requires 0 < k <= |bs|
  {
    bs[..k - 1] + [Block(bs[k - 1].low, MaxIp(f), bs[k - 1].country)]
  }

  lemma ExtendedCountries(f: Family, bs: seq<Block>, k: nat, n: nat)
    requires CountriesBelow(bs, n) && 0 < k <= |bs|
    ensures CountriesBelow(Extended(f, bs, k), n)
  {
  }

  /** The records seen stand for the extended blocks. */
  lemma SeenYields(f: Family, t: CountryTable, bs: seq<Block>, n: nat)
    requires Tiles(f, 0, bs) && CountriesBelow(bs, |t.countries|)
    requires Chain(f, InitialStart(f), Records(bs)) && n <= |Encode(f, InitialStart(f), Records(bs))|
    requires WholeRecords(f, InitialStart(f), Records(bs), n) > 0
    ensures var k := WholeRecords(f, InitialStart(f), Records(bs), n);
            var seen := Decode(f, Encode(f, InitialStart(f), Records(bs))[..n], InitialStart(f));
            && seen != [] && InTable(t, seen) && InSpace(f, seen)
            && CountriesBelow(Extended(f, bs, k), |t.countries|)
            && Yield(f, t, seen) == ResolveAll(f, t, Extended(f, bs, k))
  {
    hide Encode, Decode, Tiles, Chain, WholeRecords, BlocksOf, InitialStart;
    Truncation(f, bs, n);
    var k := WholeRecords(f, InitialStart(f), Records(bs), n);
    ExtendedCountries(f, bs, k, |t.countries|);
  }

  /**
   Of a cut-off stream that holds a whole record, the deserializer yields the blocks of
   the whole records, the last of them extended to the largest address, and then nothing.
   */
  method ReadCut(f: Family, t: CountryTable, words: seq<u64>, bitCount: nat, ghost bs: seq<Block>)
      returns (blocks: seq<CountryBlock>, after: Option<CountryBlock>)
    requires Tiles(f, 0, bs) && CountriesBelow(bs, |t.countries|)
    requires Chain(f, InitialStart(f), Records(bs)) && bitCount <= |Encode(f, InitialStart(f), Records(bs))|
    requires WholeRecords(f, InitialStart(f), Records(bs), bitCount) > 0
    requires WordPacking.WordsFor(bitCount) <= |words|
    requires WordPacking.WordBits(words, bitCount) == Encode(f, InitialStart(f), Records(bs))[..bitCount]
    ensures var k := WholeRecords(f, InitialStart(f), Records(bs), bitCount);
            && CountriesBelow(Extended(f, bs, k), |t.countries|)
            && blocks == ResolveAll(f, t, Extended(f, bs, k))
    ensures after.None?
  {
    hide Encode, Decode, Records, Tiles, Chain, WholeRecords, InitialStart, Yield, ResolveAll, Extended, CountriesBelow,
      InTable, InSpace, BitQueue.Valid, WordPacking.WordBits, WordPacking.WordsFor;
    SeenYields(f, t, bs, bitCount);
    var deserializer := new CountryBlockDeserializer(f, words, bitCount, t);
    blocks := deserializer.CollectVec();
    NothingInTable(t);
    after := deserializer.Next();
  }

  lemma NothingInTable(t: CountryTable)
    ensures InTable(t, [])
  {
  }

  lemma InitialIsLast(f: Family)
    ensures InitialStart(f) < Limit(f)
  {
  }

  lemma BlocksOfSome(f: Family, bs: seq<Block>, k: nat)
    requires Tiles(f, 0, bs) && k <= |bs|
    ensures InSpace(f, Records(bs)[..k])
    ensures k > 0 ==> BlocksOf(f, Records(bs)[..k]) == bs[..k - 1] + [Block(bs[k - 1].low, MaxIp(f), bs[k - 1].country)]
  {
    forall i | 0 <= i < |bs| ensures Records(bs)[i].start < Limit(f) { TilesAt(f, 0, bs, i); }
    var rs := Records(bs)[..k];
    forall i | 0 <= i < k - 1 ensures BlockAt(f, rs, i) == bs[i] { TilesAt(f, 0, bs, i); }
  }

  // --------------------------------------------------------------- what it answers

  lemma TilesAreSorted(f: Family, t: CountryTable, bs: seq<Block>)
    requires Tiles(f, 0, bs) && CountriesBelow(bs, |t.countries|)
    ensures AllOfFamily(f, ResolveAll(f, t, bs)) && SortedDisjoint(ResolveAll(f, t, bs))
  {
    var r := ResolveAll(f, t, bs);
    forall i | 0 <= i < |r| ensures r[i].range.low <= r[i].range.high { TilesAt(f, 0, bs, i); }
    forall i, j | 0 <= i < j < |r| ensures r[i].range.high < r[j].range.low { TilesApart(f, 0, bs, i, j); }
  }

  lemma {:induction false} TilesApart(f: Family, from: nat, bs: seq<Block>, i: nat, j: nat)
    requires Tiles(f, from, bs) && i < j < |bs|
    ensures bs[i].high < bs[j].low
    decreases |bs|
  {
    if i == 0 {
      TilesAt(f, bs[0].high + 1, bs[1..], j - 1);
    } else {
      TilesApart(f, bs[0].high + 1, bs[1..], i - 1, j - 1);
    }
  }

  /** Among blocks that tile, some block holds each address and decides its country. */
  lemma {:induction false} TileHolding(f: Family, from: nat, bs: seq<Block>, ip: nat) returns (i: nat)
    requires Tiles(f, from, bs) && from <= ip < Limit(f)
    ensures i < |bs| && bs[i].low <= ip <= bs[i].high && bs[i].country == CountryAt(bs, ip)
    decreases |bs|
  {
    if ip <= bs[0].high {
      i := 0;
    } else {
      i := TileHolding(f, bs[0].high + 1, bs[1..], ip);
      i := i + 1;
    }
  }

  /** The finder's blocks for a family are those given, gaps filled. */
  ghost predicate Holding(finder: CountryCodeFinder, f: Family, bs: seq<Block>) {
    && Ordered(f, 0, bs)
    && CountriesBelow(bs, |finder.countries.countries|)
    && CountriesBelow(Covered(f, bs), |finder.countries.countries|)
    && BlocksFor(finder, f) == ResolveAll(f, finder.countries, Covered(f, bs))
  }

  lemma CountryAtIsBelow(bs: seq<Block>, ip: nat, n: nat)
    requires n > 0 && CountriesBelow(bs, n)
    ensures CountryAt(bs, ip) < n
  {
    if bs != [] && !(bs[0].low <= ip <= bs[0].high) { CountryAtIsBelow(bs[1..], ip, n); }
  }

  /** The finder answers an address with the country its given block has. */
  lemma FinderAnswers(finder: CountryCodeFinder, bs: seq<Block>, ip: IpAddr)
    requires Usable(finder) && ValidIp(ip) && Holding(finder, ip.family, bs)
    ensures CountryAt(bs, ip.value) < |finder.countries.countries|
    ensures FindCountry(finder, ip) == Visible(finder.countries.countries[CountryAt(bs, ip.value)])
  {
    var f, t := ip.family, finder.countries;
    CoveredTiles(f, bs);
    TilesAreSorted(f, t, Covered(f, bs));
    var i := TileHolding(f, 0, Covered(f, bs), ip.value);
    CoveredMeansTheSame(f, bs, ip.value);
    CountryAtIsBelow(bs, ip.value, |t.countries|);
    FindCountryIsLookup(finder, ip);
    assert Contains(BlocksFor(finder, f)[i].range, ip);
  }

  // ------------------------------------------------- countries of the blocks given

  /** In order, the block that holds an address decides its country, and without one it is 0. */
  lemma {:induction false} CountryAtOrdered(f: Family, from: nat, bs: seq<Block>, ip: nat)
    requires Ordered(f, from, bs)
    ensures forall i | 0 <= i < |bs| && bs[i].low <= ip <= bs[i].high :: CountryAt(bs, ip) == bs[i].country
    ensures (forall i | 0 <= i < |bs| :: !(bs[i].low <= ip <= bs[i].high)) ==> CountryAt(bs, ip) == 0
    decreases |bs|
  {
    if bs != [] {
      var tail := bs[1..];
      CountryAtOrdered(f, bs[0].high + 1, tail, ip);
      forall i | 0 <= i < |bs| && bs[i].low <= ip <= bs[i].high ensures CountryAt(bs, ip) == bs[i].country {
        if i > 0 {
          OrderedAt(f, bs[0].high + 1, tail, i - 1);
          assert tail[i - 1] == bs[i];
        }
      }
      if forall i | 0 <= i < |bs| :: !(bs[i].low <= ip <= bs[i].high) {
        assert forall i | 0 <= i < |tail| :: tail[i] == bs[i + 1];
      }
    }
  }

  lemma {:induction false} OfFamilyHas(f: Family, blocks: seq<CountryBlock>, i: nat) returns (k: nat)
    requires i < |blocks| && blocks[i].range.family == f
    ensures k < |OfFamily(f, blocks)| && OfFamily(f, blocks)[k] == BlockOf(blocks[i])
    decreases |blocks|
  {
    var init := blocks[..|blocks| - 1];
    if i == |init| {
      k := |OfFamily(f, init)|;
    } else {
      k := OfFamilyHas(f, init, i);
    }
  }

  lemma {:induction false} OfFamilyFrom(f: Family, blocks: seq<CountryBlock>, k: nat) returns (i: nat)
    requires k < |OfFamily(f, blocks)|
    ensures i < |blocks| && blocks[i].range.family == f && OfFamily(f, blocks)[k] == BlockOf(blocks[i])
    decreases |blocks|
  {
    var init := blocks[..|blocks| - 1];
    if k == |OfFamily(f, init)| {
      i := |init|;
    } else {
      i := OfFamilyFrom(f, init, k);
    }
  }

  /** What a block's country shows is what the table has at its index. */
  predicate FromTable(t: CountryTable, blocks: seq<CountryBlock>) {
    forall i | 0 <= i < |blocks| ::
      && blocks[i].country.index < |t.countries|
      && Visible(blocks[i].country) == Visible(t.countries[blocks[i].country.index])
  }

  /** An address is answered with the visible country of the block that contains it, if one does. */
  ghost predicate AnswersFor(finder: CountryCodeFinder, blocks: seq<CountryBlock>, ip: IpAddr)
    requires Usable(finder)
  {
    && (forall i | 0 <= i < |blocks| && Contains(blocks[i].range, ip) ::
          FindCountry(finder, ip) ==
            if blocks[i].country.iso3166 == SENTINEL_CODE then None else Some(blocks[i].country))
    && ((forall i | 0 <= i < |blocks| :: !Contains(blocks[i].range, ip)) ==> FindCountry(finder, ip) == None)
  }

  lemma FinderAnswersBlocks(finder: CountryCodeFinder, blocks: seq<CountryBlock>, ip: IpAddr)
    requires Usable(finder) && ValidIp(ip) && FromTable(finder.countries, blocks)
    requires Holding(finder, ip.family, OfFamily(ip.family, blocks))
    ensures AnswersFor(finder, blocks, ip)
  {
    hide Usable, FindCountry;
    var f, bs := ip.family, OfFamily(ip.family, blocks);
    FinderAnswers(finder, bs, ip);
    CountryAtOrdered(f, 0, bs, ip.value);
    forall i | 0 <= i < |blocks| && Contains(blocks[i].range, ip)
      ensures FindCountry(finder, ip) == Visible(blocks[i].country)
      ensures Visible(blocks[i].country) ==
                if blocks[i].country.iso3166 == SENTINEL_CODE then None else Some(blocks[i].country)
    {
      var k := OfFamilyHas(f, blocks, i);
    }
    if forall i | 0 <= i < |blocks| :: !Contains(blocks[i].range, ip) {
      forall k | 0 <= k < |bs| ensures !(bs[k].low <= ip.value <= bs[k].high) {
        var i := OfFamilyFrom(f, blocks, k);
      }
      SentinelIsFirst(finder);
    }
  }

  lemma SentinelIsFirst(finder: CountryCodeFinder)
    requires Usable(finder)
    ensures finder.countries.countries != [] && Visible(finder.countries.countries[0]) == None
  {
  }

  // ------------------------------------------------------------------ end to end

  /** Blocks with room in their family, sorted and disjoint within each family. */
  predicate SortedPerFamily(blocks: seq<CountryBlock>) {
    && (forall i | 0 <= i < |blocks| :: blocks[i].range.low <= blocks[i].range.high < Limit(blocks[i].range.family))
    && (forall i, j | 0 <= i < j < |blocks| && blocks[i].range.family == blocks[j].range.family ::
          blocks[i].range.high < blocks[j].range.low)
  }

  lemma {:induction false} OrderedOfFamily(f: Family, t: CountryTable, blocks: seq<CountryBlock>)
    requires SortedPerFamily(blocks) && FromTable(t, blocks) && |t.countries| <= Pow2(COUNTRY_BITS)
    ensures Ordered(f, 0, OfFamily(f, blocks)) && CountriesBelow(OfFamily(f, blocks), |t.countries|)
    decreases |blocks|
  {
    if blocks != [] {
      var init, b := blocks[..|blocks| - 1], blocks[|blocks| - 1];
      OrderedOfFamily(f, t, init);
      var bs := OfFamily(f, init);
      if b.range.family == f {
        if bs != [] {
          AboveLast(0, bs);
          var i := OfFamilyFrom(f, init, |bs| - 1);
          assert blocks[i] == init[i];
        }
        OrderedSplit(f, 0, bs, BlockOf(b));
      } else {
        Seqs.EmptyRight(bs);
      }
    }
  }

  ghost predicate HasFamily(f: Family, blocks: seq<CountryBlock>) {
    exists i :: 0 <= i < |blocks| && blocks[i].range.family == f
  }

  lemma OfFamilyNotEmpty(f: Family, blocks: seq<CountryBlock>)
    requires HasFamily(f, blocks)
    ensures OfFamily(f, blocks) != []
  {
    var i :| 0 <= i < |blocks| && blocks[i].range.family == f;
    var k := OfFamilyHas(f, blocks, i);
  }

  method Serialize(t: CountryTable, blocks: seq<CountryBlock>) returns (final4: FinalBitQueue, final6: FinalBitQueue)
    requires SortedPerFamily(blocks) && FromTable(t, blocks) && |t.countries| <= Pow2(COUNTRY_BITS)
    ensures fresh(final4.bitQueue) && fresh(final6.bitQueue) && final4.bitQueue != final6.bitQueue
    ensures Finished(V4, OfFamily(V4, blocks), final4)
    ensures Finished(V6, OfFamily(V6, blocks), final6)
  {
    hide Holds, Ordered, Finished, OfFamily;
    var serializer := new CountryBlockSerializer();
    OfFamilyOfNone();
    for i := 0 to |blocks|
      invariant serializer.Valid()
      invariant fresh(serializer.ipv4) && fresh(serializer.ipv4.bitQueue)
      invariant fresh(serializer.ipv6) && fresh(serializer.ipv6.bitQueue)
      invariant serializer.given4 == OfFamily(V4, blocks[..i])
      invariant serializer.given6 == OfFamily(V6, blocks[..i])
    {
      NextInOrder(t, blocks, i);
      serializer.Add(blocks[i]);
    }
    assert blocks[..|blocks|] == blocks;
    final4, final6 := serializer.Finish();
  }

  lemma OfFamilyOfNone()
    ensures forall f :: OfFamily(f, []) == []
  {
  }

  lemma NextInOrder(t: CountryTable, blocks: seq<CountryBlock>, i: nat)
    requires SortedPerFamily(blocks) && FromTable(t, blocks) && |t.countries| <= Pow2(COUNTRY_BITS) && i < |blocks|
    ensures forall f :: OfFamily(f, blocks[..i + 1]) ==
              if blocks[i].range.family == f then OfFamily(f, blocks[..i]) + [BlockOf(blocks[i])]
              else OfFamily(f, blocks[..i])
    ensures Ordered(blocks[i].range.family, 0, OfFamily(blocks[i].range.family, blocks[..i]) + [BlockOf(blocks[i])])
  {
    Seqs.TakeOneMore(blocks, i);
    forall f ensures OfFamily(f, blocks[..i + 1]) ==
        if blocks[i].range.family == f then OfFamily(f, blocks[..i]) + [BlockOf(blocks[i])]
        else OfFamily(f, blocks[..i])
    {
      OfFamilyAppend(f, blocks[..i], blocks[i]);
    }
    OrderedOfFamily(blocks[i].range.family, t, blocks[..i + 1]);
  }

  /**
   End to end. Whatever blocks go in, sorted and disjoint within each family and with
   at least one for each, the finder that comes out answers every address with the
   country of the block that contains it, and with none exactly when no block does or
   the block's country is the sentinel. It holds as many blocks as the serializer counted.
   */
  method BuildFinder(t: CountryTable, blocks: seq<CountryBlock>)
      returns (finder: CountryCodeFinder, count4: nat, count6: nat)
    requires WellFormed(t) && |t.countries| <= Pow2(COUNTRY_BITS)
    requires SortedPerFamily(blocks) && FromTable(t, blocks)
    requires HasFamily(V4, blocks) && HasFamily(V6, blocks)
    ensures Usable(finder) && finder.countries == t
    ensures forall ip: IpAddr | ValidIp(ip) :: AnswersFor(finder, blocks, ip)
    ensures |finder.ipv4| == count4 && |finder.ipv6| == count6
  {
    hide CoveredFrom, Records, Chain, Encode, BitQueue.Valid, Ordered, OfFamily, ResolveAll, AllOfFamily;
    var final4, final6 := Serialize(t, blocks);
    OrderedOfFamily(V4, t, blocks);
    OrderedOfFamily(V6, t, blocks);
    OfFamilyNotEmpty(V4, blocks);
    OfFamilyNotEmpty(V6, blocks);
    count4, count6 := final4.blockCount, final6.blockCount;
    var ipv4 := ThereAndBack(V4, t, final4.bitQueue, OfFamily(V4, blocks));
    var ipv6 := ThereAndBack(V6, t, final6.bitQueue, OfFamily(V6, blocks));
    finder := CountryCodeFinder(t, ipv4, ipv6);
    CoveredTiles(V4, OfFamily(V4, blocks));
    CoveredTiles(V6, OfFamily(V6, blocks));
    TilesAreSorted(V4, t, Covered(V4, OfFamily(V4, blocks)));
    TilesAreSorted(V6, t, Covered(V6, OfFamily(V6, blocks)));
    forall ip: IpAddr | ValidIp(ip) ensures AnswersFor(finder, blocks, ip) {
      FinderAnswersBlocks(finder, blocks, ip);
    }
  }
}
