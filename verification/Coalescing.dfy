/**
 ip_country/src/ip_country_mmdb.rs, `add_or_coalesce` and `parse` from the parsed
 ranges on: neighbouring ranges of one country become one, codes become countries of
 the table, and the blocks go through the pipeline.
 */
module Coalescing {
  import opened Words
  import opened Addresses
  import opened CountryBlocks
  import opened Countries
  import opened CountryFinder
  import opened Pipeline
  import opened StreamFormat
  import opened Wrappers
  import Seqs

  datatype CodedRange = CodedRange(code: string, range: IpRange)

  /** The code of an address: that of the last range containing it. */
  function CodeAt(rs: seq<CodedRange>, ip: IpAddr): Option<string>
  {
    if rs == [] then None
    else if Contains(rs[|rs| - 1].range, ip) then Some(rs[|rs| - 1].code)
    else CodeAt(rs[..|rs| - 1], ip)
  }

  lemma CodeAtSnoc(rs: seq<CodedRange>, r: CodedRange, ip: IpAddr)
    ensures CodeAt(rs + [r], ip) == if Contains(r.range, ip) then Some(r.code) else CodeAt(rs, ip)
  {
    Seqs.Parts(rs, [r]);
  }

  predicate InOrder(a: IpRange, b: IpRange) {
    a.family == b.family ==> a.high < b.low
  }

  /** Ranges with room in their family, sorted and disjoint within each family. */
  ghost predicate Sorted(rs: seq<CodedRange>) {
    && (forall i | 0 <= i < |rs| :: rs[i].range.low <= rs[i].range.high < Limit(rs[i].range.family))
    && (forall i, j | 0 <= i < j < |rs| :: InOrder(rs[i].range, rs[j].range))
  }

  /** Neighbours that are to be one: the same code and nothing between them. */
  predicate Mergeable(a: CodedRange, b: CodedRange) {
    a.code == b.code && a.range.family == b.range.family && b.range.low == a.range.high + 1
  }

  ghost predicate Coalesced(rs: seq<CodedRange>) {
    forall i | 0 <= i < |rs| - 1 :: !Mergeable(rs[i], rs[i + 1])
  }

  /** Asking whether addresses of different families are consecutive panics. */
  ghost predicate Comparable(rs: seq<CodedRange>) {
    forall i | 0 <= i < |rs| - 1 :: rs[i].code == rs[i + 1].code ==> rs[i].range.family == rs[i + 1].range.family
  }

  /** Adds a range to the list, or lets the last one grow. */
  method AddOrCoalesce(rs: seq<CodedRange>, cur: CodedRange) returns (r: seq<CodedRange>)
    requires Sorted(rs + [cur]) && Coalesced(rs)
    requires rs != [] && rs[|rs| - 1].code == cur.code ==> rs[|rs| - 1].range.family == cur.range.family
    ensures Sorted(r) && Coalesced(r)
    ensures r != [] && r[|r| - 1].code == cur.code && r[|r| - 1].range.family == cur.range.family
    ensures r[|r| - 1].range.high == cur.range.high
    ensures forall ip :: CodeAt(r, ip) == CodeAt(rs + [cur], ip)
    ensures forall x: IpRange | (forall i | 0 <= i < |rs| :: InOrder(rs[i].range, x)) && InOrder(cur.range, x) ::
              forall i | 0 <= i < |r| :: InOrder(r[i].range, x)
  {
    var newRange: Option<IpRange> := None;
    if rs != [] {
      var last := rs[|rs| - 1];
      assert (rs + [cur])[|rs| - 1] == last && (rs + [cur])[|rs|] == cur;
      if last.code == cur.code && AreConsecutive(End(last.range), Start(cur.range)) {
        newRange := Some(IpRange(last.range.family, last.range.low, cur.range.high));
      }
    }
    match newRange {
      case Some(range) =>
        r := rs[..|rs| - 1] + [CodedRange(cur.code, range)];
        GrownIsSorted(rs, cur);
        GrownIsCoalesced(rs, cur);
        forall ip ensures CodeAt(r, ip) == CodeAt(rs + [cur], ip) { GrownMeansTheSame(rs, cur, ip); }
      case None =>
        r := rs + [cur];
        AppendedLast(rs, cur);
    }
  }

  lemma AppendedLast(rs: seq<CodedRange>, cur: CodedRange)
    requires Coalesced(rs)
    requires rs != [] ==> !Mergeable(rs[|rs| - 1], cur)
    ensures Coalesced(rs + [cur])
  {
  }

  /** The last range grown to take in the one behind it. */
  function Grown(rs: seq<CodedRange>, cur: CodedRange): seq<CodedRange>
    requires rs != []
  {
    var last := rs[|rs| - 1].range;
    rs[..|rs| - 1] + [CodedRange(cur.code, IpRange(last.family, last.low, cur.range.high))]
  }

  lemma GrownIsSorted(rs: seq<CodedRange>, cur: CodedRange)
    requires Sorted(rs + [cur]) && rs != [] && Mergeable(rs[|rs| - 1], cur)
    ensures Sorted(Grown(rs, cur))
  {
    var all := rs + [cur];
    assert forall i | 0 <= i < |rs| :: all[i] == rs[i];
    assert all[|rs|] == cur;
  }

  lemma GrownIsCoalesced(rs: seq<CodedRange>, cur: CodedRange)
    requires Coalesced(rs) && rs != [] && Mergeable(rs[|rs| - 1], cur)
    ensures Coalesced(Grown(rs, cur))
  {
    var r := Grown(rs, cur);
    forall i | 0 <= i < |r| - 1 ensures !Mergeable(r[i], r[i + 1]) { assert !Mergeable(rs[i], rs[i + 1]); }
  }

  lemma GrownMeansTheSame(rs: seq<CodedRange>, cur: CodedRange, ip: IpAddr)
    requires rs != [] && Mergeable(rs[|rs| - 1], cur)
    requires rs[|rs| - 1].range.low <= rs[|rs| - 1].range.high && cur.range.low <= cur.range.high
    ensures CodeAt(Grown(rs, cur), ip) == CodeAt(rs + [cur], ip)
  {
    var init, last := rs[..|rs| - 1], rs[|rs| - 1];
    Seqs.Unsnoc(rs);
    CodeAtSnoc(init, Grown(rs, cur)[|init|], ip);
    CodeAtSnoc(init, last, ip);
    CodeAtSnoc(rs, cur, ip);
  }

  /**
   Coalescing keeps every address's code, keeps the ranges sorted and disjoint, and
   leaves no neighbours that could be one.
   */
  method Coalesce(ranges: seq<CodedRange>) returns (rs: seq<CodedRange>)
    requires Sorted(ranges) && Comparable(ranges)
    ensures Sorted(rs) && Coalesced(rs)
    ensures forall ip :: CodeAt(rs, ip) == CodeAt(ranges, ip)
  {
    rs := [];
    for n := 0 to |ranges|
      invariant Sorted(rs) && Coalesced(rs)
      invariant forall ip :: CodeAt(rs, ip) == CodeAt(ranges[..n], ip)
      invariant n == 0 ==> rs == []
      invariant n > 0 ==> rs != [] && rs[|rs| - 1].code == ranges[n - 1].code
      invariant n > 0 ==> rs[|rs| - 1].range.family == ranges[n - 1].range.family
      invariant forall k, i | n <= k < |ranges| && 0 <= i < |rs| :: InOrder(rs[i].range, ranges[k].range)
    {
      SortedNext(rs, ranges, n);
      assert n > 0 && ranges[n - 1].code == ranges[n - 1 + 1].code ==>
               ranges[n - 1].range.family == ranges[n].range.family;
      ghost var before := rs;
      rs := AddOrCoalesce(rs, ranges[n]);
      Seqs.TakeOneMore(ranges, n);
      forall ip ensures CodeAt(rs, ip) == CodeAt(ranges[..n + 1], ip) {
        CodeAtSnoc(before, ranges[n], ip);
        CodeAtSnoc(ranges[..n], ranges[n], ip);
      }
    }
    assert ranges[..|ranges|] == ranges;
  }

  lemma SortedNext(rs: seq<CodedRange>, ranges: seq<CodedRange>, n: nat)
    requires Sorted(rs) && Sorted(ranges) && n < |ranges|
    requires forall k, i | n <= k < |ranges| && 0 <= i < |rs| :: InOrder(rs[i].range, ranges[k].range)
    ensures Sorted(rs + [ranges[n]])
  {
  }

  // ------------------------------------------------------- from ranges to a finder

  lemma {:induction false} CodeAtIsOfARange(rs: seq<CodedRange>, ip: IpAddr)
    ensures CodeAt(rs, ip).None? ==> forall i | 0 <= i < |rs| :: !Contains(rs[i].range, ip)
    ensures CodeAt(rs, ip).Some? ==>
              exists i :: 0 <= i < |rs| && Contains(rs[i].range, ip) && rs[i].code == CodeAt(rs, ip).value
    decreases |rs|
  {
    if rs != [] {
      var init := rs[..|rs| - 1];
      CodeAtIsOfARange(init, ip);
      assert forall i | 0 <= i < |init| :: init[i] == rs[i];
    }
  }

  /** A code that is not in the table stands for the sentinel. */
  function CountryForCode(t: CountryTable, code: string): Country
    requires MapAgrees(t)
  {
    match CountryFromCode(t, code)
    case Some(country) => country
    case None => Country(0, SENTINEL_CODE, "Unknown")
  }

  /**
   What a code is answered with: the country of the table that has the code, whichever
   case it is written in; nothing for a code that the table does not have, and nothing
   for the sentinel.
   */
  ghost predicate AnswersCode(t: CountryTable, code: string, answer: Option<Country>) {
    var upper := ToAsciiUppercase(code);
    && (answer.None? <==> !HasCode(t.countries, upper) || upper == SENTINEL_CODE)
    && (answer.Some? ==> answer.value in t.countries && answer.value.iso3166 == upper)
    && (DistinctCodes(t.countries) && upper != SENTINEL_CODE ==>
          forall i | 0 <= i < |t.countries| && t.countries[i].iso3166 == upper :: answer == Some(t.countries[i]))
  }

  lemma CountryAnswersCode(t: CountryTable, code: string)
    requires MapAgrees(t)
    ensures AnswersCode(t, code, Visible(CountryForCode(t, code)))
  {
    hide MapAgrees, CountryFromCode, ToAsciiUppercase, HasCode;
    FoundByCode(t, code);
  }

  /** With distinct codes, a code of the table is answered with that very country, in whichever case it is written. */
  lemma NamedIsOwnCountry(t: CountryTable, i: nat, code: string)
    requires WellFormed(t) && DistinctCodes(t.countries) && 0 < i < |t.countries|
    requires ToAsciiUppercase(code) == t.countries[i].iso3166
    ensures Visible(CountryForCode(t, code)) == Some(t.countries[i])
  {
    hide CountryForCode;
    CountryAnswersCode(t, code);
    assert t.countries[0].iso3166 != t.countries[i].iso3166;
  }

  method MakeCountryBlocks(t: CountryTable, rs: seq<CodedRange>) returns (blocks: seq<CountryBlock>)
    requires WellFormed(t)
    ensures |blocks| == |rs|
    ensures forall i | 0 <= i < |rs| ::
              blocks[i].range == rs[i].range && AnswersCode(t, rs[i].code, Visible(blocks[i].country))
    ensures FromTable(t, blocks)
  {
    hide AnswersCode;
    blocks := [];
    for i := 0 to |rs|
      invariant |blocks| == i
      invariant forall k | 0 <= k < i ::
                  blocks[k].range == rs[k].range && AnswersCode(t, rs[k].code, Visible(blocks[k].country))
      invariant FromTable(t, blocks)
    {
      CountryAnswersCode(t, rs[i].code);
      blocks := blocks + [CountryBlock(rs[i].range, CountryForCode(t, rs[i].code))];
    }
  }

  ghost predicate HasRange(f: Family, rs: seq<CodedRange>) {
    exists i :: 0 <= i < |rs| && rs[i].range.family == f
  }

  lemma {:induction false} StillHasRange(f: Family, ranges: seq<CodedRange>, rs: seq<CodedRange>,
                                         blocks: seq<CountryBlock>)
    requires HasRange(f, ranges) && Sorted(ranges)
    requires forall ip :: CodeAt(rs, ip) == CodeAt(ranges, ip)
    requires |blocks| == |rs| && forall i | 0 <= i < |rs| :: blocks[i].range == rs[i].range
    ensures HasFamily(f, blocks)
  {
    var k :| 0 <= k < |ranges| && ranges[k].range.family == f;
    var ip := Start(ranges[k].range);
    assert Contains(ranges[k].range, ip);
    CodeAtIsOfARange(ranges, ip);
    CodeAtIsOfARange(rs, ip);
    var i :| 0 <= i < |rs| && Contains(rs[i].range, ip);
    assert blocks[i].range.family == f;
  }

  /** Among sorted, disjoint ranges the one that contains an address gives it its code. */
  lemma {:induction false} CodeAtSorted(rs: seq<CodedRange>, ip: IpAddr, i: nat)
    requires Sorted(rs) && i < |rs| && Contains(rs[i].range, ip)
    ensures CodeAt(rs, ip) == Some(rs[i].code)
  {
    CodeAtIsOfARange(rs, ip);
    var k :| 0 <= k < |rs| && Contains(rs[k].range, ip) && rs[k].code == CodeAt(rs, ip).value;
    if k < i { Apart(rs, ip, k, i); }
    if i < k { Apart(rs, ip, i, k); }
  }

  lemma Apart(rs: seq<CodedRange>, ip: IpAddr, i: nat, j: nat)
    requires Sorted(rs) && i < j < |rs|
    ensures !(Contains(rs[i].range, ip) && Contains(rs[j].range, ip))
  {
    assert InOrder(rs[i].range, rs[j].range);
  }

  /** What the finder answers, in terms of ranges and their codes. */
  ghost predicate AnswersRanges(finder: CountryCodeFinder, rs: seq<CodedRange>, ip: IpAddr)
    requires Usable(finder)
  {
    && (forall i | 0 <= i < |rs| && Contains(rs[i].range, ip) ::
          AnswersCode(finder.countries, rs[i].code, FindCountry(finder, ip)))
    && ((forall i | 0 <= i < |rs| :: !Contains(rs[i].range, ip)) ==> FindCountry(finder, ip) == None)
  }

  lemma {:induction false} AnswersCodes(finder: CountryCodeFinder, ranges: seq<CodedRange>, rs: seq<CodedRange>,
                                        blocks: seq<CountryBlock>, ip: IpAddr)
    requires Usable(finder) && AnswersFor(finder, blocks, ip)
    requires |blocks| == |rs|
    requires forall i | 0 <= i < |rs| ::
               blocks[i].range == rs[i].range && AnswersCode(finder.countries, rs[i].code, Visible(blocks[i].country))
    requires Sorted(ranges) && CodeAt(rs, ip) == CodeAt(ranges, ip)
    ensures AnswersRanges(finder, ranges, ip)
  {
    hide FindCountry, AnswersCode, Usable;
    CodeAtIsOfARange(rs, ip);
    CodeAtIsOfARange(ranges, ip);
    if CodeAt(rs, ip).Some? {
      var i :| 0 <= i < |rs| && Contains(rs[i].range, ip) && rs[i].code == CodeAt(rs, ip).value;
      assert Contains(blocks[i].range, ip);
      forall k | 0 <= k < |ranges| && Contains(ranges[k].range, ip)
        ensures AnswersCode(finder.countries, ranges[k].code, FindCountry(finder, ip))
      {
        CodeAtSorted(ranges, ip, k);
      }
    } else {
      assert forall i | 0 <= i < |blocks| :: !Contains(blocks[i].range, ip);
    }
  }

  lemma TableSize(t: CountryTable, pairs: seq<Pair>)
    requires t.countries != [] && multiset(PairsOf(t)) == multiset(WithoutSentinel(pairs))
    ensures |t.countries| == |WithoutSentinel(pairs)| + 1
  {
    assert |multiset(PairsOf(t))| == |PairsOf(t)|;
    assert |multiset(WithoutSentinel(pairs))| == |WithoutSentinel(pairs)|;
  }

  /**
   From parsed ranges to answers: with room for the countries in nine bits and at
   least one range of each family, the finder built from any sorted, disjoint ranges
   answers each address as the code of the range that contains it is to be answered, and
   with nothing when none does.
   */
  method Parse(pairs: seq<Pair>, ranges: seq<CodedRange>) returns (finder: CountryCodeFinder)
    requires |WithoutSentinel(pairs)| < Pow2(COUNTRY_BITS)
    requires Sorted(ranges) && Comparable(ranges)
    requires HasRange(V4, ranges) && HasRange(V6, ranges)
    ensures Usable(finder)
    ensures multiset(PairsOf(finder.countries)) == multiset(WithoutSentinel(pairs))
    ensures Distinct(pairs) ==> DistinctCodes(finder.countries.countries)
    ensures forall ip: IpAddr | ValidIp(ip) :: AnswersRanges(finder, ranges, ip)
  {
    hide FindCountry, CodeAt, MapAgrees, WithoutSentinel, PairsOf, AnswersFor, AnswersRanges, AnswersCode;
    var rs := Coalesce(ranges);
    var t := New(pairs);
    TableSize(t, pairs);
    var blocks := MakeCountryBlocks(t, rs);
    StillHasRange(V4, ranges, rs, blocks);
    StillHasRange(V6, ranges, rs, blocks);
    var count4, count6;
    finder, count4, count6 := BuildFinder(t, blocks);
    forall ip: IpAddr | ValidIp(ip) ensures AnswersRanges(finder, ranges, ip) {
      AnswersCodes(finder, ranges, rs, blocks, ip);
    }
  }
}
