/**
 ip_country/src/country_finder.rs: the decoded blocks of both families, and the
 binary search for the block that holds an address.
 */
module CountryFinder {
  import opened Addresses
  import opened Wrappers
  import opened CountryBlocks
  import opened Countries

  datatype CountryCodeFinder = CountryCodeFinder(
    countries: CountryTable,
    ipv4: seq<CountryBlock>,
    ipv6: seq<CountryBlock>)

  predicate AllOfFamily(f: Family, bs: seq<CountryBlock>) {
    forall i | 0 <= i < |bs| :: bs[i].range.family == f
  }

  /** Sorted and disjoint; gaps are allowed. */
  predicate SortedDisjoint(bs: seq<CountryBlock>) {
    && (forall i | 0 <= i < |bs| :: bs[i].range.low <= bs[i].range.high)
    && (forall i, j | 0 <= i < j < |bs| :: bs[i].range.high < bs[j].range.low)
  }

  /** Halves the blocks between `lo` and `hi` until one compares as equal or none is left. */
  function BinarySearch(bs: seq<CountryBlock>, ip: IpAddr, lo: nat, hi: nat): (r: Option<nat>)
    requires AllOfFamily(ip.family, bs)
    requires lo <= hi <= |bs|
    ensures r.Some? ==> lo <= r.value < hi
    decreases hi - lo
  {
    if lo == hi then None
    else
      var mid := lo + (hi - lo) / 2;
      match OrderingByRange(bs[mid].range, ip)
      case Equal => Some(mid)
      case Greater => BinarySearch(bs, ip, lo, mid)
      case Less => BinarySearch(bs, ip, mid + 1, hi)
  }

  /** The first block, if any, that contains the address. */
  function LinearSearch(bs: seq<CountryBlock>, ip: IpAddr, from: nat): (r: Option<nat>)
    requires from <= |bs|
    ensures r.Some? ==> from <= r.value < |bs| && Contains(bs[r.value].range, ip)
    ensures r.None? ==> forall i | from <= i < |bs| :: !Contains(bs[i].range, ip)
    decreases |bs| - from
  {
    if from == |bs| then None
    else if Contains(bs[from].range, ip) then Some(from)
    else LinearSearch(bs, ip, from + 1)
  }

  lemma {:induction false} BinarySearchFinds(bs: seq<CountryBlock>, ip: IpAddr, lo: nat, hi: nat, i: nat)
    requires AllOfFamily(ip.family, bs) && SortedDisjoint(bs)
    requires lo <= i < hi <= |bs| && Contains(bs[i].range, ip)
    ensures BinarySearch(bs, ip, lo, hi) == Some(i)
    decreases hi - lo
  {
    var mid := lo + (hi - lo) / 2;
    if mid < i {
      BinarySearchFinds(bs, ip, mid + 1, hi, i);
    } else if i < mid {
      BinarySearchFinds(bs, ip, lo, mid, i);
    }
  }

  lemma {:induction false} BinarySearchIsSound(bs: seq<CountryBlock>, ip: IpAddr, lo: nat, hi: nat)
    requires AllOfFamily(ip.family, bs) && lo <= hi <= |bs|
    ensures var r := BinarySearch(bs, ip, lo, hi); r.Some? ==> Contains(bs[r.value].range, ip)
    decreases hi - lo
  {
    if lo < hi {
      var mid := lo + (hi - lo) / 2;
      match OrderingByRange(bs[mid].range, ip)
      case Equal =>
      case Greater => BinarySearchIsSound(bs, ip, lo, mid);
      case Less => BinarySearchIsSound(bs, ip, mid + 1, hi);
    }
  }

  /** Over sorted, disjoint blocks, with or without gaps, halving finds what scanning finds. */
  lemma SearchAgreement(bs: seq<CountryBlock>, ip: IpAddr)
    requires AllOfFamily(ip.family, bs) && SortedDisjoint(bs)
    ensures BinarySearch(bs, ip, 0, |bs|) == LinearSearch(bs, ip, 0)
  {
    var r := LinearSearch(bs, ip, 0);
    if r.Some? {
      BinarySearchFinds(bs, ip, 0, |bs|, r.value);
    } else {
      BinarySearchIsSound(bs, ip, 0, |bs|);
    }
  }

  /** What `binary_search_by` asks for: blocks below the address, the one that holds it, blocks above. */
  lemma OrderingIsMonotone(bs: seq<CountryBlock>, ip: IpAddr, i: nat, j: nat)
    requires AllOfFamily(ip.family, bs) && SortedDisjoint(bs) && i < j < |bs|
    ensures OrderingByRange(bs[i].range, ip).Less? || OrderingByRange(bs[j].range, ip).Greater?
  {
    assert bs[i].range.high < bs[j].range.low;
  }

  /** And what it promises then: whichever way a search goes, it comes to the same block. */
  lemma AnySearchAgrees(bs: seq<CountryBlock>, ip: IpAddr, found: Option<nat>)
    requires AllOfFamily(ip.family, bs) && SortedDisjoint(bs)
    requires found.Some? ==> found.value < |bs| && OrderingByRange(bs[found.value].range, ip).Equal?
    requires found.None? ==> forall i | 0 <= i < |bs| :: !OrderingByRange(bs[i].range, ip).Equal?
    ensures found == BinarySearch(bs, ip, 0, |bs|)
  {
    if found.Some? {
      BinarySearchFinds(bs, ip, 0, |bs|, found.value);
    } else {
      BinarySearchIsSound(bs, ip, 0, |bs|);
    }
  }

  /** Blocks are kept with their family, and the table has the sentinel to fall back on. */
  ghost predicate Usable(finder: CountryCodeFinder) {
    && AllOfFamily(V4, finder.ipv4) && AllOfFamily(V6, finder.ipv6)
    && WellFormed(finder.countries)
  }

  function BlocksFor(finder: CountryCodeFinder, f: Family): seq<CountryBlock>
  {
    match f case V4 => finder.ipv4 case V6 => finder.ipv6
  }

  /** A country is shown unless it is the sentinel. */
  function Visible(c: Country): Option<Country>
  {
    if c.iso3166 == SENTINEL_CODE then None else Some(c)
  }

  function FindCountry(finder: CountryCodeFinder, ip: IpAddr): Option<Country>
    requires Usable(finder)
  {
    var bs := BlocksFor(finder, ip.family);
    match BinarySearch(bs, ip, 0, |bs|)
    case Some(i) => Visible(bs[i].country)
    case None =>
      SentinelIsThere(finder.countries);
      Visible(CountryFromCode(finder.countries, SENTINEL_CODE).value)
  }

  lemma SentinelIsThere(t: CountryTable)
    requires WellFormed(t)
    ensures CountryFromCode(t, SENTINEL_CODE).Some?
    ensures CountryFromCode(t, SENTINEL_CODE).value.iso3166 == SENTINEL_CODE
  {
    assert t.countries[0].iso3166 == SENTINEL_CODE;
    assert HasCode(t.countries, SENTINEL_CODE);
    assert ToAsciiUppercase(SENTINEL_CODE) == SENTINEL_CODE;
  }

  /** An address has the country of the block that contains it, and none when no block does. */
  lemma FindCountryIsLookup(finder: CountryCodeFinder, ip: IpAddr)
    requires Usable(finder) && SortedDisjoint(BlocksFor(finder, ip.family))
    ensures var bs := BlocksFor(finder, ip.family);
            && (forall i | 0 <= i < |bs| && Contains(bs[i].range, ip) ::
                  FindCountry(finder, ip) ==
                    if bs[i].country.iso3166 == SENTINEL_CODE then None else Some(bs[i].country))
            && ((forall i | 0 <= i < |bs| :: !Contains(bs[i].range, ip)) ==> FindCountry(finder, ip) == None)
  {
    var bs := BlocksFor(finder, ip.family);
    forall i | 0 <= i < |bs| && Contains(bs[i].range, ip) ensures FindCountry(finder, ip) == Visible(bs[i].country) {
      BinarySearchFinds(bs, ip, 0, |bs|, i);
    }
    BinarySearchIsSound(bs, ip, 0, |bs|);
    SentinelIsThere(finder.countries);
  }
}
