/**
 ip_country/src/country_block_stream.rs: addresses, ranges and country blocks, and
 the three-way comparison that the search orders ranges by.
 */
module CountryBlocks {
  import opened Addresses

  datatype IpAddr = IpAddr(family: Family, value: nat)

  datatype IpRange = IpRange(family: Family, low: nat, high: nat)

  datatype Country = Country(index: nat, iso3166: string, name: string)

  datatype CountryBlock = CountryBlock(range: IpRange, country: Country)

  datatype Ordering = Less | Equal | Greater

  predicate ValidIp(ip: IpAddr) { ip.value < Limit(ip.family) }

  predicate Contains(r: IpRange, ip: IpAddr) {
    r.family == ip.family && r.low <= ip.value && ip.value <= r.high
  }

  /** Where the range lies as seen from the address; comparing across families panics. */
  function OrderingByRange(r: IpRange, ip: IpAddr): (o: Ordering)
    requires r.family == ip.family
    ensures r.low <= r.high ==> (o.Equal? <==> Contains(r, ip))
  {
    if ip.value < r.low then Greater
    else if ip.value > r.high then Less
    else Equal
  }

  /** Comparing across families panics, and so does a first address that has no successor. */
  predicate AreConsecutive(first: IpAddr, second: IpAddr)
    requires first.family == second.family
    requires first.value < MaxIp(first.family)
  {
    second.value == first.value + 1
  }

  function Start(r: IpRange): IpAddr { IpAddr(r.family, r.low) }
  function End(r: IpRange): IpAddr { IpAddr(r.family, r.high) }
}
