/**
 ip_country/src/countries.rs: the table of countries. Index 0 is the sentinel "ZZ";
 the rest are sorted by code and carry their own index.
 */
module Countries {
  import opened Wrappers
  import opened CountryBlocks
  import Seqs

  const SENTINEL_CODE := "ZZ"
  const SENTINEL := Country(0, "ZZ", "Sentinel")

  datatype CountryTable = CountryTable(countries: seq<Country>, indexByIso3166: map<string, nat>)

  datatype Pair = Pair(code: string, name: string)

  // ------------------------------------------------------------ ordering of codes

  /** Code points compared one by one; a code comes after its own beginnings. */
  predicate AtMost(a: string, b: string)
    decreases |a|
  {
    a == [] || (b != [] && (a[0] < b[0] || (a[0] == b[0] && AtMost(a[1..], b[1..]))))
  }

  lemma SameBeginning(a: string, b: string, k: nat)
    requires k <= |a| && k <= |b| && a[..k] == b[..k]
    ensures k > 0 ==> a[0] == b[0]
  {
    if k > 0 { assert a[..k][0] == b[..k][0]; }
  }

  /** One code comes before another where they first differ, or is its beginning. */
  lemma {:induction false} AtMostIs(a: string, b: string)
    ensures AtMost(a, b) <==> a <= b || exists k :: 0 <= k < |a| && k < |b| && a[..k] == b[..k] && a[k] < b[k]
    decreases |a|
  {
    if a != [] && b != [] && a[0] == b[0] {
      AtMostIs(a[1..], b[1..]);
      Seqs.Uncons(a);
      Seqs.Uncons(b);
      if k :| 0 <= k < |a| && k < |b| && a[..k] == b[..k] && a[k] < b[k] {
        assert k > 0;
        assert a[1..][..k - 1] == a[..k][1..] && b[1..][..k - 1] == b[..k][1..];
        assert a[1..][k - 1] < b[1..][k - 1];
      }
      if k :| 0 <= k < |a| - 1 && k < |b| - 1 && a[1..][..k] == b[1..][..k] && a[1..][k] < b[1..][k] {
        assert a[..k + 1] == [a[0]] + a[1..][..k] && b[..k + 1] == [b[0]] + b[1..][..k];
        assert a[k + 1] < b[k + 1];
      }
    } else if a != [] && b != [] {
      if a[0] < b[0] { assert a[..0] == b[..0] && a[0] < b[0]; }
      if k :| 0 <= k < |a| && k < |b| && a[..k] == b[..k] && a[k] < b[k] {
        SameBeginning(a, b, k);
      }
    }
  }

  lemma {:induction false} AtMostTotal(a: string, b: string)
    ensures AtMost(a, b) || AtMost(b, a)
    decreases |a|
  {
    if a != [] && b != [] { AtMostTotal(a[1..], b[1..]); }
  }

  lemma {:induction false} AtMostTransitive(a: string, b: string, c: string)
    requires AtMost(a, b) && AtMost(b, c)
    ensures AtMost(a, c)
    decreases |a|
  {
    if a != [] && a[0] == b[0] == c[0] { AtMostTransitive(a[1..], b[1..], c[1..]); }
  }

  ghost predicate Sorted(ps: seq<Pair>) {
    forall i, j | 0 <= i < j < |ps| :: AtMost(ps[i].code, ps[j].code)
  }

  ghost predicate Distinct(ps: seq<Pair>) {
    forall i, j | 0 <= i < j < |ps| :: ps[i].code != ps[j].code
  }

  /** Puts a pair behind all that are at most it, as a stable sort does. */
  method Insert(ps: seq<Pair>, p: Pair) returns (r: seq<Pair>)
    requires Sorted(ps)
    ensures Sorted(r) && multiset(r) == multiset(ps) + multiset{p}
    ensures Distinct(ps + [p]) ==> Distinct(r)
  {
    var i := |ps|;
    while i > 0 && !AtMost(ps[i - 1].code, p.code)
      invariant 0 <= i <= |ps|
      invariant forall k | i <= k < |ps| :: !AtMost(ps[k].code, p.code)
    {
      i := i - 1;
    }
    r := ps[..i] + ([p] + ps[i..]);
    Seqs.Split(ps, i);
    InsertSorted(ps, p, i);
    if Distinct(ps + [p]) { InsertDistinct(ps, p, i); }
  }

  lemma InsertSorted(ps: seq<Pair>, p: Pair, i: nat)
    requires Sorted(ps) && i <= |ps|
    requires i > 0 ==> AtMost(ps[i - 1].code, p.code)
    requires forall k | i <= k < |ps| :: !AtMost(ps[k].code, p.code)
    ensures Sorted(ps[..i] + ([p] + ps[i..]))
  {
    hide AtMost;
    var r := ps[..i] + ([p] + ps[i..]);
    forall j, k | 0 <= j < k < |r| ensures AtMost(r[j].code, r[k].code) {
      if j < i && k == i {
        if j < i - 1 { AtMostTransitive(ps[j].code, ps[i - 1].code, p.code); }
      } else if j == i {
        AtMostTotal(p.code, ps[k - 1].code);
      }
    }
  }

  lemma InsertDistinct(ps: seq<Pair>, p: Pair, i: nat)
    requires Distinct(ps + [p]) && i <= |ps|
    ensures Distinct(ps[..i] + ([p] + ps[i..]))
  {
    var all, r := ps + [p], ps[..i] + ([p] + ps[i..]);
    forall j, k | 0 <= j < k < |r| ensures r[j].code != r[k].code {
      var j' := if j < i then j else if j == i then |ps| else j - 1;
      var k' := if k < i then k else if k == i then |ps| else k - 1;
      assert r[j] == all[j'] && r[k] == all[k'];
      assert all[if j' < k' then j' else k'].code != all[if j' < k' then k' else j'].code;
    }
  }

  method SortByCode(ps: seq<Pair>) returns (r: seq<Pair>)
    ensures Sorted(r) && multiset(r) == multiset(ps)
    ensures Distinct(ps) ==> Distinct(r)
  {
    r := [];
    for i := 0 to |ps|
      invariant Sorted(r) && multiset(r) == multiset(ps[..i])
      invariant Distinct(ps) ==> Distinct(r)
    {
      if Distinct(ps) { NewCode(ps, i, r); }
      r := Insert(r, ps[i]);
      Seqs.TakeOneMore(ps, i);
    }
    assert ps[..|ps|] == ps;
  }

  lemma NewCode(ps: seq<Pair>, i: nat, r: seq<Pair>)
    requires Distinct(ps) && i < |ps| && multiset(r) == multiset(ps[..i]) && Distinct(r)
    ensures Distinct(r + [ps[i]])
  {
    forall k | 0 <= k < |r| ensures r[k].code != ps[i].code {
      assert r[k] in multiset(r);
      assert r[k] in ps[..i];
      var j :| 0 <= j < i && ps[j] == r[k];
    }
  }

  // ------------------------------------------------------------------- the table

  /** All pairs but the first sentinel. */
  function WithoutSentinel(ps: seq<Pair>): seq<Pair>
  {
    if ps == [] then []
    else if ps[0].code == SENTINEL_CODE then ps[1..]
    else [ps[0]] + WithoutSentinel(ps[1..])
  }

  method FindSentinel(ps: seq<Pair>) returns (i: nat)
    ensures i <= |ps| && forall k | 0 <= k < i :: ps[k].code != SENTINEL_CODE
    ensures i < |ps| ==> ps[i].code == SENTINEL_CODE
    ensures WithoutSentinel(ps) == if i < |ps| then ps[..i] + ps[i + 1..] else ps
  {
    i := 0;
    while i < |ps| && ps[i].code != SENTINEL_CODE
      invariant i <= |ps| && forall k | 0 <= k < i :: ps[k].code != SENTINEL_CODE
    {
      i := i + 1;
    }
    WithoutSentinelAt(ps, i);
  }

  lemma {:induction false} WithoutSentinelAt(ps: seq<Pair>, i: nat)
    requires i <= |ps| && forall k | 0 <= k < i :: ps[k].code != SENTINEL_CODE
    requires i < |ps| ==> ps[i].code == SENTINEL_CODE
    ensures WithoutSentinel(ps) == if i < |ps| then ps[..i] + ps[i + 1..] else ps
  {
    if i > 0 {
      WithoutSentinelAt(ps[1..], i - 1);
      assert i < |ps| ==> [ps[0]] + (ps[1..][..i - 1] + ps[1..][i..]) == ps[..i] + ps[i + 1..];
      assert [ps[0]] + ps[1..] == ps;
    }
  }

  /** Without sentinel the codes of distinct pairs are distinct, and none is the sentinel's. */
  lemma {:induction false} WithoutSentinelIsDistinct(ps: seq<Pair>)
    requires Distinct(ps)
    ensures Distinct(WithoutSentinel(ps))
    ensures forall p :: p in WithoutSentinel(ps) <==> p in ps && p.code != SENTINEL_CODE
  {
    if ps != [] {
      var tail := ps[1..];
      assert forall j, k | 0 <= j < k < |tail| :: tail[j] == ps[j + 1] && tail[k] == ps[k + 1];
      forall p | p in tail ensures p.code != ps[0].code {
        var k :| 0 <= k < |tail| && tail[k] == p;
        assert ps[k + 1] == p;
      }
      WithoutSentinelIsDistinct(tail);
      assert forall p :: p in ps <==> p == ps[0] || p in tail;
    }
  }

  function Numbered(ps: seq<Pair>): (cs: seq<Country>)
    ensures |cs| == |ps|
  {
    seq(|ps|, i requires 0 <= i < |ps| => Country(i + 1, ps[i].code, ps[i].name))
  }

  /** Country i of the table has index i. */
  predicate Indexed(cs: seq<Country>) {
    forall i | 0 <= i < |cs| :: cs[i].index == i
  }

  ghost predicate DistinctCodes(cs: seq<Country>) {
    forall i, j | 0 <= i < j < |cs| :: cs[i].iso3166 != cs[j].iso3166
  }

  ghost predicate HasCode(cs: seq<Country>, code: string) {
    exists i :: 0 <= i < |cs| && cs[i].iso3166 == code
  }

  /** The map from codes leads to a country of that code. */
  ghost predicate MapAgrees(t: CountryTable) {
    && (forall code :: code in t.indexByIso3166 <==> HasCode(t.countries, code))
    && (forall code | code in t.indexByIso3166 ::
          t.indexByIso3166[code] < |t.countries| && t.countries[t.indexByIso3166[code]].iso3166 == code)
  }

  /** Builds the map; of countries with one code the last stands in it. */
  method FromVec(cs: seq<Country>) returns (t: CountryTable)
    ensures t.countries == cs
    ensures Indexed(cs) ==> MapAgrees(t)
  {
    var m: map<string, nat> := map[];
    for i := 0 to |cs|
      invariant forall code :: code in m <==> HasCode(cs[..i], code)
      invariant Indexed(cs) ==> forall code | code in m :: m[code] < i && cs[m[code]].iso3166 == code
    {
      Seqs.TakeOneMore(cs, i);
      HasCodeAppend(cs[..i], cs[i]);
      m := m[cs[i].iso3166 := cs[i].index];
    }
    assert cs[..|cs|] == cs;
    t := CountryTable(cs, m);
  }

  lemma HasCodeAppend(cs: seq<Country>, c: Country)
    ensures forall code :: HasCode(cs + [c], code) <==> HasCode(cs, code) || code == c.iso3166
  {
    forall code ensures HasCode(cs + [c], code) <==> HasCode(cs, code) || code == c.iso3166 {
      var all := cs + [c];
      if code == c.iso3166 { assert all[|cs|].iso3166 == code; }
      if HasCode(cs, code) {
        var i :| 0 <= i < |cs| && cs[i].iso3166 == code;
        assert all[i].iso3166 == code;
      }
    }
  }

  /** The sentinel comes first, the rest sorted by code, each with its position as index. */
  ghost predicate WellFormed(t: CountryTable) {
    && t.countries != [] && t.countries[0] == SENTINEL
    && Indexed(t.countries) && MapAgrees(t)
    && forall i, j | 1 <= i < j < |t.countries| :: AtMost(t.countries[i].iso3166, t.countries[j].iso3166)
  }

  /** The pairs that the countries after the sentinel were made of. */
  function PairsOf(t: CountryTable): seq<Pair>
    requires t.countries != []
  {
    seq(|t.countries| - 1, i requires 0 <= i < |t.countries| - 1 =>
        Pair(t.countries[i + 1].iso3166, t.countries[i + 1].name))
  }

  lemma TableOfSorted(t: CountryTable, sorted: seq<Pair>)
    requires Sorted(sorted) && t.countries == [SENTINEL] + Numbered(sorted)
    requires Indexed(t.countries) ==> MapAgrees(t)
    ensures WellFormed(t) && PairsOf(t) == sorted
  {
    hide AtMost, MapAgrees;
    assert forall i | 1 <= i < |t.countries| :: t.countries[i] == Country(i, sorted[i - 1].code, sorted[i - 1].name);
  }

  /** A table of the given pairs, whatever their order, with the first sentinel among them replaced. */
  method New(pairs: seq<Pair>) returns (t: CountryTable)
    ensures t.countries != [] && WellFormed(t)
    ensures multiset(PairsOf(t)) == multiset(WithoutSentinel(pairs))
    ensures Distinct(pairs) ==> DistinctCodes(t.countries)
  {
    hide MapAgrees, Indexed, WellFormed, PairsOf;
    var i := FindSentinel(pairs);
    var rest := if i < |pairs| then pairs[..i] + pairs[i + 1..] else pairs;
    var sorted := SortByCode(rest);
    t := FromVec([SENTINEL] + Numbered(sorted));
    TableOfSorted(t, sorted);
    if Distinct(pairs) {
      WithoutSentinelIsDistinct(pairs);
      NumberedIsDistinct(sorted, rest);
    }
  }

  lemma NumberedIsDistinct(sorted: seq<Pair>, rest: seq<Pair>)
    requires Distinct(sorted) && multiset(sorted) == multiset(rest)
    requires forall p | p in rest :: p.code != SENTINEL_CODE
    ensures DistinctCodes([SENTINEL] + Numbered(sorted))
  {
    forall k | 0 <= k < |sorted| ensures sorted[k].code != SENTINEL_CODE {
      assert sorted[k] in multiset(sorted);
      assert sorted[k] in rest;
    }
  }

  // -------------------------------------------------------------------- looking up

  function ToUpper(c: char): char
  {
    if 'a' <= c <= 'z' then c - 'a' + 'A' else c
  }

  /** No ASCII letter is left in lower case, and nothing but their case has changed. */
  function ToAsciiUppercase(s: string): (r: string)
    ensures |r| == |s|
    ensures forall i | 0 <= i < |r| :: !('a' <= r[i] <= 'z')
    ensures forall i | 0 <= i < |r| :: r[i] == s[i] || ('a' <= s[i] <= 'z' && r[i] as int + 32 == s[i] as int)
  {
    seq(|s|, i requires 0 <= i < |s| => ToUpper(s[i]))
  }

  function CountryFromIndex(t: CountryTable, index: nat): Option<Country>
  {
    if index < |t.countries| then Some(t.countries[index]) else None
  }

  /** Codes are looked up in upper case; an index that leads nowhere panics. */
  function CountryFromCode(t: CountryTable, code: string): Option<Country>
    requires MapAgrees(t)
  {
    var upper := ToAsciiUppercase(code);
    if upper in t.indexByIso3166 then CountryFromIndex(t, t.indexByIso3166[upper]) else None
  }

  /** A country is found by code exactly when the table has the code, in whichever case it is asked for. */
  lemma FoundByCode(t: CountryTable, code: string)
    requires MapAgrees(t)
    ensures var upper, found := ToAsciiUppercase(code), CountryFromCode(t, code);
            && (found.Some? <==> HasCode(t.countries, upper))
            && (found.Some? ==> found.value in t.countries && found.value.iso3166 == upper)
            && (DistinctCodes(t.countries) ==>
                  forall i | 0 <= i < |t.countries| && t.countries[i].iso3166 == upper :: found == Some(t.countries[i]))
  {
    var upper := ToAsciiUppercase(code);
    forall i | 0 <= i < |t.countries| && t.countries[i].iso3166 == upper
      ensures HasCode(t.countries, upper)
      ensures DistinctCodes(t.countries) ==> CountryFromCode(t, code) == Some(t.countries[i])
    {
      assert HasCode(t.countries, upper);
      if DistinctCodes(t.countries) { CodeIsUnique(t.countries, i, t.indexByIso3166[upper]); }
    }
  }

  /**
   In a table of distinct codes, code and index lead to the same country: each
   country is found by its own index, and by its code when that is in upper case.
   */
  lemma CodeAndIndexAgree(t: CountryTable, i: nat)
    requires WellFormed(t) && DistinctCodes(t.countries) && i < |t.countries|
    requires ToAsciiUppercase(t.countries[i].iso3166) == t.countries[i].iso3166
    ensures CountryFromIndex(t, t.countries[i].index) == Some(t.countries[i])
    ensures CountryFromCode(t, t.countries[i].iso3166) == Some(t.countries[i])
  {
    var code := t.countries[i].iso3166;
    assert HasCode(t.countries, code);
    var k := t.indexByIso3166[code];
    CodeIsUnique(t.countries, i, k);
  }

  lemma CodeIsUnique(cs: seq<Country>, i: nat, k: nat)
    requires DistinctCodes(cs) && i < |cs| && k < |cs| && cs[i].iso3166 == cs[k].iso3166
    ensures i == k
  {
  }
}
