/**
 dns_utility/src/win_dns_modifier.rs: subverting and reverting the name servers of
 all network interfaces at once. A call to the registry or to netsh may fail and then
 has no effect; the calls made to roll back are taken to succeed, since the source
 panics when they do not.
 */
module WinDns {
  import opened Wrappers
  import Seqs

  const LOCALHOST := "127.0.0.1"

  /** The registry key of an interface; a value that is not there is None. */
  datatype Interface = Interface(
    nameServer: Option<string>,
    nameServerBak: Option<string>,
    defaultGateway: Option<string>,
    dhcpDefaultGateway: Option<string>,
    openable: bool)

  type Registry = seq<Interface>

  // ------------------------------------------------------------- reading a list

  /** `split(',')`: the parts between commas; a list without comma is one part. */
  function Split(s: string): (parts: seq<string>)
    ensures parts != []
  {
    if s == [] then [[]]
    else if s[0] == ',' then [[]] + Split(s[1..])
    else
      var rest := Split(s[1..]);
      [[s[0]] + rest[0]] + rest[1..]
  }

  predicate IsSubverted(nameServers: string) {
    nameServers == LOCALHOST || LOCALHOST + "," <= nameServers
  }

  predicate MakesNoSense(nameServers: string) {
    LOCALHOST in Split(nameServers)
  }

  /** The parts with commas between them. */
  function Joined(parts: seq<string>): string
    requires parts != []
  {
    if |parts| == 1 then parts[0] else parts[0] + ("," + Joined(parts[1..]))
  }

  lemma JoinedCons(p: string, parts: seq<string>)
    requires parts != []
    ensures Joined([p] + parts) == p + ("," + Joined(parts))
  {
    Seqs.Parts([p], parts);
  }

  /** Splitting at commas loses nothing, and leaves no comma in a part. */
  lemma {:induction false} SplitJoins(s: string)
    ensures Joined(Split(s)) == s
    ensures forall i | 0 <= i < |Split(s)| :: ',' !in Split(s)[i]
  {
    if s != [] {
      SplitJoins(s[1..]);
      var rest := Split(s[1..]);
      Seqs.Uncons(s);
      if s[0] == ',' {
        JoinedCons([], rest);
        Seqs.EmptyLeft("," + Joined(rest));
      } else {
        JoinedFront(s[0], rest);
      }
    }
  }

  lemma JoinedFront(c: char, parts: seq<string>)
    requires parts != []
    ensures Joined([[c] + parts[0]] + parts[1..]) == [c] + Joined(parts)
  {
    if |parts| > 1 {
      JoinedCons([c] + parts[0], parts[1..]);
      Seqs.Assoc([c], parts[0], "," + Joined(parts[1..]));
    }
  }

  /** The first part ends where the list does, or at a comma that the rest follows. */
  lemma {:induction false} SplitCons(s: string)
    ensures var p := Split(s)[0];
      && p <= s && ',' !in p
      && (if |p| == |s| then Split(s) == [s] else s[|p|] == ',' && Split(s)[1..] == Split(s[|p| + 1..]))
  {
    if s != [] {
      SplitCons(s[1..]);
      var rest := Split(s[1..]);
      Seqs.Uncons(s);
      if s[0] == ',' {
        Seqs.Parts([[]], rest);
      } else {
        var p := [s[0]] + rest[0];
        Seqs.Parts([p], rest[1..]);
        assert s[..|p|] == p;
        if |p| < |s| { Seqs.DropDrop(s, 1, |rest[0]| + 1); }
      }
    }
  }

  /** A word stands in a list at `i`, between commas or the ends. */
  predicate StandsAt(s: string, w: string, i: nat) {
    && i + |w| <= |s| && s[i..i + |w|] == w
    && (i == 0 || s[i - 1] == ',')
    && (i + |w| == |s| || s[i + |w|] == ',')
  }

  lemma StandsFirst(s: string, w: string)
    requires ',' !in w
    ensures Split(s)[0] == w <==> StandsAt(s, w, 0)
  {
    SplitCons(s);
    if StandsAt(s, w, 0) {
      assert s == w + s[|w|..];
      SplitAfterWord(w, s[|w|..]);
    }
  }

  lemma StandsLater(s: string, w: string, k: nat, i: nat)
    requires k < |s| && s[k] == ',' && i > k
    ensures StandsAt(s, w, i) <==> StandsAt(s[k + 1..], w, i - k - 1)
  {
    var t, j := s[k + 1..], i - k - 1;
    if i + |w| <= |s| {
      assert s[i..i + |w|] == t[j..j + |w|];
      if i > k + 1 { assert s[i - 1] == t[j - 1]; }
      if i + |w| < |s| { assert s[i + |w|] == t[j + |w|]; }
    }
  }

  ghost predicate Stands(s: string, w: string) { exists i: nat :: StandsAt(s, w, i) }

  lemma StandsAlone(s: string, w: string)
    requires ',' !in s
    ensures Stands(s, w) <==> StandsAt(s, w, 0)
  {
    forall i: nat | StandsAt(s, w, i) ensures i == 0 {
      if i > 0 { CommaIsBehind(s, s, w, i); }
    }
  }

  lemma StandsCons(s: string, p: string, w: string)
    requires p < s && ',' !in p && s[|p|] == ','
    ensures Stands(s, w) <==> StandsAt(s, w, 0) || Stands(s[|p| + 1..], w)
  {
    hide StandsAt;
    var t := s[|p| + 1..];
    if Stands(s, w) {
      var i: nat :| StandsAt(s, w, i);
      if i > 0 {
        CommaIsBehind(s, p, w, i);
        StandsLater(s, w, |p|, i);
      }
    }
    if Stands(t, w) {
      var j: nat :| StandsAt(t, w, j);
      StandsLater(s, w, |p|, j + |p| + 1);
    }
  }

  lemma CommaIsBehind(s: string, p: string, w: string, i: nat)
    requires p <= s && ',' !in p && i > 0 && StandsAt(s, w, i)
    ensures i > |p|
  {
    assert forall j | 0 <= j < |p| :: p[j] == s[j] && p[j] in p;
  }

  /** A word without comma is a part of the list exactly when it stands in it. */
  lemma {:induction false} PartIff(s: string, w: string)
    requires ',' !in w
    ensures w in Split(s) <==> Stands(s, w)
    decreases |s|
  {
    hide StandsAt, Stands, Split;
    SplitCons(s);
    StandsFirst(s, w);
    var p := Split(s)[0];
    Seqs.Uncons(Split(s));
    if |p| == |s| {
      StandsAlone(s, w);
    } else {
      PartIff(s[|p| + 1..], w);
      StandsCons(s, p, w);
    }
  }

  lemma LocalhostHasNoComma()
    ensures ',' !in LOCALHOST && |LOCALHOST| == 9
  {
  }

  /** The two checks in terms of the list: the local address is in it, or comes first. */
  lemma ChecksAre(s: string)
    ensures MakesNoSense(s) <==> Stands(s, LOCALHOST)
    ensures IsSubverted(s) <==> StandsAt(s, LOCALHOST, 0)
    ensures IsSubverted(s) <==> Split(s)[0] == LOCALHOST
  {
    LocalhostHasNoComma();
    PartIff(s, LOCALHOST);
    StandsFirst(s, LOCALHOST);
    if StandsAt(s, LOCALHOST, 0) {
      assert s[..9] == LOCALHOST;
      if |s| > 9 { assert s[..10] == LOCALHOST + ","; }
    }
    if LOCALHOST + "," <= s { assert s[..10] == LOCALHOST + "," && s[..9] == s[..10][..9] && s[9] == s[..10][9]; }
  }

  /** A list that starts with the local address also contains it. */
  lemma SubvertedMakesNoSense(s: string)
    requires IsSubverted(s)
    ensures MakesNoSense(s)
  {
    var rest := s[9..];
    assert s == LOCALHOST + rest;
    SplitAfterWord(LOCALHOST, rest);
  }

  lemma {:induction false} SplitAfterWord(w: string, rest: string)
    requires forall i | 0 <= i < |w| :: w[i] != ','
    requires rest == [] || rest[0] == ','
    ensures Split(w + rest)[0] == w
  {
    if w == [] {
      Seqs.EmptyLeft(rest);
    } else {
      SplitAfterWord(w[1..], rest);
      Seqs.TailOfConcat(w, rest);
      Seqs.Uncons(w);
    }
  }

  // ---------------------------------------------------------- finding interfaces

  function DefaultGateway(x: Interface): Option<string>
  {
    var gateway := if x.dhcpDefaultGateway.Some? then x.dhcpDefaultGateway else x.defaultGateway;
    if gateway == Some("") then None else gateway
  }

  /** The gateway from DHCP counts before the other one, and an empty one is none. */
  lemma GatewayIs(x: Interface, g: string)
    ensures DefaultGateway(x) == Some(g) <==>
      g != "" && (x.dhcpDefaultGateway == Some(g) || (x.dhcpDefaultGateway.None? && x.defaultGateway == Some(g)))
  {
  }

  predicate Subvertible(x: Interface) {
    x.openable && DefaultGateway(x).Some? && x.nameServer.Some?
  }

  predicate Revertible(x: Interface) {
    x.openable && x.nameServerBak.Some?
  }

  /** The positions of interfaces that satisfy a condition, in the order of the registry. */
  function Positions(reg: Registry, wanted: Interface -> bool): (ps: seq<nat>)
    ensures forall k | 0 <= k < |ps| :: ps[k] < |reg| && wanted(reg[ps[k]])
    ensures forall i | 0 <= i < |reg| && wanted(reg[i]) :: i in ps
    ensures forall j, k | 0 <= j < k < |ps| :: ps[j] < ps[k]
  {
    if reg == [] then []
    else
      var init, n := reg[..|reg| - 1], |reg| - 1;
      assert forall i | 0 <= i < n :: init[i] == reg[i];
      if wanted(reg[n]) then Positions(init, wanted) + [n] else Positions(init, wanted)
  }

  /** None when there is no interface to subvert, or when they have different gateways. */
  function InterfacesToSubvert(reg: Registry): (r: Option<seq<nat>>)
    ensures r.Some? ==> r.value == Positions(reg, Subvertible) && r.value != []
    ensures r.Some? <==>
      && (exists i :: 0 <= i < |reg| && Subvertible(reg[i]))
      && (forall i, j | 0 <= i < |reg| && 0 <= j < |reg| && Subvertible(reg[i]) && Subvertible(reg[j]) ::
            DefaultGateway(reg[i]) == DefaultGateway(reg[j]))
  {
    var found := Positions(reg, Subvertible);
    GatewaysDiffer(reg, found);
    if found == [] || |Gateways(reg, found)| > 1 then None else Some(found)
  }

  function Gateways(reg: Registry, found: seq<nat>): set<Option<string>>
    requires forall k | 0 <= k < |found| :: found[k] < |reg|
  {
    set k | 0 <= k < |found| :: DefaultGateway(reg[found[k]])
  }

  /** More than one gateway means two interfaces that differ. */
  lemma GatewaysDiffer(reg: Registry, found: seq<nat>)
    requires found == Positions(reg, Subvertible)
    ensures found != [] <==> exists i :: 0 <= i < |reg| && Subvertible(reg[i])
    ensures |Gateways(reg, found)| > 1 <==>
      exists i, j | 0 <= i < |reg| && 0 <= j < |reg| && Subvertible(reg[i]) && Subvertible(reg[j]) ::
        DefaultGateway(reg[i]) != DefaultGateway(reg[j])
  {
    hide Positions, DefaultGateway, Subvertible;
    if found != [] { assert Subvertible(reg[found[0]]); }
    forall i, j | 0 <= i < |reg| && 0 <= j < |reg| && Subvertible(reg[i]) && Subvertible(reg[j])
        && DefaultGateway(reg[i]) != DefaultGateway(reg[j])
      ensures |Gateways(reg, found)| > 1
    {
      GatewayIsThere(reg, found, i);
      GatewayIsThere(reg, found, j);
      TwoMembers(Gateways(reg, found), DefaultGateway(reg[i]), DefaultGateway(reg[j]));
    }
    if |Gateways(reg, found)| > 1 {
      var x, y := SecondMember(Gateways(reg, found));
      var k :| 0 <= k < |found| && DefaultGateway(reg[found[k]]) == x;
      var l :| 0 <= l < |found| && DefaultGateway(reg[found[l]]) == y;
      assert Subvertible(reg[found[k]]) && Subvertible(reg[found[l]]);
    }
  }

  lemma GatewayIsThere(reg: Registry, found: seq<nat>, i: nat)
    requires i in found && forall k | 0 <= k < |found| :: found[k] < |reg|
    ensures DefaultGateway(reg[i]) in Gateways(reg, found)
  {
    hide DefaultGateway;
    var k :| 0 <= k < |found| && found[k] == i;
    assert DefaultGateway(reg[found[k]]) in Gateways(reg, found);
  }

  lemma SecondMember<T>(s: set<T>) returns (x: T, y: T)
    requires |s| > 1
    ensures x in s && y in s && x != y
  {
    x :| x in s;
    assert |s - {x}| == |s| - 1;
    y :| y in s - {x};
  }

  lemma TwoMembers<T>(s: set<T>, x: T, y: T)
    requires x in s && y in s && x != y
    ensures |s| > 1
  {
    assert {x, y} <= s;
    assert |s| == |s - {x, y}| + |{x, y}|;
  }

  // ------------------------------------------------------------- states reached

  /** What an interface's list was before it was subverted. */
  function Original(x: Interface): Option<string>
  {
    if x.nameServerBak.Some? then x.nameServerBak else x.nameServer
  }

  /** A backup goes with the local address in place, and is a list that made sense. */
  predicate Sane(x: Interface) {
    x.nameServerBak.Some? ==>
      && x.nameServer == Some(LOCALHOST)
      && !MakesNoSense(x.nameServerBak.value)
      && Subvertible(x)
  }

  predicate AllSane(reg: Registry) { forall i | 0 <= i < |reg| :: Sane(reg[i]) }

  predicate NoBackups(reg: Registry) { forall i | 0 <= i < |reg| :: reg[i].nameServerBak.None? }

  /** Interfaces are subverted all together or not at all. */
  predicate AllOrNothing(reg: Registry) {
    NoBackups(reg) || AllSubverted(reg)
  }

  /** Every interface that can be opened and has a gateway and a name server names the local address first. */
  predicate AllSubverted(reg: Registry) {
    forall i | 0 <= i < |reg| && reg[i].openable && reg[i].nameServer.Some? && DefaultGateway(reg[i]).Some? ::
      IsSubverted(reg[i].nameServer.value)
  }

  /** A list that names the local address, but not first. */
  ghost predicate Refused(x: Interface) {
    && Subvertible(x) && !StandsAt(x.nameServer.value, LOCALHOST, 0)
    && Stands(x.nameServer.value, LOCALHOST)
  }

  ghost predicate Reachable(initial: Registry, reg: Registry) {
    && |reg| == |initial|
    && AllSane(reg) && AllOrNothing(reg)
    && forall i | 0 <= i < |reg| ::
         && Original(reg[i]) == initial[i].nameServer
         && reg[i].defaultGateway == initial[i].defaultGateway
         && reg[i].dhcpDefaultGateway == initial[i].dhcpDefaultGateway
         && reg[i].openable == initial[i].openable
  }

  predicate NotSubverted(x: Interface) {
    x.nameServer.Some? && !IsSubverted(x.nameServer.value)
  }

  predicate MadeSense(x: Interface) {
    x.nameServer.Some? && !MakesNoSense(x.nameServer.value)
  }

  /** What subverting makes of an interface, and rolling a reversion back as well. */
  function AfterSubvert(x: Interface): Interface
  {
    if x.nameServer.None? || IsSubverted(x.nameServer.value) then x
    else x.(nameServerBak := x.nameServer, nameServer := Some(LOCALHOST))
  }

  /** What reverting makes of an interface; a name server that is gone is not created again. */
  function AfterRevert(x: Interface): Interface
    requires x.nameServerBak.Some?
  {
    x.(nameServer := if x.nameServer.None? then None else x.nameServerBak, nameServerBak := None)
  }

  /** What rolling a subversion back makes of an interface that has a name server. */
  function RolledBack(x: Interface): Interface
  {
    if x.nameServerBak.None? then x
    else x.(nameServerBak := None,
            nameServer :=
              if x.nameServer.Some? && IsSubverted(x.nameServer.value) then x.nameServerBak else x.nameServer)
  }

  lemma RefusedAt(x: Interface)
    requires Subvertible(x)
    ensures !IsSubverted(x.nameServer.value) && Stands(x.nameServer.value, LOCALHOST) ==> Refused(x)
  {
    hide StandsAt, IsSubverted;
    ChecksAre(x.nameServer.value);
  }

  // ------------------------------------------------------- what rolling back does

  /** Reverting puts the backup back where there is a list, creates none where there is none, and keeps the rest. */
  lemma RevertIs(x: Interface)
    requires x.nameServerBak.Some?
    ensures var y := AfterRevert(x);
      && y.nameServerBak.None? && (y.nameServer.None? <==> x.nameServer.None?)
      && (y.nameServer.Some? ==> y.nameServer == x.nameServerBak)
      && y == x.(nameServer := y.nameServer, nameServerBak := None)
  {
  }

  /** Rolling back a subversion gives a list back only in place of a subverted one. */
  lemma RollBackIs(x: Interface)
    ensures var y := RolledBack(x);
      && y.nameServerBak.None?
      && (x.nameServer.Some? && Split(x.nameServer.value)[0] != LOCALHOST ==> y.nameServer == x.nameServer)
      && (x.nameServer.Some? && x.nameServerBak.Some? && Split(x.nameServer.value)[0] == LOCALHOST ==>
            y.nameServer == x.nameServerBak)
      && y == x.(nameServer := y.nameServer, nameServerBak := None)
  {
    hide Split, IsSubverted;
    if x.nameServer.Some? { ChecksAre(x.nameServer.value); }
  }

  /** Rolling back takes no notice of how far subverting an interface had got. */
  lemma RollBackFromAnywhere(x: Interface, before: Interface)
    requires before.nameServer.Some?
    requires x == AfterSubvert(before) || x == before ||
             (!IsSubverted(before.nameServer.value) && x == before.(nameServerBak := before.nameServer))
    ensures RollsBackTo(x, before)
  {
  }

  ghost predicate RollsBackTo(x: Interface, before: Interface) {
    x.nameServer.Some? && before.nameServer.Some? && RolledBack(x) == RolledBack(before)
  }

  /**
   It restores an interface exactly when that had no backup before: an interface that
   was subverted by an earlier call loses its subversion to a later call's failure.
   */
  lemma RollBackRestoresIff(x: Interface)
    ensures RolledBack(x) == x <==> x.nameServerBak.None?
    ensures Sane(x) ==> Original(RolledBack(x)) == Original(x)
  {
  }

  /** For sane interfaces rolling a reversion back restores them from wherever it had got. */
  lemma RollForwardRestores(x: Interface)
    requires Sane(x) && x.nameServerBak.Some?
    ensures AfterSubvert(AfterRevert(x)) == x
    ensures AfterSubvert(x.(nameServer := x.nameServerBak)) == x
    ensures AfterSubvert(x) == x
  {
    if IsSubverted(x.nameServerBak.value) { SubvertedMakesNoSense(x.nameServerBak.value); }
  }

  // ------------------------------------------------------------------- the class

  class WinDnsModifier {
    var registry: Registry

    constructor (initial: Registry)
      ensures registry == initial
    {
      registry := initial;
    }

    // The forward calls, each of which may fail.

    method SetBackup(i: nat, value: string) returns (ok: bool)
      requires i < |registry|
      modifies this
      ensures registry ==
                if ok then old(registry)[i := old(registry)[i].(nameServerBak := Some(value))] else old(registry)
    {
      ok := *;
      if ok { registry := registry[i := registry[i].(nameServerBak := Some(value))]; }
    }

    method DeleteBackup(i: nat) returns (ok: bool)
      requires i < |registry|
      modifies this
      ensures registry == if ok then old(registry)[i := old(registry)[i].(nameServerBak := None)] else old(registry)
    {
      ok := *;
      if ok { registry := registry[i := registry[i].(nameServerBak := None)]; }
    }

    method SetNameServers(i: nat, value: string) returns (ok: bool)
      requires i < |registry|
      modifies this
      ensures registry == if ok then old(registry)[i := old(registry)[i].(nameServer := Some(value))] else old(registry)
    {
      ok := *;
      if ok { registry := registry[i := registry[i].(nameServer := Some(value))]; }
    }

    /** On failure the interface is as before, or has got its backup and nothing else. */
    method SubvertInterface(i: nat) returns (ok: bool, ghost failed: bool)
      requires i < |registry| && registry[i].nameServer.Some?
      modifies this
      ensures |registry| == old(|registry|) && registry == old(registry)[i := registry[i]]
      ensures ok ==> registry[i] == AfterSubvert(old(registry)[i])
      ensures !ok ==> !IsSubverted(old(registry)[i].nameServer.value)
      ensures !ok ==> registry[i] in {old(registry)[i], old(registry)[i].(nameServerBak := old(registry)[i].nameServer)}
      ensures ok && !IsSubverted(old(registry)[i].nameServer.value) ==> !MakesNoSense(old(registry)[i].nameServer.value)
      ensures ok && registry[i] != old(registry)[i] ==> MadeSense(old(registry)[i])
      ensures ok ==> !failed
      ensures !ok && !failed ==> Stands(old(registry)[i].nameServer.value, LOCALHOST)
    {
      hide StandsAt, IsSubverted, MakesNoSense;
      failed := false;
      var nameServers := registry[i].nameServer.value;
      ChecksAre(nameServers);
      if IsSubverted(nameServers) { return true, false; }
      if MakesNoSense(nameServers) { return false, false; }
      ok := SetBackup(i, nameServers);
      if !ok { return false, true; }
      ok := SetNameServers(i, LOCALHOST);
      failed := !ok;
    }

    method RollBackSubvert(i: nat)
      requires i < |registry| && registry[i].nameServer.Some?
      modifies this
      ensures registry == old(registry)[i := RolledBack(old(registry)[i])]
    {
      var backup := registry[i].nameServerBak;
      if backup.None? { return; }
      registry := registry[i := registry[i].(nameServerBak := None)];
      if IsSubverted(registry[i].nameServer.value) {
        registry := registry[i := registry[i].(nameServer := backup)];
      }
    }

    /**
     Subverts every interface found, or rolls back. After a failure the interfaces that
     had been tried are rolled back and the rest are untouched; in a state where the
     interfaces are subverted all together or not at all, that is the state before. It
     fails only if a call fails, there is no interface to subvert, the interfaces have
     different gateways, or a list names the local address, but not first.
     */
    method Subvert() returns (ok: bool, ghost tried: seq<nat>, ghost failed: bool)
      modifies this
      ensures |registry| == old(|registry|)
      ensures ok ==> InterfacesToSubvert(old(registry)).Some?
      ensures ok ==> forall i | 0 <= i < |registry| ::
                && registry[i] ==
                     (if Subvertible(old(registry)[i]) then AfterSubvert(old(registry)[i]) else old(registry)[i])
                && (registry[i] != old(registry)[i] ==> MadeSense(old(registry)[i]))
      ensures !ok ==> tried <= Positions(old(registry), Subvertible)
      ensures !ok ==> forall i | 0 <= i < |registry| ::
                registry[i] == if i in tried then RolledBack(old(registry)[i]) else old(registry)[i]
      ensures !ok && AllOrNothing(old(registry)) ==> registry == old(registry)
      ensures ok ==> !failed
      ensures !ok && !failed ==>
                InterfacesToSubvert(old(registry)).None? || exists i :: 0 <= i < |registry| && Refused(old(registry)[i])
    {
      hide Positions, Refused;
      var hiveOpens: bool := *;
      if !hiveOpens { return false, [], true; }
      var interfaces := InterfacesToSubvert(registry);
      if interfaces.None? { return false, [], false; }
      ok, tried, failed := SubvertAll(interfaces.value);
      assert !ok && AllOrNothing(old(registry)) ==> NoBackups(old(registry));
    }

    method SubvertAll(found: seq<nat>) returns (ok: bool, ghost tried: seq<nat>, ghost failed: bool)
      requires forall k | 0 <= k < |found| :: found[k] < |registry| && Subvertible(registry[found[k]])
      requires forall j, k | 0 <= j < k < |found| :: found[j] != found[k]
      modifies this
      ensures |registry| == old(|registry|)
      ensures ok ==> forall i | 0 <= i < |registry| ::
                && registry[i] == (if i in found then AfterSubvert(old(registry)[i]) else old(registry)[i])
                && (registry[i] != old(registry)[i] ==> MadeSense(old(registry)[i]))
      ensures !ok ==> tried <= found && exists i :: i in tried && i < old(|registry|) && NotSubverted(old(registry)[i])
      ensures !ok ==> forall i | 0 <= i < |registry| ::
                registry[i] == if i in tried then RolledBack(old(registry)[i]) else old(registry)[i]
      ensures ok ==> !failed
      ensures !ok && !failed ==> exists i :: 0 <= i < old(|registry|) && Refused(old(registry)[i])
    {
      hide MakesNoSense, IsSubverted, StandsAt, RolledBack, AfterSubvert, MadeSense;
      tried, failed := [], false;
      for k := 0 to |found|
        invariant |registry| == old(|registry|)
        invariant forall i | 0 <= i < |registry| ::
                    && registry[i] == (if i in found[..k] then AfterSubvert(old(registry)[i]) else old(registry)[i])
                    && (registry[i] != old(registry)[i] ==> MadeSense(old(registry)[i]))
      {
        assert found[k] !in found[..k];
        Seqs.TakeOneMore(found, k);
        ok, failed := SubvertInterface(found[k]);
        if !ok {
          tried := found[..k + 1];
          RefusedAt(old(registry)[found[k]]);
          assert tried[k] in tried && NotSubverted(old(registry)[tried[k]]);
          forall j | 0 <= j < |tried| ensures RollsBackTo(registry[tried[j]], old(registry)[tried[j]]) {
            RollBackFromAnywhere(registry[tried[j]], old(registry)[tried[j]]);
          }
          RollBackAll(found[..k + 1], old(registry));
          return;
        }
      }
      assert found[..|found|] == found;
      ok, failed := true, false;
    }

    /** Rolls back interfaces that had got some of the way. */
    method RollBackAll(tried: seq<nat>, ghost before: Registry)
      requires |registry| == |before|
      requires forall j, k | 0 <= j < k < |tried| :: tried[j] != tried[k]
      requires forall k | 0 <= k < |tried| ::
                 tried[k] < |registry| && RollsBackTo(registry[tried[k]], before[tried[k]])
      requires forall i | 0 <= i < |registry| && i !in tried :: registry[i] == before[i]
      modifies this
      ensures |registry| == |before|
      ensures forall i | 0 <= i < |registry| :: registry[i] == if i in tried then RolledBack(before[i]) else before[i]
    {
      ghost var start := registry;
      for k := 0 to |tried|
        invariant |registry| == |before|
        invariant forall i | 0 <= i < |registry| ::
                    registry[i] == if i in tried[..k] then RolledBack(before[i]) else start[i]
      {
        assert tried[k] !in tried[..k];
        Seqs.TakeOneMore(tried, k);
        RollBackSubvert(tried[k]);
      }
      assert tried[..|tried|] == tried;
    }

    /** On failure the interface is as before, or has got its old list back and kept its backup. */
    method RevertInterface(i: nat) returns (ok: bool, ghost failed: bool)
      requires i < |registry| && registry[i].nameServerBak.Some?
      modifies this
      ensures |registry| == old(|registry|) && registry == old(registry)[i := registry[i]]
      ensures ok ==> registry[i] == AfterRevert(old(registry)[i])
      ensures !ok ==> registry[i] in {old(registry)[i], old(registry)[i].(nameServer := old(registry)[i].nameServerBak)}
      ensures ok <==> !failed
    {
      var oldNameServers := registry[i].nameServerBak.value;
      if registry[i].nameServer.Some? {
        ok := SetNameServers(i, oldNameServers);
        if !ok { return false, true; }
      }
      ok := DeleteBackup(i);
      failed := !ok;
    }

    method RollBackRevert(i: nat)
      requires i < |registry|
      modifies this
      ensures registry == old(registry)[i := AfterSubvert(old(registry)[i])]
    {
      var nameServers := registry[i].nameServer;
      if nameServers.None? || IsSubverted(nameServers.value) { return; }
      registry := registry[i := registry[i].(nameServerBak := nameServers)];
      registry := registry[i := registry[i].(nameServer := Some(LOCALHOST))];
    }

    /**
     Reverts every interface with a backup, unless a call fails; after a failure sane
     interfaces are all as before.
     */
    method Revert() returns (ok: bool, ghost failed: bool)
      modifies this
      ensures |registry| == old(|registry|)
      ensures ok ==> forall i | 0 <= i < |registry| ::
                registry[i] == if old(registry)[i].openable && old(registry)[i].nameServerBak.Some?
                               then AfterRevert(old(registry)[i]) else old(registry)[i]
      ensures !ok && AllSane(old(registry)) ==> registry == old(registry)
      ensures ok <==> !failed
    {
      hide IsSubverted, MakesNoSense, Positions;
      failed := false;
      var hiveOpens: bool := *;
      if !hiveOpens { return false, true; }
      var found := Positions(registry, Revertible);
      for k := 0 to |found|
        invariant |registry| == old(|registry|)
        invariant forall i | 0 <= i < |registry| ::
                    registry[i] == if i in found[..k] then AfterRevert(old(registry)[i]) else old(registry)[i]
      {
        assert found[k] !in found[..k];
        Seqs.TakeOneMore(found, k);
        ok, failed := RevertInterface(found[k]);
        if !ok {
          ghost var tried := found[..k + 1];
          if AllSane(old(registry)) {
            forall j | 0 <= j < |tried| ensures AfterSubvert(registry[tried[j]]) == old(registry)[tried[j]] {
              RollForwardRestores(old(registry)[tried[j]]);
            }
          }
          RollForwardAll(found[..k + 1], old(registry));
          return;
        }
      }
      assert found[..|found|] == found;
      ok, failed := true, false;
    }

    method RollForwardAll(tried: seq<nat>, ghost before: Registry)
      requires |registry| == |before|
      requires forall j, k | 0 <= j < k < |tried| :: tried[j] != tried[k]
      requires forall k | 0 <= k < |tried| :: tried[k] < |registry|
      modifies this
      ensures |registry| == |before|
      ensures forall i | 0 <= i < |registry| ::
                registry[i] == if i in tried then AfterSubvert(old(registry)[i]) else old(registry)[i]
    {
      for k := 0 to |tried|
        invariant |registry| == |before|
        invariant forall i | 0 <= i < |registry| ::
                    registry[i] == if i in tried[..k] then AfterSubvert(old(registry)[i]) else old(registry)[i]
      {
        assert tried[k] !in tried[..k];
        Seqs.TakeOneMore(tried, k);
        RollBackRevert(tried[k]);
      }
      assert tried[..|tried|] == tried;
    }
  }

  // ------------------------------------------------------------------- whole runs

  datatype Call = CallSubvert | CallRevert

  lemma SubvertKeepsReachable(initial: Registry, before: Registry, after: Registry)
    requires Reachable(initial, before) && |after| == |before|
    requires forall i | 0 <= i < |after| ::
               && after[i] == (if Subvertible(before[i]) then AfterSubvert(before[i]) else before[i])
               && (after[i] != before[i] ==> MadeSense(before[i]))
    ensures Reachable(initial, after) && AllSubverted(after)
  {
    hide MakesNoSense;
    forall i | 0 <= i < |after| ensures Sane(after[i]) && Original(after[i]) == Original(before[i]) {
      assert Sane(before[i]);
    }
    forall i | 0 <= i < |after| && Subvertible(after[i]) ensures IsSubverted(after[i].nameServer.value) {
      assert Subvertible(before[i]);
    }
  }

  lemma RevertKeepsReachable(initial: Registry, before: Registry, after: Registry)
    requires Reachable(initial, before) && |after| == |before|
    requires forall i | 0 <= i < |after| ::
               after[i] == if Revertible(before[i]) then AfterRevert(before[i]) else before[i]
    ensures Reachable(initial, after) && NoBackups(after)
  {
    hide MakesNoSense, IsSubverted;
    forall i | 0 <= i < |after| ensures after[i].nameServerBak.None? && Original(after[i]) == Original(before[i]) {
      assert Sane(before[i]);
    }
  }

  /**
   Over every run of subvert and revert calls, each failing wherever it may, from a
   state without backups: no interface's original list is ever lost, a backup goes with
   exactly the local address, interfaces are subverted all together or not at all, a
   failed call changes nothing, a subvert that succeeds leaves every interface
   subverted, and a revert that succeeds leaves everything as it was at the start.
   Where no call of the system fails, a revert succeeds, and a subvert unless the
   interfaces or their lists do not allow it.
   */
  method Run(initial: Registry, calls: seq<Call>)
      returns (final: Registry, results: seq<bool>, states: seq<Registry>, ghost failures: seq<bool>)
    requires NoBackups(initial)
    ensures |results| == |calls| && |states| == |calls| + 1 && states[0] == initial && states[|calls|] == final
    ensures forall n | 0 <= n < |states| :: Reachable(initial, states[n])
    ensures forall n | 0 <= n < |calls| && !results[n] :: states[n + 1] == states[n]
    ensures forall n | 0 <= n < |calls| && results[n] && calls[n].CallSubvert? :: AllSubverted(states[n + 1])
    ensures forall n | 0 <= n < |calls| && results[n] && calls[n].CallRevert? :: states[n + 1] == initial
    ensures |failures| == |calls|
    ensures forall n | 0 <= n < |calls| && !failures[n] :: Explained(calls[n], states[n], results[n])
  {
    hide Explained;
    var modifier := new WinDnsModifier(initial);
    results, states, failures := [], [initial], [];
    for n := 0 to |calls|
      invariant |results| == n && |states| == n + 1 && states[0] == initial && states[n] == modifier.registry
      invariant forall m | 0 <= m < |states| :: Reachable(initial, states[m])
      invariant forall m | 0 <= m < n && !results[m] :: states[m + 1] == states[m]
      invariant forall m | 0 <= m < n && results[m] && calls[m].CallSubvert? :: AllSubverted(states[m + 1])
      invariant forall m | 0 <= m < n && results[m] && calls[m].CallRevert? :: states[m + 1] == initial
      invariant |failures| == n && forall m | 0 <= m < n && !failures[m] :: Explained(calls[m], states[m], results[m])
    {
      ghost var failed;
      var ok;
      ok, failed := Perform(modifier, calls[n], initial);
      results, states, failures := results + [ok], states + [modifier.registry], failures + [failed];
    }
    final := modifier.registry;
  }

  /** Without a call of the system failing: how it comes out follows from the registry. */
  ghost predicate Explained(call: Call, reg: Registry, ok: bool) {
    match call
    case CallRevert => ok
    case CallSubvert =>
      ok || InterfacesToSubvert(reg).None? || exists i :: 0 <= i < |reg| && Refused(reg[i])
  }

  method Perform(modifier: WinDnsModifier, call: Call, ghost initial: Registry) returns (ok: bool, ghost failed: bool)
    requires NoBackups(initial) && Reachable(initial, modifier.registry)
    modifies modifier
    ensures Reachable(initial, modifier.registry)
    ensures !ok ==> modifier.registry == old(modifier.registry)
    ensures ok && call.CallSubvert? ==> AllSubverted(modifier.registry)
    ensures ok && call.CallRevert? ==> modifier.registry == initial
    ensures !failed ==> Explained(call, old(modifier.registry), ok)
  {
    hide Refused;
    match call {
      case CallSubvert =>
        ghost var tried;
        ok, tried, failed := modifier.Subvert();
        if ok { SubvertKeepsReachable(initial, old(modifier.registry), modifier.registry); }
      case CallRevert =>
        ok, failed := modifier.Revert();
        if ok {
          RevertKeepsReachable(initial, old(modifier.registry), modifier.registry);
          BackAtStart(initial, modifier.registry);
        }
    }
  }

  lemma BackAtStart(initial: Registry, reg: Registry)
    requires NoBackups(initial) && Reachable(initial, reg) && NoBackups(reg)
    ensures reg == initial
  {
    forall i | 0 <= i < |reg| ensures reg[i] == initial[i] {
      assert reg[i].nameServerBak.None? && initial[i].nameServerBak.None?;
    }
  }
}
