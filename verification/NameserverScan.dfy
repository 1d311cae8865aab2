/**
 dns_utility/src/resolv_conf_dns_modifier.rs: finding `nameserver` directives in the
 text of resolv.conf, and what is found once they are commented out. The three patterns
 it searches with are spelt out as what they match from a given position; since no
 repetition in them can be followed by what it repeats, the longest match is the only one.
 */
module NameserverScan {
  import opened Wrappers
  import Seqs

  // --------------------------------------------------------------------- patterns

  /** `\s` */
  predicate IsSpace(c: char) {
    || '\U{09}' <= c <= '\U{0D}' || c == ' ' || c == '\U{85}' || c == '\U{A0}' || c == '\U{1680}'
    || '\U{2000}' <= c <= '\U{200A}' || c == '\U{2028}' || c == '\U{2029}'
    || c == '\U{202F}' || c == '\U{205F}' || c == '\U{3000}'
  }

  const KEYWORD := "nameserver"
  const MASQ_IP := "127.0.0.1"
  const MASQ_LINE := "nameserver 127.0.0.1"

  predicate Suffix(r: string, s: string) {
    |r| <= |s| && r == s[|s| - |r|..]
  }

  lemma SuffixOfSuffix(r: string, t: string, s: string)
    requires Suffix(r, t) && Suffix(t, s)
    ensures Suffix(r, s)
  {
    Seqs.DropDrop(s, |s| - |t|, |t| - |r|);
  }

  lemma DropIsSuffix(s: string, k: nat)
    requires k <= |s|
    ensures Suffix(s[k..], s)
  {
  }

  /** What is left behind `\s*`. */
  function Space(s: string): (r: string)
    ensures Suffix(r, s)
    ensures r != [] ==> !IsSpace(r[0])
  {
    if s != [] && IsSpace(s[0]) then Space(s[1..]) else s
  }

  /** What is left behind `[^\s]*`. */
  function Word(s: string): (r: string)
    ensures Suffix(r, s)
    ensures r != [] ==> IsSpace(r[0])
  {
    if s != [] && !IsSpace(s[0]) then Word(s[1..]) else s
  }

  /** What is left behind `#?`. */
  function Hash(s: string): (r: string)
    ensures Suffix(r, s)
  {
    if s != [] && s[0] == '#' then s[1..] else s
  }

  /** The keyword and at least one space. */
  predicate DirectiveAhead(s: string) {
    KEYWORD <= s && |s| > 10 && IsSpace(s[10])
  }

  /** What is left behind `nameserver\s+[^\s]*`. */
  function BehindDirective(s: string): (r: string)
    requires DirectiveAhead(s)
    ensures |r| < |s| && Suffix(r, s)
    ensures r != [] ==> IsSpace(r[0])
  {
    var behind := Space(s[10..]);
    DropIsSuffix(s, 10);
    SuffixOfSuffix(behind, s[10..], s);
    SuffixOfSuffix(Word(behind), behind, s);
    Word(behind)
  }

  datatype Pattern =
    | Active    // (^|\n)\s*(nameserver\s+[^\s]*)
    | Existing  // (^|\n)\s*(#?\s*nameserver\s+[^\s]*)
    | MasqLine  // (^|\n)\s*(nameserver\s+127\.0\.0\.1\n?)

  /** What is left behind `nameserver\s+127\.0\.0\.1\n?`. */
  function BehindMasqLine(s: string): (r: Option<string>)
    requires DirectiveAhead(s)
    ensures r.Some? ==> |r.value| < |s| && Suffix(r.value, s)
  {
    var address := Space(s[10..]);
    DropIsSuffix(s, 10);
    SuffixOfSuffix(address, s[10..], s);
    if !(MASQ_IP <= address) then None
    else if |address| > 9 && address[9] == '\n' then
      DropIsSuffix(address, 10);
      SuffixOfSuffix(address[10..], address, s);
      Some(address[10..])
    else
      DropIsSuffix(address, 9);
      SuffixOfSuffix(address[9..], address, s);
      Some(address[9..])
  }

  /** What is left behind the group that the pattern captures. */
  function BehindGroup(p: Pattern, s: string): (r: Option<string>)
    ensures r.Some? ==> |r.value| < |s| && Suffix(r.value, s)
  {
    match p
    case Active => if DirectiveAhead(s) then Some(BehindDirective(s)) else None
    case Existing =>
      var d := Space(Hash(s));
      SuffixOfSuffix(d, Hash(s), s);
      if DirectiveAhead(d) then
        SuffixOfSuffix(BehindDirective(d), d, s);
        Some(BehindDirective(d))
      else None
    case MasqLine => if DirectiveAhead(s) then BehindMasqLine(s) else None
  }

  /** What is left behind `(^|\n)\s*`, if that matches; `first` stands for `^`. */
  function BehindLead(s: string, first: bool): (r: Option<string>)
    ensures r.Some? ==> Suffix(r.value, s)
    ensures r.Some? && !first ==> |r.value| < |s|
  {
    if first then Some(Space(s))
    else if s != [] && s[0] == '\n' then Some(Space(s[1..]))
    else None
  }

  predicate MatchesAt(p: Pattern, s: string, first: bool) {
    BehindLead(s, first).Some? && BehindGroup(p, BehindLead(s, first).value).Some?
  }

  /** A piece of text that ends in what the group captured. */
  datatype Piece = Piece(gap: string, directive: string)

  datatype Scanned = Scanned(pieces: seq<Piece>, tail: string)

  function Prepend(v: string, x: Scanned): Scanned
  {
    if x.pieces == [] then x.(tail := v + x.tail)
    else x.(pieces := [Piece(v + x.pieces[0].gap, x.pieces[0].directive)] + x.pieces[1..])
  }

  /** All matches, leftmost first, each search starting where the match before it ended. */
  function Scan(p: Pattern, s: string, first: bool): Scanned
    decreases |s|
  {
    if MatchesAt(p, s, first) then
      var group := BehindLead(s, first).value;
      var rest := BehindGroup(p, group).value;
      var more := Scan(p, rest, false);
      Scanned([Piece(s[..|s| - |group|], group[..|group| - |rest|])] + more.pieces, more.tail)
    else if s == [] then Scanned([], [])
    else Prepend([s[0]], Scan(p, s[1..], false))
  }

  function Join(x: Scanned): string
    decreases |x.pieces|
  {
    if x.pieces == [] then x.tail
    else x.pieces[0].gap + (x.pieces[0].directive + Join(Scanned(x.pieces[1..], x.tail)))
  }

  /** The positions where the captured groups start. */
  function Starts(x: Scanned, from: nat): (ps: seq<nat>)
    ensures |ps| == |x.pieces|
    decreases |x.pieces|
  {
    if x.pieces == [] then []
    else
      var start := from + |x.pieces[0].gap|;
      [start] + Starts(Scanned(x.pieces[1..], x.tail), start + |x.pieces[0].directive|)
  }

  lemma JoinPrepend(v: string, x: Scanned)
    ensures Join(Prepend(v, x)) == v + Join(x)
  {
    if x.pieces != [] {
      var p, rest := x.pieces[0], Join(Scanned(x.pieces[1..], x.tail));
      Seqs.Parts([Piece(v + p.gap, p.directive)], x.pieces[1..]);
      Seqs.Assoc(v, p.gap, p.directive + rest);
    }
  }

  /** Scanning takes the text apart and loses nothing. */
  lemma {:induction false} JoinScan(p: Pattern, s: string, first: bool)
    ensures Join(Scan(p, s, first)) == s
    decreases |s|
  {
    if MatchesAt(p, s, first) {
      var group := BehindLead(s, first).value;
      var rest := BehindGroup(p, group).value;
      JoinScan(p, rest, false);
      var piece := Piece(s[..|s| - |group|], group[..|group| - |rest|]);
      var more := Scan(p, rest, false);
      Seqs.Parts([piece], more.pieces);
      Seqs.Split(group, |group| - |rest|);
      Seqs.Split(s, |s| - |group|);
    } else if s != [] {
      JoinScan(p, s[1..], false);
      JoinPrepend([s[0]], Scan(p, s[1..], false));
      Seqs.Uncons(s);
    }
  }

  // -------------------------------------------------------- commenting out and in

  function CommentPiece(p: Piece): Piece { p.(directive := "#" + p.directive) }

  function Commented(x: Scanned): Scanned
    decreases |x.pieces|
  {
    if x.pieces == [] then x
    else x.(pieces := [CommentPiece(x.pieces[0])] + Commented(x.(pieces := x.pieces[1..])).pieces)
  }

  lemma CommentedCons(p: Piece, x: Scanned)
    ensures Commented(x.(pieces := [p] + x.pieces)) == x.(pieces := [CommentPiece(p)] + Commented(x).pieces)
    ensures Commented(x).tail == x.tail
  {
    Seqs.Parts([p], x.pieces);
  }

  lemma CommentedPrepend(v: string, x: Scanned)
    ensures Commented(Prepend(v, x)) == Prepend(v, Commented(x))
  {
    if x.pieces != [] {
      var p, rest := x.pieces[0], x.(pieces := x.pieces[1..]);
      Seqs.Uncons(x.pieces);
      CommentedCons(p, rest);
      CommentedCons(Piece(v + p.gap, p.directive), rest);
      Seqs.Parts([CommentPiece(p)], Commented(rest).pieces);
    }
  }

  lemma PrependTwice(v: string, w: string, x: Scanned)
    ensures Prepend(v, Prepend(w, x)) == Prepend(v + w, x)
  {
    if x.pieces == [] {
      Seqs.Assoc(v, w, x.tail);
    } else {
      Seqs.Assoc(v, w, x.pieces[0].gap);
      Seqs.Parts([Piece(w + x.pieces[0].gap, x.pieces[0].directive)], x.pieces[1..]);
    }
  }

  lemma PrependNothing(x: Scanned)
    ensures Prepend([], x) == x
  {
    if x.pieces == [] {
      Seqs.EmptyLeft(x.tail);
    } else {
      Seqs.EmptyLeft(x.pieces[0].gap);
      Seqs.Uncons(x.pieces);
    }
  }

  lemma JoinCons(p: Piece, x: Scanned)
    ensures Join(x.(pieces := [p] + x.pieces)) == p.gap + (p.directive + Join(x))
  {
    Seqs.Parts([p], x.pieces);
  }

  /** All directives are of a kind. */
  predicate AllOf(x: Scanned, ok: string -> bool) {
    forall i | 0 <= i < |x.pieces| :: ok(x.pieces[i].directive)
  }

  lemma AllOfCons(p: Piece, x: Scanned, ok: string -> bool)
    ensures AllOf(Scanned([p] + x.pieces, x.tail), ok) <==> ok(p.directive) && AllOf(x, ok)
  {
    var all := [p] + x.pieces;
    assert all[0] == p;
    assert forall i | 0 <= i < |x.pieces| :: x.pieces[i] == all[i + 1];
  }

  lemma AllOfPrepend(v: string, x: Scanned, ok: string -> bool)
    ensures AllOf(Prepend(v, x), ok) <==> AllOf(x, ok)
  {
    if x.pieces != [] {
      var p, rest := x.pieces[0], Scanned(x.pieces[1..], x.tail);
      Seqs.Uncons(x.pieces);
      AllOfCons(p, rest, ok);
      AllOfCons(Piece(v + p.gap, p.directive), rest, ok);
    }
  }

  /** A directive from its keyword on. */
  function KeyOf(d: string): string { Space(Hash(d)) }

  /** The `#` in front of the keyword, with the spaces behind it. */
  function HeadOf(d: string): string { d[..|d| - |KeyOf(d)|] }

  function AddressOf(d: string): string
  {
    if |KeyOf(d)| > 10 then Space(KeyOf(d)[10..]) else []
  }

  /** Not commented out. */
  predicate StartsActive(d: string) { d != [] && d[0] == 'n' }

  /** What stands on a further line in place of the address is not a directive of its own. */
  predicate Settled(d: string) { '\n' in KeyOf(d) ==> AddressOf(d) != KEYWORD }

  /** There is an address, and it is not the next directive. */
  predicate Addressed(d: string) { AddressOf(d) != [] && Settled(d) }

  /** Not a bare `#` on a line above the keyword. */
  predicate OnItsLine(d: string) { '\n' !in HeadOf(d) }

  /** Commenting it out leaves nothing of it active. */
  predicate Quiet(d: string) { Addressed(d) && OnItsLine(d) }

  // ------------------------------------------------------------- what lies ahead

  /** Behind spaces, the pattern's group. */
  predicate Ahead(p: Pattern, s: string) {
    BehindGroup(p, Space(s)).Some?
  }

  predicate AllSpace(s: string) { forall i | 0 <= i < |s| :: IsSpace(s[i]) }

  lemma {:induction false} SpaceOver(s: string, y: string)
    requires AllSpace(s) && (y == [] || !IsSpace(y[0]))
    ensures Space(s + y) == y
  {
    if s == [] {
      Seqs.EmptyLeft(y);
    } else {
      Seqs.TailOfConcat(s, y);
      SpaceOver(s[1..], y);
    }
  }

  lemma {:induction false} WordOver(s: string, y: string)
    requires (forall i | 0 <= i < |s| :: !IsSpace(s[i])) && (y == [] || IsSpace(y[0]))
    ensures Word(s + y) == y
  {
    if s == [] {
      Seqs.EmptyLeft(y);
    } else {
      Seqs.TailOfConcat(s, y);
      WordOver(s[1..], y);
    }
  }

  lemma {:induction false} SpaceIsSpace(s: string)
    ensures AllSpace(s[..|s| - |Space(s)|])
  {
    if s != [] && IsSpace(s[0]) {
      SpaceIsSpace(s[1..]);
      var k := |s| - |Space(s)|;
      assert s[..k] == [s[0]] + s[1..][..k - 1];
    }
  }

  lemma KeywordIsOneWord(i: nat)
    requires i < 10
    ensures !IsSpace(KEYWORD[i])
  {
  }

  /** No directive spreads over a space that is not its own. */
  lemma DirectiveWithin(h: string, y: string, z: string)
    requires h != [] && IsSpace(h[|h| - 1]) && !IsSpace(h[0]) && DirectiveAhead(h + y)
    ensures |h| > 10 && DirectiveAhead(h + z)
  {
    hide IsSpace;
    var last := |h| - 1;
    assert (h + y)[last] == h[last];
    if last < 10 { KeywordIsOneWord(last); }
    assert forall i | 0 <= i < 10 :: (h + z)[i] == h[i] == (h + y)[i];
  }

  lemma NotAllSpace(h: string)
    requires h != [] && IsSpace(h[0]) && !AllSpace(h)
    ensures !AllSpace(h[1..])
  {
    hide IsSpace;
    var i :| 0 <= i < |h| && !IsSpace(h[i]);
    assert h[1..][i - 1] == h[i];
  }

  /** The first character that is not a space does not depend on what follows. */
  lemma {:induction false} SpaceSplit(h: string, y: string)
    requires !AllSpace(h)
    ensures Space(h) != [] && Space(h + y) == Space(h) + y
  {
    hide IsSpace;
    if IsSpace(h[0]) {
      Seqs.TailOfConcat(h, y);
      NotAllSpace(h);
      SpaceSplit(h[1..], y);
    }
  }

  /** A directive ahead lies within text that ends in a space, unless that is all spaces. */
  lemma SpaceThenDirective(h: string, y: string, z: string)
    requires h != [] && IsSpace(h[|h| - 1]) && !AllSpace(h) && DirectiveAhead(Space(h + y))
    ensures DirectiveAhead(Space(h + z))
  {
    hide IsSpace, DirectiveAhead;
    SpaceSplit(h, y);
    SpaceSplit(h, z);
    DirectiveWithin(Space(h), y, z);
  }

  lemma DirectiveIsExisting(s: string)
    requires DirectiveAhead(s)
    ensures Space(s) == s && BehindGroup(Existing, s) == Some(BehindDirective(s))
  {
    hide Word;
    assert s[0] == KEYWORD[0];
  }

  lemma DirectiveStart(s: string)
    requires DirectiveAhead(s)
    ensures s != [] && !IsSpace(s[0])
  {
    assert s[0] == KEYWORD[0];
  }

  lemma HashSplit(s: string, y: string)
    requires s != [] && IsSpace(s[|s| - 1])
    ensures Hash(s + y) == Hash(s) + y
    ensures Hash(s) != [] && IsSpace(Hash(s)[|Hash(s)| - 1])
  {
    if s[0] == '#' { Seqs.TailOfConcat(s, y); }
  }

  lemma AheadIs(s: string)
    ensures Ahead(Existing, s) <==> DirectiveAhead(Space(Hash(Space(s))))
  {
  }

  /** What precedes a `#` decides whether a directive is ahead. */
  lemma ExistingLocal(h: string, y: string, z: string)
    requires h != [] && IsSpace(h[|h| - 1]) && !AllSpace(h)
    requires y != [] && y[0] == '#' && Ahead(Existing, h + y)
    ensures Ahead(Existing, h + z)
  {
    hide IsSpace, DirectiveAhead, Ahead, Space, Hash;
    SpaceSplit(h, y);
    SpaceSplit(h, z);
    HashSplit(Space(h), y);
    HashSplit(Space(h), z);
    AheadIs(h + y);
    AheadIs(h + z);
    var k := Hash(Space(h));
    if AllSpace(k) {
      HashIsNoSpace();
      SpaceOver(k, y);
      HashIsNoDirective(Active, y);
    } else {
      SpaceThenDirective(k, y, z);
    }
  }

  lemma HashIsNoSpace()
    ensures !IsSpace('#')
  {
  }

  lemma HashIsNoDirective(p: Pattern, y: string)
    requires y != [] && y[0] == '#'
    ensures !DirectiveAhead(y)
    ensures p != Existing ==> BehindGroup(p, y).None?
  {
    assert KEYWORD[0] == 'n';
  }

  lemma AheadLocal(p: Pattern, h: string, y: string, z: string)
    requires h != [] && IsSpace(h[|h| - 1]) && !AllSpace(h)
    requires y != [] && y[0] == '#' && Ahead(p, h + y)
    ensures Ahead(Existing, h + z)
  {
    if p == Existing {
      ExistingLocal(h, y, z);
    } else {
      SpaceThenDirective(h, y, z);
      DirectiveIsExisting(Space(h + z));
    }
  }

  // ------------------------------------------------------ the shape of what is found

  /** The text behind the first directive. */
  function Behind(x: Scanned): string
    requires x.pieces != []
  {
    Join(Scanned(x.pieces[1..], x.tail))
  }

  lemma LeadIsSpace(s: string, first: bool)
    requires BehindLead(s, first).Some?
    ensures AllSpace(s[..|s| - |BehindLead(s, first).value|])
  {
    hide IsSpace;
    if first {
      SpaceIsSpace(s);
    } else {
      SpaceIsSpace(s[1..]);
      var k := |s| - |Space(s[1..])|;
      assert s[..k] == [s[0]] + s[1..][..k - 1];
      NewlineIsSpace();
    }
  }

  lemma NewlineIsSpace()
    ensures IsSpace('\n')
  {
  }

  /** A directive comes first in the text, or behind a space. */
  lemma {:induction false} FirstGap(p: Pattern, s: string, first: bool)
    requires Scan(p, s, first).pieces != []
    ensures var gap := Scan(p, s, first).pieces[0].gap;
      (gap != [] || first) && (gap != [] ==> IsSpace(gap[|gap| - 1]))
    decreases |s|
  {
    hide IsSpace, BehindLead, BehindGroup;
    if MatchesAt(p, s, first) {
      LeadIsSpace(s, first);
    } else {
      FirstGap(p, s[1..], false);
    }
  }

  lemma {:induction false} FirstGroup(s: string, first: bool)
    requires Scan(Existing, s, first).pieces != []
    ensures var x := Scan(Existing, s, first);
      var z := x.pieces[0].directive + Behind(x);
      BehindGroup(Existing, z).Some? && z != [] && !IsSpace(z[0])
    decreases |s|
  {
    hide IsSpace, DirectiveAhead, BehindGroup;
    var x := Scan(Existing, s, first);
    if MatchesAt(Existing, s, first) {
      var group := BehindLead(s, first).value;
      var rest := BehindGroup(Existing, group).value;
      var more := Scan(Existing, rest, false);
      JoinScan(Existing, rest, false);
      Seqs.Parts([x.pieces[0]], more.pieces);
      Seqs.Split(group, |group| - |rest|);
    } else {
      FirstGroup(s[1..], false);
    }
  }

  /** A group that starts with the keyword is a directive. */
  lemma PlainGroup(group: string)
    requires BehindGroup(Existing, group).Some? && group[0] == 'n'
    ensures DirectiveAhead(group) && BehindGroup(Existing, group) == Some(BehindDirective(group))
  {
    hide BehindDirective, DirectiveAhead;
    assert Space(group) == group;
  }

  // ------------------------------------------------- what is found once commented out

  lemma LeadOver(s: string, first: bool, y: string)
    requires BehindLead(s, first).Some? && (y == [] || !IsSpace(y[0]))
    ensures BehindLead(s[..|s| - |BehindLead(s, first).value|] + y, first) == Some(y)
  {
    hide IsSpace;
    var lead := s[..|s| - |BehindLead(s, first).value|];
    LeadIsSpace(s, first);
    if first {
      SpaceOver(lead, y);
    } else {
      Seqs.TailOfConcat(lead, y);
      SpaceOver(lead[1..], y);
    }
  }

  lemma DirectiveStays(d: string, rest: string, u: string)
    requires |d| > 10 && DirectiveAhead(d + rest)
    ensures DirectiveAhead(d + u)
  {
    hide IsSpace;
    assert forall i | 0 <= i < |d| :: (d + u)[i] == d[i] == (d + rest)[i];
  }

  lemma DirectiveIsLong(d: string, rest: string)
    requires DirectiveAhead(d + rest) && BehindDirective(d + rest) == rest
    ensures |d| > 10
  {
    hide IsSpace, Word;
    var e := (d + rest)[10..];
    assert IsSpace(e[0]) && Space(e) == Space(e[1..]);
  }

  /** The end of a directive does not depend on the text behind it. */
  lemma DirectiveOver(d: string, rest: string, u: string)
    requires DirectiveAhead(d + rest) && BehindDirective(d + rest) == rest
    requires rest == [] ==> u == []
    requires u == [] || IsSpace(u[0])
    ensures |d| > 10 && DirectiveAhead(d + u) && BehindDirective(d + u) == u
  {
    hide IsSpace, DirectiveAhead, Word, Space;
    DirectiveIsLong(d, rest);
    DirectiveStays(d, rest, u);
    if rest != [] {
      Seqs.DropFromLeft(d, rest, 10);
      Seqs.DropFromLeft(d, u, 10);
      WordsOver(d[10..], rest, u);
    }
  }

  lemma SpaceIsSkipped(rest: string)
    requires rest != [] && IsSpace(rest[0])
    ensures Word(Space(rest)) != rest
  {
    hide IsSpace, Word;
    assert |Word(Space(rest))| <= |Space(rest[1..])| < |rest|;
  }

  lemma SpaceStep(e: string, y: string)
    requires e != []
    ensures Space(e + y) == if IsSpace(e[0]) then Space(e[1..] + y) else e + y
  {
    hide IsSpace, Suffix;
    Seqs.TailOfConcat(e, y);
  }

  lemma {:induction false} WordsOver(e: string, rest: string, u: string)
    requires Word(Space(e + rest)) == rest && rest != []
    requires u == [] || IsSpace(u[0])
    ensures Word(Space(e + u)) == u
    decreases |e|
  {
    hide IsSpace, Space, Word, Suffix;
    if e == [] {
      Seqs.EmptyLeft(rest);
      SpaceIsSkipped(rest);
    } else {
      SpaceStep(e, rest);
      SpaceStep(e, u);
      if IsSpace(e[0]) {
        WordsOver(e[1..], rest, u);
      } else {
        WordOnly(e, rest, u);
      }
    }
  }

  lemma {:induction false} WordOnly(e: string, rest: string, u: string)
    requires Word(e + rest) == rest
    requires u == [] || IsSpace(u[0])
    ensures Word(e + u) == u
    decreases |e|
  {
    hide IsSpace;
    if e == [] {
      Seqs.EmptyLeft(u);
    } else {
      Seqs.TailOfConcat(e, rest);
      Seqs.TailOfConcat(e, u);
      WordOnly(e[1..], rest, u);
    }
  }

  // ------------------------------------------------------- a directive taken apart

  lemma {:induction false} SpaceSkips(e: string, y: string)
    requires AllSpace(e)
    ensures Space(e + y) == Space(y)
  {
    hide IsSpace;
    if e == [] {
      Seqs.EmptyLeft(y);
    } else {
      Seqs.TailOfConcat(e, y);
      SpaceSkips(e[1..], y);
    }
  }

  /** A directive without address ends the text. */
  lemma OnlySpaces(e: string, rest: string)
    requires AllSpace(e) && Word(Space(e + rest)) == rest
    ensures rest == [] && Space(e + rest) == []
  {
    hide IsSpace, Space, Word;
    SpaceSkips(e, rest);
    if rest != [] { SpaceIsSkipped(rest); }
    Seqs.EmptyRight(e);
    SpaceOfSpace(e);
  }

  predicate NoSpace(s: string) { forall i | 0 <= i < |s| :: !IsSpace(s[i]) }

  lemma {:induction false} WordIsPure(word: string, rest: string)
    requires Word(word + rest) == rest
    ensures NoSpace(word)
  {
    hide IsSpace;
    if word != [] {
      Seqs.TailOfConcat(word, rest);
      WordIsPure(word[1..], rest);
      assert forall i | 1 <= i < |word| :: word[i] == word[1..][i - 1];
    }
  }

  lemma KeywordAhead(k: string)
    requires |k| > 10 && DirectiveAhead(k)
    ensures k == KEYWORD + k[10..] && IsSpace(k[10])
  {
    hide IsSpace;
    assert k[..10] == KEYWORD;
  }

  /** Keyword, spaces, address. */
  lemma KeyParts(k: string, rest: string) returns (sp: string, word: string)
    requires DirectiveAhead(k + rest) && BehindDirective(k + rest) == rest
    ensures |k| > 10 && word == Space(k[10..]) && k[10..] == sp + word && k == KEYWORD + (sp + word)
    ensures sp != [] && AllSpace(sp) && NoSpace(word) && (word == [] ==> rest == [])
  {
    hide IsSpace, DirectiveAhead, Word, Space;
    DirectiveIsLong(k, rest);
    Seqs.EmptyRight(k);
    DirectiveStays(k, rest, []);
    KeywordAhead(k);
    Seqs.DropFromLeft(k, rest, 10);
    var e := k[10..];
    word := Space(e);
    sp := e[..|e| - |word|];
    Seqs.Split(e, |e| - |word|);
    SpaceIsSpace(e);
    if AllSpace(e) {
      SpaceOfSpace(e);
      OnlySpaces(e, rest);
    } else {
      SpaceSplit(e, rest);
      WordIsPure(word, rest);
    }
    SpaceStarts(e);
  }

  lemma SpaceStarts(e: string)
    requires e != [] && IsSpace(e[0])
    ensures |Space(e)| < |e|
  {
    hide IsSpace;
    assert Space(e) == Space(e[1..]);
  }

  /** Such parts are a directive, whatever follows them. */
  lemma PartsAreKey(sp: string, word: string, w: string)
    requires sp != [] && AllSpace(sp) && NoSpace(word) && (word == [] ==> w == []) && (w == [] || IsSpace(w[0]))
    ensures var k := KEYWORD + (sp + word);
      DirectiveAhead(k + w) && BehindDirective(k + w) == w
  {
    hide IsSpace, Word, Space;
    var k := KEYWORD + (sp + word);
    assert (k + w)[..10] == KEYWORD && (k + w)[10] == sp[0];
    Seqs.Parts(KEYWORD, sp + word);
    Seqs.DropFromLeft(k, w, 10);
    Seqs.Assoc(sp, word, w);
    SpaceOver(sp, word + w);
    WordOver(word, w);
  }

  /** What stands in front of the keyword: nothing, or a `#` and spaces. */
  predicate IsHead(h: string) { h == [] || (h[0] == '#' && AllSpace(h[1..])) }

  /** A directive that is found is a head and a directive that starts with the keyword. */
  lemma PieceParts(d: string, rest: string)
    requires BehindGroup(Existing, d + rest) == Some(rest) && d != [] && !IsSpace(d[0])
    ensures d == HeadOf(d) + KeyOf(d) && IsHead(HeadOf(d)) && (HeadOf(d) == [] <==> d[0] == 'n')
    ensures DirectiveAhead(KeyOf(d) + rest) && BehindDirective(KeyOf(d) + rest) == rest
  {
    hide IsSpace, DirectiveAhead, Space, BehindDirective;
    HashGrows(d, rest);
    var h := Hash(d);
    if AllSpace(h) {
      SpaceSkips(h, rest);
    }
    SpaceSplit(h, rest);
    SpaceIsSpace(h);
    HeadIs(d);
    DirectiveStartsN(KeyOf(d) + rest);
  }

  lemma HeadIs(d: string)
    requires d != [] && !IsSpace(d[0]) && KeyOf(d) != [] && AllSpace(Hash(d)[..|Hash(d)| - |KeyOf(d)|])
    ensures d == HeadOf(d) + KeyOf(d) && IsHead(HeadOf(d)) && (d[0] != '#' ==> KeyOf(d) == d)
    ensures d[0] == '#' ==> HeadOf(d) != []
  {
    hide IsSpace;
    var k := KeyOf(d);
    assert Suffix(k, d) by { SuffixOfSuffix(k, Hash(d), d); }
    Seqs.Split(d, |d| - |k|);
    if d[0] == '#' {
      assert HeadOf(d)[1..] == Hash(d)[..|Hash(d)| - |k|];
    }
  }

  lemma DirectiveStartsN(s: string)
    requires DirectiveAhead(s)
    ensures s[0] == 'n'
  {
    assert s[0] == KEYWORD[0];
  }

  lemma ScanMatch(p: Pattern, lead: string, g: string, rest: string, first: bool)
    requires BehindLead(lead + (g + rest), first) == Some(g + rest)
    requires BehindGroup(p, g + rest) == Some(rest)
    ensures Scan(p, lead + (g + rest), first)
         == Scanned([Piece(lead, g)] + Scan(p, rest, false).pieces, Scan(p, rest, false).tail)
  {
    hide BehindLead, BehindGroup;
    Seqs.Parts(lead, g + rest);
    Seqs.Parts(g, rest);
  }

  lemma HashDrops(y: string)
    ensures Hash("#" + y) == y
  {
    Seqs.Parts("#", y);
  }

  lemma BehindCommented(y: string)
    requires DirectiveAhead(y)
    ensures BehindGroup(Existing, "#" + y) == Some(BehindDirective(y))
  {
    hide BehindDirective, DirectiveAhead, Hash, Space, Suffix;
    DirectiveIsExisting(y);
    HashDrops(y);
  }

  /** A commented directive is found where the directive was. */
  lemma CommentedMatch(lead: string, d: string, rest: string, first: bool, u: string)
    requires BehindLead(lead + (d + rest), first) == Some(d + rest)
    requires BehindGroup(Existing, d + rest) == Some(rest) && d != [] && d[0] == 'n'
    requires rest == [] ==> u == []
    requires u == [] || IsSpace(u[0])
    ensures Scan(Existing, lead + (("#" + d) + u), first)
         == Scanned([Piece(lead, "#" + d)] + Scan(Existing, u, false).pieces, Scan(Existing, u, false).tail)
  {
    hide IsSpace, BehindDirective, DirectiveAhead, BehindLead, BehindGroup, Scan;
    PlainGroup(d + rest);
    DirectiveOver(d, rest, u);
    Seqs.Parts(lead, d + rest);
    HashIsNoSpace();
    LeadOver(lead + (d + rest), first, ("#" + d) + u);
    Seqs.Assoc("#", d, u);
    BehindCommented(d + u);
    ScanMatch(Existing, lead, "#" + d, u, first);
  }

  lemma MatchIsAhead(p: Pattern, s: string, first: bool)
    ensures MatchesAt(p, s, first) <==>
      if first then Ahead(p, s) else s != [] && s[0] == '\n' && Ahead(p, s[1..])
  {
    hide BehindGroup, Space;
  }

  /** No pattern finds a directive in front of a commented one where none was found before. */
  lemma NothingAhead(p: Pattern, h: string, r: string, z: string)
    requires h != [] && IsSpace(h[|h| - 1])
    requires BehindGroup(Existing, z).Some? && z != [] && !IsSpace(z[0]) && !Ahead(Existing, h + z)
    ensures !Ahead(p, h + ("#" + r))
  {
    hide IsSpace, DirectiveAhead, BehindGroup;
    if AllSpace(h) {
      SpaceOver(h, z);
    } else if Ahead(p, h + ("#" + r)) {
      AheadLocal(p, h, "#" + r, z);
    }
  }

  lemma AheadOfDirective(s: string)
    requires DirectiveAhead(Space(s))
    ensures Ahead(Existing, s)
  {
    hide DirectiveAhead, Space, BehindDirective;
    DirectiveIsExisting(Space(s));
  }

  lemma StillNoMatch(p: Pattern, s: string, first: bool, r: string)
    requires s != [] && !MatchesAt(Existing, s, first)
    requires Scan(Existing, s[1..], false).pieces != []
    ensures !MatchesAt(p, [s[0]] + (Scan(Existing, s[1..], false).pieces[0].gap + ("#" + r)), first)
  {
    hide IsSpace, DirectiveAhead, Ahead, MatchesAt, Scan, BehindGroup;
    var y := Scan(Existing, s[1..], false);
    var g, c := y.pieces[0].gap, [s[0]];
    var z := y.pieces[0].directive + Behind(y);
    JoinScan(Existing, s[1..], false);
    FirstGroup(s[1..], false);
    FirstGap(Existing, s[1..], false);
    assert s[1..] == g + z;
    Seqs.Uncons(s);
    Seqs.Assoc(c, g, z);
    Seqs.Assoc(c, g, "#" + r);
    Seqs.Parts(c, g + ("#" + r));
    MatchIsAhead(Existing, s, first);
    MatchIsAhead(p, c + (g + ("#" + r)), first);
    if first {
      NothingAhead(p, c + g, r, z);
    } else if s[0] == '\n' {
      NothingAhead(p, g, r, z);
    }
  }

  /** Commenting out leaves the first character of the text behind a match. */
  lemma CommentedFirst(s: string)
    ensures var u := Join(Commented(Scan(Existing, s, false)));
      if s == [] then u == [] else u != [] && u[0] == s[0]
  {
    hide IsSpace, Scan;
    var x := Scan(Existing, s, false);
    JoinScan(Existing, s, false);
    if x.pieces != [] {
      FirstGap(Existing, s, false);
      var rest := x.(pieces := x.pieces[1..]);
      Seqs.Uncons(x.pieces);
      CommentedCons(x.pieces[0], rest);
      JoinCons(CommentPiece(x.pieces[0]), Commented(rest));
    } else {
      ScanOfNothing();
    }
  }

  lemma ScanOfNothing()
    ensures Scan(Existing, [], false) == Scanned([], [])
  {
  }

  lemma JoinCommentedCons(p: Piece, x: Scanned)
    ensures Join(Commented(x.(pieces := [p] + x.pieces))) == p.gap + (("#" + p.directive) + Join(Commented(x)))
  {
    CommentedCons(p, x);
    JoinCons(CommentPiece(p), Commented(x));
  }

  /** A match taken apart. */
  lemma MatchParts(p: Pattern, s: string, first: bool)
      returns (lead: string, d: string, rest: string)
    requires MatchesAt(p, s, first)
    ensures s == lead + (d + rest) && BehindLead(s, first) == Some(d + rest)
    ensures BehindGroup(p, d + rest) == Some(rest) && d != [] && AllSpace(lead)
    ensures var more := Scan(p, rest, false);
      Scan(p, s, first) == Scanned([Piece(lead, d)] + more.pieces, more.tail)
  {
    hide IsSpace, BehindLead, BehindGroup;
    var group := BehindLead(s, first).value;
    rest := BehindGroup(p, group).value;
    lead, d := s[..|s| - |group|], group[..|group| - |rest|];
    Seqs.Split(group, |group| - |rest|);
    Seqs.Split(s, |s| - |group|);
    LeadIsSpace(s, first);
  }

  /** Once commented out, the same directives are found in the same places. */
  lemma {:induction false} Rescan(s: string, first: bool)
    requires AllOf(Scan(Existing, s, first), StartsActive)
    ensures var x := Commented(Scan(Existing, s, first)); Scan(Existing, Join(x), first) == x
    decreases |s|
  {
    hide IsSpace, BehindLead, BehindGroup, MatchesAt, Join, Commented;
    var x := Scan(Existing, s, first);
    if MatchesAt(Existing, s, first) {
      var lead, d, rest := MatchParts(Existing, s, first);
      var more := Scan(Existing, rest, false);
      AllOfCons(Piece(lead, d), more, StartsActive);
      Rescan(rest, false);
      CommentedFirst(rest);
      RestIsSpace(d + rest, rest);
      CommentedMatch(lead, d, rest, first, Join(Commented(more)));
      JoinCommentedCons(Piece(lead, d), more);
      CommentedCons(Piece(lead, d), more);
    } else if s == [] {
      ScanOfNothingStays(first);
    } else {
      var y := Scan(Existing, s[1..], false);
      AllOfPrepend([s[0]], y, StartsActive);
      Rescan(s[1..], false);
      CommentedPrepend([s[0]], y);
      JoinPrepend([s[0]], Commented(y));
      var u := Join(Commented(y));
      NoMatchCommented(Existing, s, first, []);
      Seqs.EmptyRight(u);
      Seqs.Parts([s[0]], u);
    }
  }

  lemma ScanOfNothingStays(first: bool)
    ensures Scan(Existing, [], first) == Scanned([], [])
    ensures Join(Commented(Scanned([], []))) == [] && Commented(Scanned([], [])) == Scanned([], [])
  {
  }

  lemma RestIsSpace(group: string, rest: string)
    requires BehindGroup(Existing, group) == Some(rest)
    ensures rest == [] || IsSpace(rest[0])
  {
    hide IsSpace;
  }

  /** Where no directive was found, none is found once those behind are commented out. */
  lemma NoMatchCommented(p: Pattern, s: string, first: bool, m: string)
    requires s != [] && !MatchesAt(Existing, s, first)
    requires Scan(Existing, s[1..], false).pieces != [] || (p == Existing && m == [])
    ensures !MatchesAt(p, [s[0]] + (Join(Commented(Scan(Existing, s[1..], false))) + m), first)
  {
    hide IsSpace, MatchesAt, Scan, Join, Commented;
    var y := Scan(Existing, s[1..], false);
    if y.pieces == [] {
      JoinScan(Existing, s[1..], false);
      NoPieces(y);
      Seqs.EmptyRight(s[1..]);
      Seqs.Uncons(s);
    } else {
      var rest := y.(pieces := y.pieces[1..]);
      Seqs.Uncons(y.pieces);
      JoinCommentedCons(y.pieces[0], rest);
      var g, d, w := y.pieces[0].gap, y.pieces[0].directive, Join(Commented(rest));
      Seqs.Assoc(g, ("#" + d) + w, m);
      Seqs.Assoc("#" + d, w, m);
      Seqs.Assoc("#", d, w + m);
      StillNoMatch(p, s, first, d + (w + m));
    }
  }

  lemma NoPieces(x: Scanned)
    requires x.pieces == []
    ensures Commented(x) == x && Join(x) == x.tail
  {
  }

  // ------------------------------------------------------------ skipping what is not found

  lemma {:induction false} SkipLine(p: Pattern, e: string, w: string)
    requires '\n' !in e
    ensures Scan(p, e + w, false) == Prepend(e, Scan(p, w, false))
    decreases |e|
  {
    hide BehindGroup, Prepend;
    if e == [] {
      Seqs.EmptyLeft(w);
      PrependNothing(Scan(p, w, false));
    } else {
      Seqs.TailOfConcat(e, w);
      SkipLine(p, e[1..], w);
      PrependTwice([e[0]], e[1..], Scan(p, w, false));
      Seqs.Uncons(e);
    }
  }

  lemma NoGroupNoMatch(p: Pattern, lead: string, y: string, first: bool)
    requires AllSpace(lead) && (y == [] || !IsSpace(y[0])) && BehindGroup(p, y).None?
    ensures !MatchesAt(p, lead + y, first)
  {
    hide IsSpace, BehindGroup, MatchesAt;
    MatchIsAhead(p, lead + y, first);
    SpaceOver(lead, y);
    if lead == [] {
      NewlineIsSpace();
      Seqs.EmptyLeft(y);
    } else {
      Seqs.TailOfConcat(lead, y);
      SpaceOver(lead[1..], y);
    }
  }

  lemma {:induction false} SkipLead(p: Pattern, lead: string, y: string, first: bool)
    requires AllSpace(lead) && (y == [] || !IsSpace(y[0])) && BehindGroup(p, y).None?
    ensures Scan(p, lead + y, first) == Prepend(lead, Scan(p, y, false))
    decreases |lead|
  {
    hide IsSpace, BehindGroup, MatchesAt, Prepend, BehindLead;
    NoGroupNoMatch(p, lead, y, first);
    if lead == [] {
      NoGroupNoMatch(p, lead, y, false);
      Seqs.EmptyLeft(y);
      PrependNothing(Scan(p, y, false));
    } else {
      Seqs.TailOfConcat(lead, y);
      SkipLead(p, lead[1..], y, false);
      PrependTwice([lead[0]], lead[1..], Scan(p, y, false));
      Seqs.Uncons(lead);
    }
  }

  /** A line on which the pattern finds nothing. */
  lemma SkipPiece(p: Pattern, lead: string, e: string, w: string, first: bool)
    requires AllSpace(lead) && e != [] && !IsSpace(e[0]) && '\n' !in e && BehindGroup(p, e + w).None?
    ensures Scan(p, lead + (e + w), first) == Prepend(lead + e, Scan(p, w, false))
  {
    hide IsSpace, BehindGroup, Prepend, Scan;
    SkipLead(p, lead, e + w, first);
    SkipLine(p, e, w);
    PrependTwice(lead, e, Scan(p, w, false));
  }

  /** A word on its own is a directive only if it is the keyword. */
  lemma WordIsNoDirective(word: string, w: string)
    requires NoSpace(word) && (w == [] || IsSpace(w[0])) && word != KEYWORD
    ensures !DirectiveAhead(word + w)
  {
    hide IsSpace;
    if |word| < 10 {
      KeywordIsOneWord(|word|);
      if w != [] { assert (word + w)[|word|] == w[0]; }
    } else {
      assert (word + w)[..10] == word[..10];
      if |word| > 10 { assert (word + w)[10] == word[10]; }
    }
  }

  lemma NoSpaceNoNewline(s: string)
    requires NoSpace(s)
    ensures '\n' !in s
  {
    NewlineIsSpace();
  }

  lemma KeywordHasNoNewline()
    ensures '\n' !in KEYWORD
  {
  }

  /** A directive passed over from its keyword on, by a pattern that needs the keyword. */
  lemma SkipKey(p: Pattern, sp: string, word: string, w: string)
    requires p != Existing && AllSpace(sp) && NoSpace(word)
    requires (word == [] ==> w == []) && (w == [] || IsSpace(w[0]))
    requires '\n' in KEYWORD + (sp + word) ==> word != KEYWORD
    ensures Scan(p, (KEYWORD + (sp + word)) + w, false) == Prepend(KEYWORD + (sp + word), Scan(p, w, false))
  {
    hide IsSpace, Scan, Prepend, BehindGroup, DirectiveAhead;
    var k := KEYWORD + (sp + word);
    if '\n' !in k {
      SkipLine(p, k, w);
    } else {
      WordIsNoDirective(word, w);
      NoDirectiveNoGroup(p, word + w);
      NoSpaceNoNewline(word);
      KeywordHasNoNewline();
      Seqs.Assoc(KEYWORD, sp + word, w);
      Seqs.Assoc(sp, word, w);
      SkipLine(p, KEYWORD, sp + (word + w));
      SkipLead(p, sp, word + w, false);
      SkipLine(p, word, w);
      PrependTwice(sp, word, Scan(p, w, false));
      PrependTwice(KEYWORD, sp + word, Scan(p, w, false));
    }
  }

  lemma NoDirectiveNoGroup(p: Pattern, s: string)
    requires p != Existing && !DirectiveAhead(s)
    ensures BehindGroup(p, s).None?
  {
  }

  /** A commented line, however the directive behind the `#` goes on. */
  lemma SkipHash(p: Pattern, lead: string, e: string, k: string, rest: string, w: string, first: bool)
    requires p != Existing && AllSpace(lead) && e != [] && e[0] == '#' && '\n' !in e
    requires DirectiveAhead(k + rest) && BehindDirective(k + rest) == rest
    requires Space(k[10..]) == [] ==> w == []
    requires w == [] || IsSpace(w[0])
    requires '\n' in k ==> Space(k[10..]) != KEYWORD
    ensures Scan(p, lead + ((e + k) + w), first) == Prepend(lead + (e + k), Scan(p, w, false))
  {
    hide IsSpace, Scan, Prepend, BehindGroup, DirectiveAhead, BehindDirective, Space;
    var sp, word := KeyParts(k, rest);
    Seqs.Assoc(e, k, w);
    HashIsNoSpace();
    HashIsNoDirective(p, e + (k + w));
    SkipPiece(p, lead, e, k + w, first);
    SkipKey(p, sp, word, w);
    PrependTwice(lead + e, k, Scan(p, w, false));
    Seqs.Assoc(lead, e, k);
  }

  /** A directive that has been commented out. */
  lemma SkipCommented(p: Pattern, lead: string, d: string, rest: string, w: string, first: bool)
    requires p != Existing && AllSpace(lead)
    requires BehindGroup(Existing, d + rest) == Some(rest) && d != [] && !IsSpace(d[0])
    requires Quiet(d) && (w == [] || IsSpace(w[0]))
    ensures Scan(p, lead + (("#" + d) + w), first) == Prepend(lead + ("#" + d), Scan(p, w, false))
  {
    hide IsSpace, Scan, Prepend, BehindGroup, DirectiveAhead, BehindDirective, Space, KeyOf, HeadOf;
    PieceParts(d, rest);
    DirectiveIsLong(KeyOf(d), rest);
    Seqs.Assoc("#", HeadOf(d), KeyOf(d));
    SkipHash(p, lead, "#" + HeadOf(d), KeyOf(d), rest, w, first);
  }

  /** Where every directive is active, the pattern for active ones finds the same. */
  lemma {:induction false} ActiveIsExisting(s: string, first: bool)
    requires AllOf(Scan(Existing, s, first), StartsActive)
    ensures Scan(Active, s, first) == Scan(Existing, s, first)
    decreases |s|
  {
    hide IsSpace, BehindLead, MatchesAt, BehindDirective, DirectiveAhead;
    if MatchesAt(Existing, s, first) {
      var lead, d, rest := MatchParts(Existing, s, first);
      AllOfCons(Piece(lead, d), Scan(Existing, rest, false), StartsActive);
      PlainGroup(d + rest);
      ActiveIsExisting(rest, false);
      ScanMatch(Active, lead, d, rest, first);
    } else if s == [] {
      ActiveNeedsExisting(Active, s, first);
    } else {
      ActiveNeedsExisting(Active, s, first);
      AllOfPrepend([s[0]], Scan(Existing, s[1..], false), StartsActive);
      ActiveIsExisting(s[1..], false);
    }
  }

  lemma ActiveNeedsExisting(p: Pattern, s: string, first: bool)
    requires !MatchesAt(Existing, s, first)
    ensures !MatchesAt(p, s, first)
  {
    hide IsSpace, DirectiveAhead, MatchesAt, Ahead;
    MatchIsAhead(p, s, first);
    MatchIsAhead(Existing, s, first);
    if MatchesAt(p, s, first) {
      var z := if first then s else s[1..];
      AheadIsDirective(p, z);
    }
  }

  lemma AheadIsDirective(p: Pattern, z: string)
    requires Ahead(p, z)
    ensures Ahead(Existing, z)
  {
    hide IsSpace, BehindDirective, DirectiveAhead, Space;
    if p != Existing { AheadOfDirective(z); }
  }

  // -------------------------------------------------------- the line that is appended

  /** What is found when only the appended text holds a directive. */
  function Found(p: Pattern, text: string, m: string): Scanned
    requires BehindGroup(p, m).Some?
  {
    var rest := BehindGroup(p, m).value;
    var more := Scan(p, rest, false);
    Scanned([Piece(text, m[..|m| - |rest|])] + more.pieces, more.tail)
  }

  lemma PrependFound(p: Pattern, v: string, text: string, m: string)
    requires BehindGroup(p, m).Some?
    ensures Prepend(v, Found(p, text, m)) == Found(p, v + text, m)
  {
    hide BehindGroup, Scan;
    var rest := BehindGroup(p, m).value;
    Seqs.Parts([Piece(text, m[..|m| - |rest|])], Scan(p, rest, false).pieces);
  }

  lemma FoundHere(p: Pattern, text: string, m: string, first: bool)
    requires DirectiveAhead(m) && BehindGroup(p, m).Some?
    requires AllSpace(text) && (first || (text != [] && text[0] == '\n'))
    ensures Scan(p, text + m, first) == Found(p, text, m)
  {
    hide IsSpace, BehindGroup, Scan, DirectiveAhead;
    DirectiveStart(m);
    if first {
      SpaceOver(text, m);
    } else {
      Seqs.TailOfConcat(text, m);
      SpaceOver(text[1..], m);
    }
    var rest := BehindGroup(p, m).value;
    Seqs.Split(m, |m| - |rest|);
    ScanMatch(p, text, m[..|m| - |rest|], rest, first);
  }

  /** Text without directives that ends a line. */
  lemma NoneBeforeAppended(p: Pattern, s: string, first: bool, m: string)
    requires s != [] && s[|s| - 1] == '\n' && !MatchesAt(Existing, s, first)
    requires !(AllSpace(s) && (first || s[0] == '\n'))
    requires p != Existing
    ensures !MatchesAt(p, s + m, first)
  {
    hide IsSpace, MatchesAt, Ahead, DirectiveAhead;
    NewlineIsSpace();
    MatchIsAhead(p, s + m, first);
    MatchIsAhead(Existing, s, first);
    Seqs.TailOfConcat(s, m);
    if first {
      NoDirectiveWithin(p, s, m);
    } else if s[0] == '\n' {
      NotAllSpace(s);
      NoDirectiveWithin(p, s[1..], m);
    }
  }

  lemma NoDirectiveWithin(p: Pattern, z: string, m: string)
    requires !AllSpace(z) && IsSpace(z[|z| - 1]) && !Ahead(Existing, z) && p != Existing
    ensures !Ahead(p, z + m)
  {
    hide IsSpace, DirectiveAhead, Space, BehindDirective;
    if Ahead(p, z + m) {
      SpaceThenDirective(z, m, []);
      Seqs.EmptyRight(z);
      AheadOfDirective(z);
    }
  }

  /** In a text whose directives are commented out, only the appended one is found. */
  lemma {:induction false} FindsAppended(p: Pattern, s: string, first: bool, m: string)
    requires p != Existing && DirectiveAhead(m) && BehindGroup(p, m).Some?
    requires var x := Scan(Existing, s, first); AllOf(x, Quiet) && EndsLine(x.tail)
    ensures var t := Join(Commented(Scan(Existing, s, first))); Scan(p, t + m, first) == Found(p, t, m)
    decreases |s|
  {
    hide IsSpace, BehindLead, BehindGroup, MatchesAt, Join, Commented, DirectiveAhead, Found, Prepend, Quiet, EndsLine;
    var x := Scan(Existing, s, first);
    if MatchesAt(Existing, s, first) {
      var lead, d, rest := MatchParts(Existing, s, first);
      var more := Scan(Existing, rest, false);
      AllOfCons(Piece(lead, d), more, Quiet);
      FindsAppended(p, rest, false, m);
      JoinCommentedCons(Piece(lead, d), more);
      var u := Join(Commented(more));
      Seqs.Assoc(lead, ("#" + d) + u, m);
      Seqs.Assoc("#" + d, u, m);
      CommentedGoesOn(rest, d, m);
      LeadEnds(s, first);
      SkipCommented(p, lead, d, rest, u + m, first);
      PrependFound(p, lead + ("#" + d), u, m);
      Seqs.Assoc(lead, "#" + d, u);
    } else {
      if s == [] { ScanOfNothingStays(first); EmptyEndsNoLine(); }
      FindsAppendedLater(p, s, first, m);
    }
  }

  lemma LeadEnds(s: string, first: bool)
    requires BehindLead(s, first).Some? && BehindLead(s, first).value != []
    ensures !IsSpace(BehindLead(s, first).value[0])
  {
    hide IsSpace;
  }

  /** Text that ends a line goes on with a space behind a directive. */
  lemma CommentedGoesOn(rest: string, d: string, m: string)
    requires BehindGroup(Existing, d + rest) == Some(rest)
    requires EndsLine(Scan(Existing, rest, false).tail)
    ensures rest != []
    ensures var w := Join(Commented(Scan(Existing, rest, false))) + m; w != [] && IsSpace(w[0])
  {
    hide IsSpace, BehindGroup, Commented, Join;
    CommentedFirst(rest);
    RestIsSpace(d + rest, rest);
    if rest == [] { ScanOfNothing(); }
  }

  lemma ScanOn(p: Pattern, c: char, w: string, first: bool)
    requires !MatchesAt(p, [c] + w, first)
    ensures Scan(p, [c] + w, first) == Prepend([c], Scan(p, w, false))
  {
    hide MatchesAt, Prepend;
    Seqs.Parts([c], w);
  }

  lemma TailPrepend(v: string, x: Scanned)
    ensures Prepend(v, x).tail == if x.pieces == [] then v + x.tail else x.tail
  {
  }

  predicate EndsLine(s: string) { s != [] && s[|s| - 1] == '\n' }

  lemma EmptyEndsNoLine()
    ensures !EndsLine([])
  {
  }

  /** No match yet, and the text goes on. */
  lemma NotYet(p: Pattern, s: string, first: bool, m: string)
    requires s != [] && p != Existing && !MatchesAt(Existing, s, first)
    requires EndsLine(Prepend([s[0]], Scan(Existing, s[1..], false)).tail)
    requires var y := Scan(Existing, s[1..], false); !(y.pieces == [] && AllSpace(s) && (first || s[0] == '\n'))
    ensures var y := Scan(Existing, s[1..], false);
      EndsLine(y.tail) && !MatchesAt(p, [s[0]] + (Join(Commented(y)) + m), first)
  {
    hide IsSpace, MatchesAt, Join, Commented, Scan, Prepend;
    var y := Scan(Existing, s[1..], false);
    TailPrepend([s[0]], y);
    if y.pieces == [] {
      JoinScan(Existing, s[1..], false);
      NoPieces(y);
      Seqs.Uncons(s);
      Seqs.Assoc([s[0]], y.tail, m);
      NewlineIsSpace();
      NoneBeforeAppended(p, s, first, m);
    } else {
      NoMatchCommented(p, s, first, m);
    }
  }

  lemma {:induction false} FindsAppendedLater(p: Pattern, s: string, first: bool, m: string)
    requires p != Existing && DirectiveAhead(m) && BehindGroup(p, m).Some?
    requires var x := Scan(Existing, s, first); AllOf(x, Quiet) && EndsLine(x.tail)
    requires s != [] && !MatchesAt(Existing, s, first)
    ensures var t := Join(Commented(Scan(Existing, s, first))); Scan(p, t + m, first) == Found(p, t, m)
    decreases |s|, 0
  {
    hide IsSpace, BehindGroup, MatchesAt, Join, Commented, DirectiveAhead, Found, Prepend, Scan, EndsLine, Quiet;
    var y := Scan(Existing, s[1..], false);
    var u := Join(Commented(y));
    Seqs.Uncons(s);
    ScanOn(Existing, s[0], s[1..], first);
    AllOfPrepend([s[0]], y, Quiet);
    CommentedPrepend([s[0]], y);
    JoinPrepend([s[0]], Commented(y));
    if y.pieces == [] && AllSpace(s) && (first || s[0] == '\n') {
      JoinScan(Existing, s[1..], false);
      NoPieces(y);
      FoundHere(p, s, m, first);
    } else {
      NotYet(p, s, first, m);
      Seqs.Assoc([s[0]], u, m);
      ScanOn(p, s[0], u + m, first);
      FindsAppended(p, s[1..], false, m);
      PrependFound(p, [s[0]], u, m);
    }
  }

  // ------------------------------------------------------- the line break that is added

  lemma SpaceOfSpace(z: string)
    requires AllSpace(z)
    ensures Space(z) == []
  {
    hide IsSpace;
    SpaceOver(z, []);
    Seqs.EmptyRight(z);
  }

  lemma HashGrows(s: string, y: string)
    requires s != []
    ensures Hash(s + y) == Hash(s) + y
  {
    if s[0] == '#' { Seqs.TailOfConcat(s, y); }
  }

  lemma DirectiveGrows(z: string, y: string)
    requires DirectiveAhead(Space(z))
    ensures DirectiveAhead(Space(z + y))
  {
    hide IsSpace, Space;
    if AllSpace(z) { SpaceOfSpace(z); }
    SpaceSplit(z, y);
    Seqs.EmptyRight(Space(z));
    DirectiveStays(Space(z), [], y);
  }

  lemma AheadGrows(z: string, y: string)
    requires Ahead(Existing, z)
    ensures Ahead(Existing, z + y)
  {
    hide IsSpace, Space, Ahead, DirectiveAhead, Hash;
    AheadIs(z);
    AheadIs(z + y);
    if AllSpace(z) { SpaceOfSpace(z); NoneInNothing(); }
    SpaceSplit(z, y);
    HashGrows(Space(z), y);
    DirectiveGrows(Hash(Space(z)), y);
  }

  lemma NoneInNothing()
    ensures !DirectiveAhead(Space(Hash([])))
  {
  }

  lemma MatchGrows(s: string, y: string, first: bool)
    requires MatchesAt(Existing, s, first)
    ensures MatchesAt(Existing, s + y, first)
  {
    hide MatchesAt, Ahead;
    MatchIsAhead(Existing, s, first);
    MatchIsAhead(Existing, s + y, first);
    if first {
      AheadGrows(s, y);
    } else {
      Seqs.TailOfConcat(s, y);
      AheadGrows(s[1..], y);
    }
  }

  /** The text goes on: what was found stays, and the rest is longer. */
  function Longer(x: Scanned): Scanned { x.(tail := x.tail + "\n") }

  lemma PrependLonger(v: string, x: Scanned)
    ensures Prepend(v, Longer(x)) == Longer(Prepend(v, x))
  {
    Seqs.Assoc(v, x.tail, "\n");
  }

  /** A match that ends before the line does is there without the line break, too. */
  lemma MatchWithoutNewline(lead: string, d: string, rest: string, first: bool)
    requires BehindLead(lead + (d + (rest + "\n")), first) == Some(d + (rest + "\n"))
    requires BehindGroup(Existing, d + (rest + "\n")) == Some(rest + "\n") && d != [] && !IsSpace(d[0])
    ensures Scan(Existing, lead + (d + rest), first)
         == Scanned([Piece(lead, d)] + Scan(Existing, rest, false).pieces, Scan(Existing, rest, false).tail)
  {
    hide IsSpace, BehindLead, BehindGroup, Scan;
    var t := rest + "\n";
    RestIsSpace(d + t, t);
    assert rest != [] ==> rest[0] == t[0];
    GroupOver(d, t, rest);
    Seqs.Parts(lead, d + t);
    LeadOver(lead + (d + t), first, d + rest);
    ScanMatch(Existing, lead, d, rest, first);
  }

  /** The end of a directive, commented out or not, does not depend on the text behind it. */
  lemma GroupOver(d: string, rest: string, u: string)
    requires BehindGroup(Existing, d + rest) == Some(rest) && d != [] && !IsSpace(d[0])
    requires rest == [] ==> u == []
    requires u == [] || IsSpace(u[0])
    ensures BehindGroup(Existing, d + u) == Some(u)
  {
    hide IsSpace, BehindGroup, DirectiveAhead, BehindDirective, KeyOf, HeadOf;
    PieceParts(d, rest);
    DirectiveOver(KeyOf(d), rest, u);
    HeadThenDirective(HeadOf(d), KeyOf(d) + u);
    Seqs.Assoc(HeadOf(d), KeyOf(d), u);
  }

  lemma HeadThenDirective(h: string, y: string)
    requires IsHead(h) && DirectiveAhead(y)
    ensures BehindGroup(Existing, h + y) == Some(BehindDirective(y))
  {
    hide IsSpace, DirectiveAhead, BehindDirective, Space, Suffix;
    DirectiveStart(y);
    DirectiveIsExisting(y);
    if h == [] {
      Seqs.EmptyLeft(y);
    } else {
      Seqs.TailOfConcat(h, y);
      SpaceOver(h[1..], y);
    }
  }

  lemma {:induction false} WithoutNewline(s: string, first: bool)
    requires AllOf(Scan(Existing, s + "\n", first), Addressed)
    ensures Scan(Existing, s + "\n", first) == Longer(Scan(Existing, s, first))
    decreases |s|
  {
    hide IsSpace, BehindLead, BehindGroup, MatchesAt, Longer, Prepend, Scan, Addressed;
    var t := s + "\n";
    if MatchesAt(Existing, t, first) {
      var lead, d, rest := MatchParts(Existing, t, first);
      AllOfCons(Piece(lead, d), Scan(Existing, rest, false), Addressed);
      LeadEnds(t, first);
      AddressEnds(d, rest);
      var r := CutNewline(s, lead, d, rest);
      WithoutNewline(r, false);
      MatchWithoutNewline(lead, d, r, first);
      LongerCons(Piece(lead, d), Scan(Existing, r, false));
    } else {
      if MatchesAt(Existing, s, first) { MatchGrows(s, "\n", first); }
      if s == [] {
        Seqs.EmptyLeft("\n");
        Seqs.EmptyRight("\n");
        ScanOn(Existing, '\n', [], first);
        JustNewline(first);
      } else {
        Seqs.TailOfConcat(s, "\n");
        Seqs.Uncons(s);
        Seqs.Assoc([s[0]], s[1..], "\n");
        ScanOn(Existing, s[0], s[1..] + "\n", first);
        ScanOn(Existing, s[0], s[1..], first);
        AllOfPrepend([s[0]], Scan(Existing, s[1..] + "\n", false), Addressed);
        WithoutNewline(s[1..], false);
        PrependLonger([s[0]], Scan(Existing, s[1..], false));
      }
    }
  }

  /** A directive with an address does not end in a line break. */
  lemma AddressEnds(d: string, rest: string)
    requires BehindGroup(Existing, d + rest) == Some(rest) && d != [] && !IsSpace(d[0]) && Addressed(d)
    ensures d[|d| - 1] != '\n'
  {
    hide IsSpace, BehindGroup, DirectiveAhead, BehindDirective, KeyOf, HeadOf, Space;
    PieceParts(d, rest);
    var sp, word := KeyParts(KeyOf(d), rest);
    assert d[|d| - 1] == word[|word| - 1];
    NewlineIsSpace();
  }

  lemma JustNewline(first: bool)
    ensures Prepend(['\n'], Scan(Existing, [], false)) == Longer(Scan(Existing, [], first))
  {
  }

  lemma LongerCons(p: Piece, x: Scanned)
    ensures Longer(Scanned([p] + x.pieces, x.tail)) == Scanned([p] + Longer(x).pieces, Longer(x).tail)
  {
  }

  lemma LastOf(lead: string, d: string, rest: string)
    requires d != []
    ensures var t := lead + (d + rest);
      t[|t| - 1] == if rest == [] then d[|d| - 1] else rest[|rest| - 1]
  {
  }

  lemma CutNewline(s: string, lead: string, d: string, rest: string) returns (r: string)
    requires s + "\n" == lead + (d + rest) && d != [] && d[|d| - 1] != '\n'
    ensures rest == r + "\n" && s == lead + (d + r) && |r| < |s|
  {
    LastOf(s, "\n", []);
    Seqs.EmptyRight("\n");
    LastOf(lead, d, rest);
    r := rest[..|rest| - 1];
    Seqs.Unsnoc(rest);
    Seqs.Assoc(d, r, "\n");
    Seqs.Assoc(lead, d + r, "\n");
    Seqs.Parts(s, "\n");
    Seqs.Parts(lead + (d + r), "\n");
  }

  // ------------------------------------------------------- what the patterns say, outright

  /** `nameserver\s+[^\s]*`, as long as it can be: keyword, spaces, address. */
  predicate IsDirective(k: string, sp: string, word: string, rest: string) {
    && k == KEYWORD + (sp + word) && sp != [] && AllSpace(sp) && NoSpace(word)
    && (rest == [] || IsSpace(rest[0])) && (word == [] ==> rest == [])
  }

  /** The active pattern takes a directive, and leaves what is behind it. */
  lemma ActiveIs(k: string, rest: string)
    ensures BehindGroup(Active, k + rest) == Some(rest) <==>
      exists sp, word :: k == KEYWORD + (sp + word) && IsDirective(k, sp, word, rest)
  {
    hide IsSpace, BehindDirective, DirectiveAhead, Space, Word;
    if BehindGroup(Active, k + rest) == Some(rest) {
      var sp, word := KeyParts(k, rest);
      DirectiveEndsInSpace(k + rest);
      assert k == KEYWORD + (sp + word) && IsDirective(k, sp, word, rest);
    }
    if sp, word :| k == KEYWORD + (sp + word) && IsDirective(k, sp, word, rest) {
      PartsAreKey(sp, word, rest);
    }
  }

  lemma DirectiveEndsInSpace(s: string)
    requires DirectiveAhead(s)
    ensures BehindDirective(s) == [] || IsSpace(BehindDirective(s)[0])
  {
  }

  /** The existing pattern takes a directive, with a `#` and spaces in front or without. */
  lemma ExistingIs(d: string, rest: string)
    requires d != [] && !IsSpace(d[0])
    ensures BehindGroup(Existing, d + rest) == Some(rest) <==>
      exists h, k :: d == h + k && IsHead(h) && BehindGroup(Active, k + rest) == Some(rest)
  {
    hide IsSpace, BehindDirective, DirectiveAhead, Space, Word, KeyOf, HeadOf;
    if BehindGroup(Existing, d + rest) == Some(rest) {
      PieceParts(d, rest);
      assert d == HeadOf(d) + KeyOf(d) && IsHead(HeadOf(d)) && BehindGroup(Active, KeyOf(d) + rest) == Some(rest);
    }
    if h, k :| d == h + k && IsHead(h) && BehindGroup(Active, k + rest) == Some(rest) {
      HeadThenDirective(h, k + rest);
      Seqs.Assoc(h, k, rest);
    }
  }

  /** `nameserver\s+127\.0\.0\.1\n?`: a line break is taken if one follows at once. */
  predicate IsMasqLine(g: string, sp: string, end: string, rest: string) {
    && g == KEYWORD + (sp + (MASQ_IP + end)) && sp != [] && AllSpace(sp)
    && (end == "\n" || (end == [] && (rest == [] || rest[0] != '\n')))
  }

  /** The pattern for MASQ's line takes just that. */
  lemma MasqLineIs(g: string, rest: string)
    ensures BehindGroup(MasqLine, g + rest) == Some(rest) <==>
      exists sp, end :: g == KEYWORD + (sp + (MASQ_IP + end)) && IsMasqLine(g, sp, end, rest)
  {
    hide IsSpace, Space, BehindGroup;
    if BehindGroup(MasqLine, g + rest) == Some(rest) {
      var sp, end := MasqLineParts(g, rest);
      assert g == KEYWORD + (sp + (MASQ_IP + end)) && IsMasqLine(g, sp, end, rest);
    }
    if sp, end :| g == KEYWORD + (sp + (MASQ_IP + end)) && IsMasqLine(g, sp, end, rest) {
      MasqLineTakes(g, sp, end, rest);
    }
  }

  lemma MasqStart()
    ensures !IsSpace(MASQ_IP[0]) && |MASQ_IP| == 9
  {
  }

  lemma KeyThenSpaces(sp: string, y: string)
    requires sp != [] && AllSpace(sp) && (y == [] || !IsSpace(y[0]))
    ensures DirectiveAhead(KEYWORD + (sp + y)) && Space((KEYWORD + (sp + y))[10..]) == y
  {
    hide IsSpace, Space;
    var s := KEYWORD + (sp + y);
    Seqs.Parts(KEYWORD, sp + y);
    assert s[10] == sp[0];
    SpaceOver(sp, y);
  }

  lemma SplitDirective(s: string) returns (sp: string)
    requires DirectiveAhead(s)
    ensures sp != [] && AllSpace(sp) && s == KEYWORD + (sp + Space(s[10..]))
  {
    hide IsSpace, Space;
    KeywordAhead(s);
    var e := s[10..];
    SpaceIsSpace(e);
    SpaceStarts(e);
    sp := e[..|e| - |Space(e)|];
    Seqs.Split(e, |e| - |Space(e)|);
  }

  /** What is left behind the address, and a line break. */
  lemma MasqRest(address: string, end: string, rest: string)
    requires address == MASQ_IP + (end + rest)
    requires end == "\n" || (end == [] && (rest == [] || rest[0] != '\n'))
    ensures MASQ_IP <= address && (|address| > 9 && address[9] == '\n' <==> end == "\n")
    ensures end == "\n" ==> address[10..] == rest
    ensures end == [] ==> address[9..] == rest
  {
    MasqStart();
    Seqs.Parts(MASQ_IP, end + rest);
    if end == "\n" {
      Seqs.DropDrop(address, 9, 1);
      Seqs.Parts("\n", rest);
    } else {
      Seqs.EmptyLeft(rest);
    }
  }

  lemma MasqLineTakes(g: string, sp: string, end: string, rest: string)
    requires IsMasqLine(g, sp, end, rest)
    ensures BehindGroup(MasqLine, g + rest) == Some(rest)
  {
    hide IsSpace, Space, DirectiveAhead, Suffix;
    var address := MASQ_IP + (end + rest);
    Seqs.Assoc(KEYWORD, sp + (MASQ_IP + end), rest);
    Seqs.Assoc(sp, MASQ_IP + end, rest);
    Seqs.Assoc(MASQ_IP, end, rest);
    MasqStart();
    KeyThenSpaces(sp, address);
    MasqRest(address, end, rest);
  }

  lemma MasqEnd(address: string) returns (end: string)
    requires MASQ_IP <= address
    ensures var rest := if |address| > 9 && address[9] == '\n' then address[10..] else address[9..];
      && address == MASQ_IP + (end + rest)
      && (end == "\n" || (end == [] && (rest == [] || rest[0] != '\n')))
  {
    MasqStart();
    Seqs.Split(address, 9);
    assert address[..9] == MASQ_IP;
    if |address| > 9 && address[9] == '\n' {
      end := "\n";
      Seqs.Uncons(address[9..]);
      Seqs.DropDrop(address, 9, 1);
    } else {
      end := [];
      Seqs.EmptyLeft(address[9..]);
    }
  }

  lemma MasqLineParts(g: string, rest: string) returns (sp: string, end: string)
    requires BehindGroup(MasqLine, g + rest) == Some(rest)
    ensures IsMasqLine(g, sp, end, rest)
  {
    hide IsSpace, Space, DirectiveAhead, Suffix;
    var s := g + rest;
    sp := SplitDirective(s);
    end := MasqEnd(Space(s[10..]));
    Seqs.Assoc(MASQ_IP, end, rest);
    Seqs.Assoc(sp, MASQ_IP + end, rest);
    Seqs.Assoc(KEYWORD, sp + (MASQ_IP + end), rest);
    SameFront(g, KEYWORD + (sp + (MASQ_IP + end)), rest);
  }

  lemma SameFront(a: string, b: string, rest: string)
    requires a + rest == b + rest
    ensures a == b
  {
    Seqs.Parts(a, rest);
    Seqs.Parts(b, rest);
    assert |a| == |b|;
  }

  // --------------------------------------------------------------- which match comes first

  lemma NothingScanned(p: Pattern, first: bool)
    ensures Scan(p, [], first) == Scanned([], [])
  {
  }

  lemma MatchIsFound(p: Pattern, s: string, first: bool)
    requires MatchesAt(p, s, first)
    ensures Scan(p, s, first).pieces != []
  {
    hide MatchesAt, BehindGroup, BehindLead;
  }

  lemma PrependPieces(v: string, x: Scanned)
    ensures Prepend(v, x).pieces == [] <==> x.pieces == []
  {
  }

  /** A line starts at `k`, and from there on the pattern matches. */
  predicate AtLine(p: Pattern, s: string, k: nat, first: bool)
    requires k <= |s|
  {
    (if k == 0 then first else s[k - 1] == '\n') && Ahead(p, s[k..])
  }

  /** A pattern finds nothing exactly when it matches at the start of no line. */
  lemma {:induction false} NothingFoundIff(p: Pattern, s: string, first: bool)
    ensures Scan(p, s, first).pieces == [] <==> forall k | 0 <= k <= |s| :: !AtLine(p, s, k, first)
    decreases |s|
  {
    hide Ahead, MatchesAt, Scan, Prepend;
    MatchIsAhead(p, s, first);
    assert s[0..] == s;
    if MatchesAt(p, s, first) {
      MatchIsFound(p, s, first);
      assert AtLine(p, s, if first then 0 else 1, first);
    } else if s == [] {
      NothingScanned(p, first);
    } else {
      var t := s[1..];
      Seqs.Uncons(s);
      ScanOn(p, s[0], t, first);
      PrependPieces([s[0]], Scan(p, t, false));
      NothingFoundIff(p, t, false);
      forall k | 0 <= k <= |t| ensures AtLine(p, s, k + 1, first) <==> AtLine(p, t, k, false) {
        Seqs.DropDrop(s, 1, k);
        if k == 0 && s[0] == '\n' && first { AheadAcross(p, s); }
      }
      assert !AtLine(p, s, 0, first);
      forall k | 0 <= k <= |s| && AtLine(p, s, k, first) ensures AtLine(p, t, k - 1, false) {
      }
    }
  }

  lemma AheadAcross(p: Pattern, s: string)
    requires s != [] && s[0] == '\n'
    ensures Ahead(p, s) <==> Ahead(p, s[1..])
  {
    hide BehindGroup;
    NewlineIsSpace();
  }

  /** From a place within spaces, spaces lead to the same place. */
  lemma SpaceFrom(lead: string, y: string, k: nat)
    requires k <= |lead| && AllSpace(lead) && (y == [] || !IsSpace(y[0]))
    ensures Space((lead + y)[k..]) == y
  {
    hide IsSpace;
    Seqs.DropFromLeft(lead, y, k);
    SpaceOver(lead[k..], y);
  }

  /** How far the group behind the line that starts at `k` is from the start. */
  function GroupFrom(s: string, k: nat): nat
    requires k <= |s|
  {
    |s| - |Space(s[k..])|
  }

  lemma GroupShift(s: string, k: nat)
    requires s != [] && k < |s|
    ensures GroupFrom(s, k + 1) == GroupFrom(s[1..], k) + 1
  {
    hide Space;
    Seqs.DropDrop(s, 1, k);
  }

  /** No line's group stands before `g`, and one stands there. */
  ghost predicate Leftmost(p: Pattern, s: string, first: bool, g: nat) {
    && (exists k :: 0 <= k <= |s| && AtLine(p, s, k, first) && GroupFrom(s, k) == g)
    && (forall k | 0 <= k <= |s| && AtLine(p, s, k, first) :: GroupFrom(s, k) >= g)
  }

  /** The first match is the leftmost: it stands behind the start of a line, and no other line's comes before it. */
  lemma {:induction false} FirstIsLeftmost(p: Pattern, s: string, first: bool)
    requires Scan(p, s, first).pieces != []
    ensures Leftmost(p, s, first, |Scan(p, s, first).pieces[0].gap|)
    decreases |s|
  {
    hide MatchesAt, Scan, Prepend, Leftmost;
    if MatchesAt(p, s, first) {
      FirstMatchIsLeftmost(p, s, first);
    } else {
      if s == [] { NothingScanned(p, first); }
      var t := s[1..];
      Seqs.Uncons(s);
      ScanOn(p, s[0], t, first);
      var y := Scan(p, t, false);
      PrependPieces([s[0]], y);
      PrependGap([s[0]], y);
      FirstIsLeftmost(p, t, false);
      LeftmostShift(p, s, first, |y.pieces[0].gap|);
    }
  }

  lemma LeftmostShift(p: Pattern, s: string, first: bool, g: nat)
    requires s != [] && !MatchesAt(p, s, first) && Leftmost(p, s[1..], false, g)
    ensures Leftmost(p, s, first, g + 1)
  {
    hide MatchesAt, AtLine, GroupFrom;
    LinesBehind(p, s, first);
    var k :| 0 <= k < |s| && AtLine(p, s[1..], k, false) && GroupFrom(s[1..], k) == g;
    GroupShift(s, k);
    assert AtLine(p, s, k + 1, first);
    forall j | 0 <= j <= |s| && AtLine(p, s, j, first) ensures GroupFrom(s, j) >= g + 1 {
      GroupShift(s, j - 1);
      assert AtLine(p, s[1..], j - 1, false);
    }
  }

  lemma PrependGap(v: string, x: Scanned)
    requires x.pieces != []
    ensures Prepend(v, x).pieces != [] && Prepend(v, x).pieces[0].gap == v + x.pieces[0].gap
  {
  }

  /** Where nothing matches at the start, the lines are those of the rest. */
  lemma LinesBehind(p: Pattern, s: string, first: bool)
    requires s != [] && !MatchesAt(p, s, first)
    ensures !AtLine(p, s, 0, first)
    ensures forall k | 0 <= k < |s| :: AtLine(p, s, k + 1, first) <==> AtLine(p, s[1..], k, false)
  {
    hide Ahead, MatchesAt;
    MatchIsAhead(p, s, first);
    assert s[0..] == s;
    forall k | 0 <= k < |s| ensures AtLine(p, s, k + 1, first) <==> AtLine(p, s[1..], k, false) {
      Seqs.DropDrop(s, 1, k);
      if k == 0 && s[0] == '\n' && first { AheadAcross(p, s); }
    }
  }

  lemma FirstMatchIsLeftmost(p: Pattern, s: string, first: bool)
    requires MatchesAt(p, s, first)
    ensures Scan(p, s, first).pieces != []
    ensures Leftmost(p, s, first, |Scan(p, s, first).pieces[0].gap|)
  {
    hide Ahead, BehindGroup, Scan, Space, IsSpace, MatchesAt, BehindLead;
    var lead, d, rest := MatchParts(p, s, first);
    LeadEnds(s, first);
    LeadIsThere(s, first);
    MatchIsAhead(p, s, first);
    var k := if first then 0 else 1;
    assert s[0..] == s;
    SpaceFrom(lead, d + rest, k);
    assert AtLine(p, s, k, first) && GroupFrom(s, k) == |lead|;
    forall j | 0 <= j <= |s| && AtLine(p, s, j, first) ensures GroupFrom(s, j) >= |lead| {
      if j <= |lead| { SpaceFrom(lead, d + rest, j); }
    }
  }

  lemma LeadIsThere(s: string, first: bool)
    requires BehindLead(s, first).Some?
    ensures !first ==> |BehindLead(s, first).value| < |s|
  {
  }
}
