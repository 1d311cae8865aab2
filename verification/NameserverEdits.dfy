/**
 dns_utility/src/resolv_conf_dns_modifier.rs: what commenting out does to directives that
 were commented out already. A `##` is found by no pattern; and where a bare `#` stood on
 a line above a directive, the directive stays active.
 */
module NameserverEdits {
  import opened Wrappers
  import opened NameserverScan
  import Seqs

  // ------------------------------------------------------------- the pieces there are

  /** A directive starts with the keyword, or with a single `#`. */
  predicate WellFormed(d: string) {
    d != [] && (d[0] == 'n' || (d[0] == '#' && |d| > 1 && d[1] != '#'))
  }

  lemma GroupIsWellFormed(d: string, rest: string)
    requires BehindGroup(Existing, d + rest) == Some(rest) && d != [] && !IsSpace(d[0])
    ensures WellFormed(d)
  {
    hide IsSpace, BehindGroup, DirectiveAhead, BehindDirective, KeyOf, HeadOf;
    PieceParts(d, rest);
    DirectiveIsLong(KeyOf(d), rest);
    DirectiveStartsN(KeyOf(d) + rest);
    HashIsNoSpace();
    var h := HeadOf(d);
    if d[0] != 'n' {
      assert d[0] == h[0];
      if |h| > 1 { assert d[1] == h[1..][0]; } else { assert d[1] == KeyOf(d)[0]; }
    }
  }

  lemma {:induction false} AllWellFormed(s: string, first: bool)
    ensures AllOf(Scan(Existing, s, first), WellFormed)
    decreases |s|
  {
    hide IsSpace, BehindLead, BehindGroup, MatchesAt, WellFormed, Prepend, Scan;
    if MatchesAt(Existing, s, first) {
      var lead, d, rest := MatchParts(Existing, s, first);
      LeadEnds(s, first);
      GroupIsWellFormed(d, rest);
      AllWellFormed(rest, false);
      AllOfCons(Piece(lead, d), Scan(Existing, rest, false), WellFormed);
    } else if s == [] {
      NothingScanned(Existing, first);
    } else {
      Seqs.Uncons(s);
      ScanOn(Existing, s[0], s[1..], first);
      AllWellFormed(s[1..], false);
      AllOfPrepend([s[0]], Scan(Existing, s[1..], false), WellFormed);
    }
  }

  predicate StartsHash(d: string) { d != [] && d[0] == '#' }

  predicate NoHash(d: string) { !StartsHash(d) }

  predicate HasHash(x: Scanned) { !AllOf(x, NoHash) }

  /** Every directive is active, or one has a `#`. */
  lemma ActiveOrHash(x: Scanned)
    requires AllOf(x, WellFormed)
    ensures AllOf(x, StartsActive) <==> !HasHash(x)
  {
    forall i | 0 <= i < |x.pieces| ensures StartsActive(x.pieces[i].directive) <==> NoHash(x.pieces[i].directive) {
      assert WellFormed(x.pieces[i].directive);
    }
  }

  lemma HasHashCons(p: Piece, x: Scanned)
    ensures HasHash(Scanned([p] + x.pieces, x.tail)) <==> StartsHash(p.directive) || HasHash(x)
  {
    AllOfCons(p, x, NoHash);
  }

  lemma HasHashPrepend(v: string, x: Scanned)
    ensures HasHash(Prepend(v, x)) <==> HasHash(x)
  {
    AllOfPrepend(v, x, NoHash);
  }

  // --------------------------------------------------- up to the first directive with a `#`

  /** The commented text up to the `##` of the first directive that had a `#`. */
  function FrontText(x: Scanned): string
    decreases |x.pieces|
  {
    if x.pieces == [] then []
    else
      var p, rest := x.pieces[0], Scanned(x.pieces[1..], x.tail);
      if StartsHash(p.directive) then p.gap + "##" else p.gap + (("#" + p.directive) + FrontText(rest))
  }

  /** What is found up to there, and then in the text that follows. */
  function FrontThen(x: Scanned, y: Scanned): Scanned
    decreases |x.pieces|
  {
    if x.pieces == [] then y
    else
      var p, rest := x.pieces[0], Scanned(x.pieces[1..], x.tail);
      if StartsHash(p.directive) then Prepend(p.gap + "##", y)
      else Scanned([CommentPiece(p)] + FrontThen(rest, y).pieces, FrontThen(rest, y).tail)
  }

  lemma FrontCons(p: Piece, x: Scanned, y: Scanned)
    ensures var all := Scanned([p] + x.pieces, x.tail);
      if StartsHash(p.directive) then FrontText(all) == p.gap + "##" && FrontThen(all, y) == Prepend(p.gap + "##", y)
      else
        && FrontText(all) == p.gap + (("#" + p.directive) + FrontText(x))
        && FrontThen(all, y) == Scanned([CommentPiece(p)] + FrontThen(x, y).pieces, FrontThen(x, y).tail)
  {
    Seqs.Parts([p], x.pieces);
  }

  lemma FrontPrepend(v: string, x: Scanned, y: Scanned)
    requires x.pieces != []
    ensures FrontText(Prepend(v, x)) == v + FrontText(x)
    ensures FrontThen(Prepend(v, x), y) == Prepend(v, FrontThen(x, y))
  {
    hide FrontText, FrontThen;
    var p, rest := x.pieces[0], Scanned(x.pieces[1..], x.tail);
    Seqs.Uncons(x.pieces);
    FrontCons(p, rest, y);
    FrontCons(Piece(v + p.gap, p.directive), rest, y);
    Seqs.Assoc(v, p.gap, "##");
    Seqs.Assoc(v, p.gap, ("#" + p.directive) + FrontText(rest));
    PrependTwice(v, p.gap + "##", y);
    Seqs.Parts([CommentPiece(p)], FrontThen(rest, y).pieces);
  }

  /** It starts with the gap in front of the first directive, and a `#`. */
  lemma FrontStarts(x: Scanned) returns (r: string)
    requires x.pieces != []
    ensures FrontText(x) == x.pieces[0].gap + ("#" + r)
  {
    var p, rest := x.pieces[0], Scanned(x.pieces[1..], x.tail);
    if StartsHash(p.directive) {
      r := "#";
      assert "##" == "#" + r;
    } else {
      r := p.directive + FrontText(rest);
      Seqs.Assoc("#", p.directive, FrontText(rest));
    }
  }

  /** The commented text starts with it. */
  lemma {:induction false} CommentedFront(x: Scanned) returns (r: string)
    requires HasHash(x)
    ensures Join(Commented(x)) == FrontText(x) + r
    decreases |x.pieces|
  {
    hide HasHash, Join, Commented;
    assert x.pieces != [] by { HashIsSomewhere(x); }
    var p, rest := x.pieces[0], Scanned(x.pieces[1..], x.tail);
    Seqs.Uncons(x.pieces);
    HasHashCons(p, rest);
    JoinCommentedCons(p, rest);
    var u := Join(Commented(rest));
    if StartsHash(p.directive) {
      r := p.directive[1..] + u;
      HashTwice(p.directive, u);
      Seqs.Assoc(p.gap, "##", r);
    } else {
      r := CommentedFront(rest);
      Seqs.Assoc("#" + p.directive, FrontText(rest), r);
      Seqs.Assoc(p.gap, ("#" + p.directive) + FrontText(rest), r);
    }
  }

  lemma HashIsSomewhere(x: Scanned)
    requires HasHash(x)
    ensures x.pieces != []
  {
  }

  lemma HashTwice(d: string, u: string)
    requires StartsHash(d)
    ensures ("#" + d) + u == "##" + (d[1..] + u)
  {
    assert d == "#" + d[1..];
    assert "##" == "#" + "#";
    Seqs.Assoc("#", "#", d[1..]);
    Seqs.Assoc("##", d[1..], u);
  }

  lemma FrontGoesOn(rest: string, d: string, r: string)
    requires BehindGroup(Existing, d + rest) == Some(rest) && HasHash(Scan(Existing, rest, false))
    ensures rest != []
    ensures var w := FrontText(Scan(Existing, rest, false)) + r; w != [] && IsSpace(w[0])
  {
    hide IsSpace, BehindGroup, HasHash, FrontText, Scan;
    var x := Scan(Existing, rest, false);
    HashIsSomewhere(x);
    FirstGap(Existing, rest, false);
    JoinScan(Existing, rest, false);
    JoinStarts(x);
    RestIsSpace(d + rest, rest);
    var q := FrontStarts(x);
  }

  lemma JoinStarts(x: Scanned)
    requires x.pieces != [] && x.pieces[0].gap != []
    ensures Join(x) != [] && Join(x)[0] == x.pieces[0].gap[0]
  {
  }

  lemma TwoHashesNoGroup(p: Pattern, r: string)
    ensures BehindGroup(p, "##" + r).None?
  {
    hide IsSpace, DirectiveAhead, BehindDirective;
    var y := "##" + r;
    assert y == "#" + ("#" + r);
    HashIsNoDirective(p, y);
    HashDrops("#" + r);
    HashIsNoDirective(p, "#" + r);
    HashIsNoSpace();
  }

  /** No match where there was none, in front of a `#` that has been put in. */
  lemma NoMatchFront(p: Pattern, s: string, first: bool, r: string)
    requires s != [] && !MatchesAt(Existing, s, first) && Scan(Existing, s[1..], false).pieces != []
    ensures !MatchesAt(p, [s[0]] + (FrontText(Scan(Existing, s[1..], false)) + r), first)
  {
    hide IsSpace, MatchesAt, Scan, FrontText;
    var y := Scan(Existing, s[1..], false);
    var q := FrontStarts(y);
    Seqs.Assoc(y.pieces[0].gap, "#" + q, r);
    Seqs.Assoc("#", q, r);
    StillNoMatch(p, s, first, q + r);
  }

  /** Up to the first `##`, the commented directives are found; whatever follows is scanned as it is. */
  lemma {:induction false} FrontScan(s: string, first: bool, r: string)
    requires HasHash(Scan(Existing, s, first))
    ensures var x := Scan(Existing, s, first);
      Scan(Existing, FrontText(x) + r, first) == FrontThen(x, Scan(Existing, r, false))
    decreases |s|
  {
    hide IsSpace, BehindLead, BehindGroup, MatchesAt, Prepend, Scan, FrontText, FrontThen, HasHash;
    var x, y := Scan(Existing, s, first), Scan(Existing, r, false);
    if MatchesAt(Existing, s, first) {
      var lead, d, rest := MatchParts(Existing, s, first);
      var more := Scan(Existing, rest, false);
      FrontCons(Piece(lead, d), more, y);
      LeadEnds(s, first);
      if StartsHash(d) {
        Seqs.Assoc(lead, "##", r);
        TwoHashesNoGroup(Existing, r);
        HashIsNoSpace();
        SkipPiece(Existing, lead, "##", r, first);
      } else {
        HasHashCons(Piece(lead, d), more);
        FrontScan(rest, false, r);
        FrontGoesOn(rest, d, r);
        GroupIsWellFormed(d, rest);
        var u := FrontText(more);
        CommentedMatch(lead, d, rest, first, u + r);
        Seqs.Assoc("#" + d, u, r);
        Seqs.Assoc(lead, ("#" + d) + u, r);
      }
    } else {
      FrontLater(Existing, s, first, r);
      FrontScan(s[1..], false, r);
      FrontPrepend([s[0]], Scan(Existing, s[1..], false), y);
    }
  }

  /** Where nothing matches, one character further. */
  lemma FrontLater(p: Pattern, s: string, first: bool, r: string)
    requires HasHash(Scan(Existing, s, first)) && !MatchesAt(Existing, s, first)
    ensures s != [] && HasHash(Scan(Existing, s[1..], false))
    ensures var y := Scan(Existing, s[1..], false);
      && y.pieces != []
      && Scan(Existing, s, first) == Prepend([s[0]], y)
      && FrontText(Scan(Existing, s, first)) == [s[0]] + FrontText(y)
      && Scan(p, FrontText(Scan(Existing, s, first)) + r, first) == Prepend([s[0]], Scan(p, FrontText(y) + r, false))
  {
    hide IsSpace, MatchesAt, Prepend, Scan, FrontText, FrontThen, HasHash;
    if s == [] { NothingScanned(Existing, first); NoHashInNothing(); }
    var y := Scan(Existing, s[1..], false);
    Seqs.Uncons(s);
    ScanOn(Existing, s[0], s[1..], first);
    HasHashPrepend([s[0]], y);
    HashIsSomewhere(y);
    FrontPrepend([s[0]], y, Scanned([], []));
    NoMatchFront(p, s, first, r);
    Seqs.Assoc([s[0]], FrontText(y), r);
    ScanOn(p, s[0], FrontText(y) + r, first);
  }

  lemma NoHashInNothing()
    ensures !HasHash(Scanned([], []))
  {
  }

  /** The other patterns find nothing up to there. */
  lemma {:induction false} FrontSkip(p: Pattern, s: string, first: bool, r: string)
    requires p != Existing && HasHash(Scan(Existing, s, first)) && AllOf(Scan(Existing, s, first), Addressed)
    ensures var x := Scan(Existing, s, first);
      Scan(p, FrontText(x) + r, first) == Prepend(FrontText(x), Scan(p, r, false))
    decreases |s|
  {
    hide IsSpace, BehindLead, BehindGroup, MatchesAt, Prepend, Scan, FrontText, FrontThen, HasHash, Addressed;
    if MatchesAt(Existing, s, first) {
      var lead, d, rest := MatchParts(Existing, s, first);
      var more := Scan(Existing, rest, false);
      FrontCons(Piece(lead, d), more, Scanned([], []));
      AllOfCons(Piece(lead, d), more, Addressed);
      LeadEnds(s, first);
      if StartsHash(d) {
        Seqs.Assoc(lead, "##", r);
        TwoHashesNoGroup(p, r);
        HashIsNoSpace();
        SkipPiece(p, lead, "##", r, first);
      } else {
        HasHashCons(Piece(lead, d), more);
        FrontSkip(p, rest, false, r);
        FrontGoesOn(rest, d, r);
        var u := FrontText(more);
        ActiveIsQuiet(d, rest);
        SkipCommented(p, lead, d, rest, u + r, first);
        Seqs.Assoc("#" + d, u, r);
        Seqs.Assoc(lead, ("#" + d) + u, r);
        PrependTwice(lead + ("#" + d), u, Scan(p, r, false));
        Seqs.Assoc(lead, "#" + d, u);
      }
    } else {
      FrontLater(p, s, first, r);
      var y := Scan(Existing, s[1..], false);
      AllOfPrepend([s[0]], y, Addressed);
      FrontSkip(p, s[1..], false, r);
      PrependTwice([s[0]], FrontText(y), Scan(p, r, false));
    }
  }

  lemma ActiveIsQuiet(d: string, rest: string)
    requires BehindGroup(Existing, d + rest) == Some(rest) && d != [] && !IsSpace(d[0])
    requires Addressed(d) && !StartsHash(d)
    ensures Quiet(d)
  {
    hide IsSpace, BehindGroup, DirectiveAhead, BehindDirective, KeyOf, Addressed;
    PieceParts(d, rest);
    GroupIsWellFormed(d, rest);
  }

  // ------------------------------------------------------------------- bare hashes

  predicate HasBare(x: Scanned) { !AllOf(x, OnItsLine) }

  /** The first directive with a bare `#` on a line above it, from its keyword on. */
  function FirstBare(x: Scanned): string
    decreases |x.pieces|
  {
    if x.pieces == [] then []
    else if !OnItsLine(x.pieces[0].directive) then KeyOf(x.pieces[0].directive)
    else FirstBare(Scanned(x.pieces[1..], x.tail))
  }

  lemma FirstBareCons(p: Piece, x: Scanned)
    ensures FirstBare(Scanned([p] + x.pieces, x.tail))
         == if OnItsLine(p.directive) then FirstBare(x) else KeyOf(p.directive)
    ensures HasBare(Scanned([p] + x.pieces, x.tail)) <==> !OnItsLine(p.directive) || HasBare(x)
  {
    hide OnItsLine, KeyOf;
    Seqs.Parts([p], x.pieces);
    AllOfCons(p, x, OnItsLine);
  }

  lemma FirstBarePrepend(v: string, x: Scanned)
    ensures FirstBare(Prepend(v, x)) == FirstBare(x) && (HasBare(Prepend(v, x)) <==> HasBare(x))
  {
    hide FirstBare, HasBare, OnItsLine, KeyOf;
    if x.pieces != [] {
      var p, rest := x.pieces[0], Scanned(x.pieces[1..], x.tail);
      Seqs.Uncons(x.pieces);
      FirstBareCons(p, rest);
      FirstBareCons(Piece(v + p.gap, p.directive), rest);
    } else {
      NoneBare(x);
      NoneBare(Prepend(v, x));
    }
  }

  lemma NoneBare(x: Scanned)
    requires x.pieces == []
    ensures !HasBare(x) && FirstBare(x) == []
  {
  }

  /** A head with a line break: the line of the `#`, and the spaces from there on. */
  lemma BareSplit(h: string) returns (a: string, b: string)
    requires IsHead(h) && '\n' in h
    ensures h == a + ("\n" + b) && a != [] && a[0] == '#' && '\n' !in a && AllSpace(b)
  {
    hide IsSpace;
    var i := 1;
    while h[i] != '\n'
      invariant 1 <= i < |h| && '\n' !in h[..i]
      decreases |h| - i
    {
      assert h[..i + 1] == h[..i] + [h[i]] && h[..|h|] == h;
      i := i + 1;
    }
    a, b := h[..i], h[i + 1..];
    assert h == a + ("\n" + b);
    assert forall j | 0 <= j < |b| :: b[j] == h[1..][i + j];
  }

  /** Behind such a head the directive is active. */
  lemma BareIsFound(lead: string, a: string, b: string, k: string, w: string, first: bool)
    requires AllSpace(lead) && a != [] && a[0] == '#' && '\n' !in a && AllSpace(b)
    requires DirectiveAhead(k + w) && BehindDirective(k + w) == w
    ensures var more := Scan(Active, w, false);
      Scan(Active, lead + ((a + ("\n" + b)) + (k + w)), first)
      == Prepend(lead + a, Scanned([Piece("\n" + b, k)] + more.pieces, more.tail))
  {
    hide IsSpace, Scan, Prepend, DirectiveAhead, BehindDirective;
    var y := ("\n" + b) + (k + w);
    Seqs.Assoc(a, "\n" + b, k + w);
    HashIsNoSpace();
    HashIsNoDirective(Active, a + y);
    SkipPiece(Active, lead, a, y, first);
    DirectiveStart(k + w);
    Seqs.Assoc("\n", b, k + w);
    Seqs.Parts("\n", b + (k + w));
    SpaceOver(b, k + w);
    ScanMatch(Active, "\n" + b, k, w, false);
  }

  lemma FirstOfPrepended(v: string, p: Piece, x: Scanned)
    ensures var y := Prepend(v, Scanned([p] + x.pieces, x.tail));
      y.pieces != [] && y.pieces[0].directive == p.directive
  {
  }

  lemma FirstStays(v: string, x: Scanned)
    requires x.pieces != []
    ensures Prepend(v, x).pieces != [] && Prepend(v, x).pieces[0].directive == x.pieces[0].directive
  {
  }

  lemma BareMatch(lead: string, d: string, rest: string, w: string, first: bool)
    requires AllSpace(lead) && !OnItsLine(d)
    requires BehindGroup(Existing, d + rest) == Some(rest) && d != [] && !IsSpace(d[0])
    requires rest != [] && w != [] && IsSpace(w[0])
    ensures var y := Scan(Active, lead + (("#" + d) + w), first);
      y.pieces != [] && y.pieces[0].directive == KeyOf(d)
  {
    hide IsSpace, BehindGroup, DirectiveAhead, BehindDirective, KeyOf, HeadOf, Scan, Prepend;
    PieceParts(d, rest);
    var h, k := HeadOf(d), KeyOf(d);
    var a, b := BareSplit(h);
    DirectiveOver(k, rest, w);
    Seqs.Assoc("#", a, "\n" + b);
    Seqs.Assoc("#", h, k);
    Seqs.Assoc("#" + h, k, w);
    BareIsFound(lead, "#" + a, b, k, w, first);
    FirstOfPrepended(lead + ("#" + a), Piece("\n" + b, k), Scan(Active, w, false));
  }

  /** Once all is commented out, the first directive behind a bare `#` is the first active one. */
  lemma {:induction false} StillActive(s: string, first: bool, m: string)
    requires var x := Scan(Existing, s, first); HasBare(x) && AllOf(x, Addressed) && EndsLine(x.tail)
    ensures var x := Scan(Existing, s, first);
      var y := Scan(Active, Join(Commented(x)) + m, first);
      y.pieces != [] && y.pieces[0].directive == FirstBare(x)
    decreases |s|
  {
    hide IsSpace, BehindLead, BehindGroup, MatchesAt, Join, Commented, Prepend, Addressed, OnItsLine, KeyOf,
      HeadOf, FirstBare, HasBare, EndsLine, Scan;
    if MatchesAt(Existing, s, first) {
      var lead, d, rest := MatchParts(Existing, s, first);
      var more := Scan(Existing, rest, false);
      AllOfCons(Piece(lead, d), more, Addressed);
      FirstBareCons(Piece(lead, d), more);
      JoinCommentedCons(Piece(lead, d), more);
      CommentedGoesOn(rest, d, m);
      LeadEnds(s, first);
      var u := Join(Commented(more));
      Seqs.Assoc("#" + d, u, m);
      Seqs.Assoc(lead, ("#" + d) + u, m);
      if OnItsLine(d) {
        StillActive(rest, false, m);
        SkipCommented(Active, lead, d, rest, u + m, first);
        FirstStays(lead + ("#" + d), Scan(Active, u + m, false));
      } else {
        BareMatch(lead, d, rest, u + m, first);
      }
    } else {
      StillActiveLater(s, first, m);
    }
  }

  lemma {:induction false} StillActiveLater(s: string, first: bool, m: string)
    requires var x := Scan(Existing, s, first); HasBare(x) && AllOf(x, Addressed) && EndsLine(x.tail)
    requires !MatchesAt(Existing, s, first)
    ensures var x := Scan(Existing, s, first);
      var y := Scan(Active, Join(Commented(x)) + m, first);
      y.pieces != [] && y.pieces[0].directive == FirstBare(x)
    decreases |s|, 0
  {
    hide IsSpace, MatchesAt, Join, Commented, Prepend, Addressed, FirstBare, HasBare, EndsLine, Scan;
    if s == [] { NothingScanned(Existing, first); EmptyEndsNoLine(); }
    var y := Scan(Existing, s[1..], false);
    Seqs.Uncons(s);
    ScanOn(Existing, s[0], s[1..], first);
    FirstBarePrepend([s[0]], y);
    if y.pieces == [] { NoneBare(y); }
    AllOfPrepend([s[0]], y, Addressed);
    TailPrepend([s[0]], y);
    CommentedPrepend([s[0]], y);
    JoinPrepend([s[0]], Commented(y));
    var u := Join(Commented(y));
    Seqs.Assoc([s[0]], u, m);
    NoMatchCommented(Active, s, first, m);
    ScanOn(Active, s[0], u + m, first);
    StillActive(s[1..], false, m);
    FirstStays([s[0]], Scan(Active, u + m, false));
  }

  /** That directive was active before, too: whatever holds of all active ones holds of it. */
  lemma {:induction false} WasActive(s: string, first: bool, ok: string -> bool)
    requires HasBare(Scan(Existing, s, first)) && AllOf(Scan(Existing, s, first), Addressed)
    requires AllOf(Scan(Active, s, first), ok)
    ensures ok(FirstBare(Scan(Existing, s, first)))
    decreases |s|
  {
    hide IsSpace, BehindLead, BehindGroup, MatchesAt, Prepend, Addressed, OnItsLine, KeyOf, HeadOf,
      FirstBare, HasBare, Scan;
    if MatchesAt(Existing, s, first) {
      var lead, d, rest := MatchParts(Existing, s, first);
      var more := Scan(Existing, rest, false);
      AllOfCons(Piece(lead, d), more, Addressed);
      FirstBareCons(Piece(lead, d), more);
      LeadEnds(s, first);
      if OnItsLine(d) {
        ActiveAt(lead, d, rest, first, ok);
        WasActive(rest, false, ok);
      } else {
        BareAt(lead, d, rest, first, ok);
      }
    } else {
      if s == [] { NothingScanned(Existing, first); NoneBare(Scanned([], [])); }
      var y := Scan(Existing, s[1..], false);
      Seqs.Uncons(s);
      ScanOn(Existing, s[0], s[1..], first);
      FirstBarePrepend([s[0]], y);
      AllOfPrepend([s[0]], y, Addressed);
      ActiveNeedsExisting(Active, s, first);
      ScanOn(Active, s[0], s[1..], first);
      AllOfPrepend([s[0]], Scan(Active, s[1..], false), ok);
      WasActive(s[1..], false, ok);
    }
  }

  lemma BareAt(lead: string, d: string, rest: string, first: bool, ok: string -> bool)
    requires AllSpace(lead) && !OnItsLine(d)
    requires BehindGroup(Existing, d + rest) == Some(rest) && d != [] && !IsSpace(d[0])
    requires AllOf(Scan(Active, lead + (d + rest), first), ok)
    ensures ok(KeyOf(d))
  {
    hide IsSpace, BehindGroup, DirectiveAhead, BehindDirective, KeyOf, HeadOf, Scan, Prepend;
    PieceParts(d, rest);
    var h, k := HeadOf(d), KeyOf(d);
    var a, b := BareSplit(h);
    Seqs.Assoc(h, k, rest);
    BareIsFound(lead, a, b, k, rest, first);
    var more := Scan(Active, rest, false);
    AllOfPrepend(lead + a, Scanned([Piece("\n" + b, k)] + more.pieces, more.tail), ok);
    AllOfCons(Piece("\n" + b, k), more, ok);
  }

  lemma ActiveAt(lead: string, d: string, rest: string, first: bool, ok: string -> bool)
    requires AllSpace(lead) && OnItsLine(d) && Addressed(d)
    requires BehindLead(lead + (d + rest), first) == Some(d + rest)
    requires BehindGroup(Existing, d + rest) == Some(rest) && d != [] && !IsSpace(d[0])
    requires AllOf(Scan(Active, lead + (d + rest), first), ok)
    ensures AllOf(Scan(Active, rest, false), ok)
  {
    hide IsSpace, BehindLead, DirectiveAhead, BehindDirective, KeyOf, HeadOf, Scan, Prepend, Space;
    var more := Scan(Active, rest, false);
    PieceParts(d, rest);
    GroupIsWellFormed(d, rest);
    if d[0] == 'n' {
      PlainGroup(d + rest);
      ScanMatch(Active, lead, d, rest, first);
      AllOfCons(Piece(lead, d), more, ok);
    } else {
      DirectiveIsLong(KeyOf(d), rest);
      RestIsSpace(d + rest, rest);
      SkipHash(Active, lead, HeadOf(d), KeyOf(d), rest, rest, first);
      AllOfPrepend(lead + d, more, ok);
    }
  }
}
