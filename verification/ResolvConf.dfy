/**
 dns_utility/src/resolv_conf_dns_modifier.rs: commenting out the name servers of
 resolv.conf in favour of MASQ's own, and commenting them in again.
 */
module ResolvConf {
  import opened NameserverEdits
  import opened NameserverScan
  import opened Wrappers
  import Seqs

  const DISCONNECTED := "This system does not appear to be connected to a network"
  const NONSENSE := "This system's DNS settings don't make sense; aborting"
  const NOTHING_TO_REVERT := "There do not appear to be any DNS settings to revert to"
  const APPENDED := MASQ_LINE + "\n"

  predicate IsNumber(s: string) {
    1 <= |s| <= 3 && forall i | 0 <= i < |s| :: '0' <= s[i] <= '9'
  }

  /** Up to three digits of `a` are a number, and what is behind them goes on as it should. */
  predicate NumberAt(a: string, digits: nat, left: nat)
    decreases left, 0
  {
    && digits <= |a| && IsNumber(a[..digits])
    && var rest := a[digits..];
       if left == 0 then rest == [] || rest[0] == '#'
       else rest != [] && rest[0] == '.' && Numbers(rest[1..], left - 1)
  }

  /** Numbers with dots between them, one and `left` more, and then the end or a comment. */
  predicate Numbers(a: string, left: nat)
    decreases left, 1
  {
    NumberAt(a, 1, left) || NumberAt(a, 2, left) || NumberAt(a, 3, left)
  }

  /**
   Of a directive that was found: both patterns of the source match. The first asks for
   four numbers, the second for 127.0.0.1; behind either comes the end or a comment,
   since an address that was found has no space in it.
   */
  predicate IsMasqIp(directive: string) {
    && |directive| > 10
    && var address := Space(directive[10..]);
       && Numbers(address, 3)
       && MASQ_IP <= address && (|address| == 9 || address[9] == '#')
  }

  lemma MasqDigits(rest: string)
    requires rest == [] || rest[0] == '#'
    ensures Numbers(MASQ_IP + rest, 3)
  {
    hide Numbers, IsNumber;
    DigitsAreNumbers();
    OneNumber("1", rest);
    NextNumber("0", "1", rest, 0);
    NextNumber("0", "0" + ("." + "1"), rest, 1);
    NextNumber("127", "0" + ("." + ("0" + ("." + "1"))), rest, 2);
    MasqIpInParts();
  }

  lemma DigitsAreNumbers()
    ensures IsNumber("0") && IsNumber("1") && IsNumber("127")
  {
  }

  lemma MasqIpInParts()
    ensures MASQ_IP == "127" + ("." + ("0" + ("." + ("0" + ("." + "1")))))
  {
  }

  lemma OneNumber(n: string, rest: string)
    requires IsNumber(n) && (rest == [] || rest[0] == '#')
    ensures Numbers(n + rest, 0)
  {
    Seqs.Parts(n, rest);
    assert NumberAt(n + rest, |n|, 0);
  }

  lemma NextNumber(n: string, more: string, rest: string, left: nat)
    requires IsNumber(n) && Numbers(more + rest, left)
    ensures Numbers(n + ("." + more) + rest, left + 1)
  {
    var behind := "." + (more + rest);
    Seqs.Assoc(n, "." + more, rest);
    Seqs.Assoc(".", more, rest);
    Seqs.Parts(n, behind);
    Seqs.Parts(".", more + rest);
    assert NumberAt(n + behind, |n|, left + 1);
  }

  /** Together they ask for the address itself, up to a comment. */
  lemma MasqIpIs(directive: string)
    ensures IsMasqIp(directive) <==>
      |directive| > 10 && var address := Space(directive[10..]); address == MASQ_IP || MASQ_IP + "#" <= address
  {
    hide Numbers, Space;
    if |directive| > 10 {
      var address := Space(directive[10..]);
      MasqPrefix(address);
      if MASQ_IP <= address && (|address| == 9 || address[9] == '#') {
        Seqs.Split(address, 9);
        MasqDigits(address[9..]);
      }
    }
  }

  lemma MasqPrefix(a: string)
    ensures MASQ_IP <= a && (|a| == 9 || a[9] == '#') <==> a == MASQ_IP || MASQ_IP + "#" <= a
    ensures MASQ_IP <= a ==> a[..9] == MASQ_IP
  {
    if MASQ_IP <= a && |a| > 9 && a[9] == '#' { assert a[..10] == MASQ_IP + "#"; }
    if MASQ_IP + "#" <= a {
      var b := MASQ_IP + "#";
      assert a[..10] == b;
      assert forall i | 0 <= i < 10 :: a[i] == b[i];
      assert a[..9] == MASQ_IP;
    }
  }

  // ------------------------------------------------------------------ commenting in

  function UncommentPiece(p: Piece): Piece {
    if p.directive == [] then p else p.(directive := p.directive[1..])
  }

  /** Every directive without its first character. */
  function Uncommented(x: Scanned): Scanned {
    x.(pieces := seq(|x.pieces|, i requires 0 <= i < |x.pieces| => UncommentPiece(x.pieces[i])))
  }

  lemma {:induction false} CommentedAt(x: Scanned, i: nat)
    requires i < |x.pieces|
    ensures |Commented(x).pieces| == |x.pieces| && Commented(x).pieces[i] == CommentPiece(x.pieces[i])
    decreases |x.pieces|
  {
    var rest := x.(pieces := x.pieces[1..]);
    if |x.pieces| > 1 { CommentedAt(rest, if i == 0 then 0 else i - 1); }
  }

  lemma {:induction false} CommentedSize(x: Scanned)
    ensures |Commented(x).pieces| == |x.pieces| && Commented(x).tail == x.tail
    decreases |x.pieces|
  {
    if x.pieces != [] { CommentedSize(x.(pieces := x.pieces[1..])); }
  }

  lemma UncommentCommented(x: Scanned)
    ensures Uncommented(Commented(x)) == x
  {
    CommentedSize(x);
    forall i | 0 <= i < |x.pieces| ensures Uncommented(Commented(x)).pieces[i] == x.pieces[i] {
      CommentedAt(x, i);
      Seqs.Parts("#", x.pieces[i].directive);
    }
  }

  // --------------------------------------------------------------- edits in reverse order

  /** The text up to a directive, the directive and the text behind it. */
  lemma {:induction false} JoinAt(a: seq<Piece>, q: Piece, b: seq<Piece>, tail: string)
    ensures Join(Scanned(a + ([q] + b), tail))
         == (Join(Scanned(a, [])) + q.gap) + (q.directive + Join(Scanned(b, tail)))
    decreases |a|
  {
    var end := q.directive + Join(Scanned(b, tail));
    if a == [] {
      Seqs.EmptyLeft([q] + b);
      Seqs.EmptyLeft(q.gap);
      JoinCons(q, Scanned(b, tail));
    } else {
      var p, more := a[0], a[1..];
      JoinAt(more, q, b, tail);
      Seqs.Uncons(a);
      Seqs.Assoc([p], more, [q] + b);
      JoinCons(p, Scanned(more + ([q] + b), tail));
      JoinCons(p, Scanned(more, []));
      var front := Join(Scanned(more, []));
      Seqs.Assoc(front, q.gap, end);
      Seqs.Assoc(p.directive, front, q.gap + end);
      Seqs.Assoc(p.gap, p.directive + front, q.gap + end);
      Seqs.Assoc(p.gap + (p.directive + front), q.gap, end);
    }
  }

  /** Where a directive starts. */
  lemma {:induction false} StartsAt(x: Scanned, from: nat, i: nat)
    requires i < |x.pieces|
    ensures Starts(x, from)[i] == from + |Join(Scanned(x.pieces[..i], []))| + |x.pieces[i].gap|
    decreases |x.pieces|
  {
    var p, rest := x.pieces[0], Scanned(x.pieces[1..], x.tail);
    if i > 0 {
      var after := from + |p.gap| + |p.directive|;
      StartsAt(rest, after, i - 1);
      Seqs.TakeFromTail(x.pieces, i - 1);
      JoinCons(p, Scanned(rest.pieces[..i - 1], []));
    }
  }

  /** The text whose directives from `i` on have been edited. */
  function Edited(x: Scanned, done: seq<Piece>, i: nat): string
    requires i <= |x.pieces| == |done|
  {
    Join(Scanned(x.pieces[..i] + done[i..], x.tail))
  }

  /** An edit at a directive leaves the places of those in front of it. */
  lemma EditPoint(x: Scanned, done: seq<Piece>, i: nat) returns (front: string, rest: string)
    requires i < |x.pieces| == |done| && done[i].gap == x.pieces[i].gap
    ensures |front| == Starts(x, 0)[i]
    ensures Edited(x, done, i + 1) == front + (x.pieces[i].directive + rest)
    ensures Edited(x, done, i) == front + (done[i].directive + rest)
  {
    hide Join, Starts;
    var a, b := x.pieces[..i], done[i + 1..];
    StartsAt(x, 0, i);
    front, rest := Join(Scanned(a, [])) + x.pieces[i].gap, Join(Scanned(b, x.tail));
    Seqs.TakeOneMore(x.pieces, i);
    Seqs.Assoc(a, [x.pieces[i]], b);
    JoinAt(a, x.pieces[i], b, x.tail);
    Seqs.DropOneMore(done, i);
    JoinAt(a, done[i], b, x.tail);
  }

  /** Inserts a `#` in front of every directive, the last one first. */
  method CommentOut(text: string, x: Scanned) returns (after: string)
    requires Join(x) == text
    ensures after == Join(Commented(x))
  {
    hide Join, Starts, Commented, Edited;
    var starts := Starts(x, 0);
    var i := |starts|;
    after := text;
    ghost var done := Commented(x).pieces;
    CommentedSize(x);
    NothingEdited(x, done);
    while i > 0
      invariant 0 <= i <= |starts|
      invariant after == Edited(x, done, i)
    {
      i := i - 1;
      CommentedAt(x, i);
      ghost var front, rest := EditPoint(x, done, i);
      var start := starts[i];
      InsertBetween(front, x.pieces[i].directive + rest);
      Seqs.Assoc("#", x.pieces[i].directive, rest);
      after := after[..start] + ("#" + after[start..]);
    }
    AllEdited(x, done);
  }

  /** Removes the first character of every directive, the last one first. */
  method CommentIn(text: string, x: Scanned) returns (after: string)
    requires Join(x) == text && HasDirectives(x)
    ensures after == Join(Uncommented(x))
  {
    hide Join, Starts, Edited;
    var starts := Starts(x, 0);
    var i := |starts|;
    after := text;
    ghost var done := Uncommented(x).pieces;
    NothingEdited(x, done);
    while i > 0
      invariant 0 <= i <= |starts|
      invariant after == Edited(x, done, i)
    {
      i := i - 1;
      ghost var front, rest := EditPoint(x, done, i);
      var start := starts[i];
      RemoveBetween(front, x.pieces[i].directive, rest);
      after := after[..start] + after[start + 1..];
    }
    AllEdited(x, done);
  }

  lemma NothingEdited(x: Scanned, done: seq<Piece>)
    requires |done| == |x.pieces|
    ensures Edited(x, done, |x.pieces|) == Join(x)
  {
    hide Join;
    Seqs.EmptyRight(x.pieces);
    assert x.pieces[..|x.pieces|] == x.pieces && done[|x.pieces|..] == [];
  }

  lemma AllEdited(x: Scanned, done: seq<Piece>)
    requires |done| == |x.pieces|
    ensures Edited(x, done, 0) == Join(x.(pieces := done))
  {
    hide Join;
    Seqs.EmptyLeft(done);
    assert x.pieces[..0] == [] && done[0..] == done;
  }

  lemma InsertBetween(front: string, back: string)
    ensures var t := front + back; t[..|front|] + ("#" + t[|front|..]) == front + ("#" + back)
  {
    Seqs.Parts(front, back);
  }

  lemma RemoveBetween(front: string, d: string, rest: string)
    requires d != []
    ensures var t := front + (d + rest);
      |front| < |t| && t[..|front|] + t[|front| + 1..] == front + (d[1..] + rest)
  {
    var t := front + (d + rest);
    Seqs.Parts(front, d + rest);
    Seqs.DropDrop(t, |front|, 1);
    Seqs.TailOfConcat(d, rest);
  }

  predicate HasDirectives(x: Scanned) {
    forall i | 0 <= i < |x.pieces| :: x.pieces[i].directive != []
  }

  lemma {:induction false} DirectivesAreThere(p: Pattern, s: string, first: bool)
    ensures HasDirectives(Scan(p, s, first))
    decreases |s|
  {
    hide BehindLead, BehindGroup, MatchesAt;
    if MatchesAt(p, s, first) {
      var lead, d, rest := MatchParts(p, s, first);
      DirectivesAreThere(p, rest, false);
    } else if s != [] {
      DirectivesAreThere(p, s[1..], false);
    }
  }

  // -------------------------------------------------------------------- the modifier

  /** The contents that `subvert` leaves. */
  function Subverted(text: string): Result<string> {
    var active := Scan(Active, text, true).pieces;
    if active == [] then Err(DISCONNECTED)
    else if IsMasqIp(active[0].directive) then Ok(text)
    else if exists i | 0 <= i < |active| :: IsMasqIp(active[i].directive) then Err(NONSENSE)
    else Ok(Join(Commented(Scan(Existing, text, true))) + ("\n" + APPENDED))
  }

  /** The contents that `revert` leaves. */
  function Reverted(text: string): Result<string> {
    var masq := Scan(MasqLine, text, true);
    if masq.pieces == [] then Ok(text)
    else if |masq.pieces| > 1 then Err(NONSENSE)
    else
      var existing := Scan(Existing, masq.pieces[0].gap + masq.tail, true);
      if existing.pieces == [] then Err(NOTHING_TO_REVERT)
      else Ok(Join(Uncommented(existing)))
  }

  method CheckForNonsense(active: seq<Piece>) returns (nonsense: bool)
    ensures nonsense <==> exists i | 0 <= i < |active| :: IsMasqIp(active[i].directive)
  {
    hide IsMasqIp;
    var i := 0;
    while i < |active|
      invariant 0 <= i <= |active|
      invariant forall j | 0 <= j < i :: !IsMasqIp(active[j].directive)
    {
      if IsMasqIp(active[i].directive) { return true; }
      i := i + 1;
    }
    return false;
  }

  method SubvertContents(before: string) returns (r: Result<string>)
    ensures r == Subverted(before)
  {
    hide IsMasqIp, Scan, Commented, Join;
    var active := Scan(Active, before, true).pieces;
    if active == [] { return Err(DISCONNECTED); }
    if IsMasqIp(active[0].directive) { return Ok(before); }
    var nonsense := CheckForNonsense(active);
    if nonsense { return Err(NONSENSE); }
    var existing := Scan(Existing, before, true);
    JoinScan(Existing, before, true);
    var after := CommentOut(before, existing);
    return Ok(after + ("\n" + APPENDED));
  }

  /** Position and length of the one line that names MASQ. */
  method FindMasqNameserver(contents: string) returns (r: Result<Option<(nat, nat)>>)
    ensures var x := Scan(MasqLine, contents, true);
      match |x.pieces| {
        case 0 => r == Ok(None)
        case 1 =>
          && r == Ok(Some((|x.pieces[0].gap|, |x.pieces[0].directive|)))
          && contents == x.pieces[0].gap + (x.pieces[0].directive + x.tail)
        case _ => r == Err(NONSENSE)
      }
  {
    hide Scan;
    var x := Scan(MasqLine, contents, true);
    var starts := Starts(x, 0);
    JoinScan(MasqLine, contents, true);
    if |starts| == 0 { return Ok(None); }
    if |starts| > 1 { return Err(NONSENSE); }
    return Ok(Some((starts[0], |x.pieces[0].directive|)));
  }

  method RemoveSpan(s: string, begin: nat, length: nat) returns (r: string)
    requires begin + length <= |s|
    ensures forall a, b, c :: s == a + (b + c) && |a| == begin && |b| == length ==> r == a + c
  {
    r := s[..begin] + s[begin + length..];
    forall a, b, c | s == a + (b + c) && |a| == begin && |b| == length ensures r == a + c {
      Seqs.Parts(a, b + c);
      Seqs.Parts(b, c);
      Seqs.DropDrop(s, begin, length);
    }
  }

  method RevertContents(before: string) returns (r: Result<string>)
    ensures r == Reverted(before)
  {
    hide Scan, Join, Uncommented;
    var found := FindMasqNameserver(before);
    match found
    case Err(e) => return Err(e);
    case Ok(None) => return Ok(before);
    case Ok(Some(span)) =>
      var after := RemoveSpan(before, span.0, span.1);
      var existing := Scan(Existing, after, true);
      if existing.pieces == [] { return Err(NOTHING_TO_REVERT); }
      JoinScan(Existing, after, true);
      DirectivesAreThere(Existing, after, true);
      after := CommentIn(after, existing);
      return Ok(after);
  }

  // --------------------------------------------------------------- where the calls fail

  lemma MessagesDiffer()
    ensures DISCONNECTED != NONSENSE && NONSENSE != NOTHING_TO_REVERT
  {
    assert DISCONNECTED[|DISCONNECTED| - 1] == 'k';
    assert NONSENSE[|NONSENSE| - 1] == 'g';
    assert NOTHING_TO_REVERT[|NOTHING_TO_REVERT| - 1] == 'o';
  }

  /** Subverting fails when no line has an active directive, or when one is MASQ's behind a first that is not. */
  lemma SubvertFails(text: string)
    ensures Subverted(text) == Err(DISCONNECTED) <==> forall k | 0 <= k <= |text| :: !AtLine(Active, text, k, true)
    ensures var active := Scan(Active, text, true).pieces;
      Subverted(text) == Err(NONSENSE) <==>
        active != [] && !IsMasqIp(active[0].directive) && exists i :: 0 < i < |active| && IsMasqIp(active[i].directive)
    ensures Subverted(text).Err? ==> Subverted(text).error in {DISCONNECTED, NONSENSE}
  {
    hide IsMasqIp, Scan, Commented, Join, AtLine;
    MessagesDiffer();
    NothingFoundIff(Active, text, true);
  }

  /**
   Reverting fails when MASQ's line is found more than once, or when what is left without
   it has no line with a directive, commented out or not.
   */
  lemma RevertFails(text: string)
    ensures Reverted(text) == Err(NONSENSE) <==> |Scan(MasqLine, text, true).pieces| > 1
    ensures Reverted(text) == Err(NOTHING_TO_REVERT) <==>
      exists before, line, after :: text == before + (line + after) && Bare(text, before, line, after)
    ensures Reverted(text).Err? ==> Reverted(text).error in {NONSENSE, NOTHING_TO_REVERT}
  {
    hide Scan, Uncommented, Join;
    MessagesDiffer();
    var masq := Scan(MasqLine, text, true);
    if |masq.pieces| == 1 {
      JoinScan(MasqLine, text, true);
      JoinOne(masq);
      var p, tail := masq.pieces[0], masq.tail;
      NothingFoundIff(Existing, p.gap + tail, true);
      assert text == p.gap + (p.directive + tail);
      if Reverted(text) == Err(NOTHING_TO_REVERT) { assert Bare(text, p.gap, p.directive, tail); }
      forall before, line, after | Bare(text, before, line, after) ensures before + after == p.gap + tail {
      }
    }
  }

  /** MASQ's one line is found there, and no line is left with a directive. */
  ghost predicate Bare(text: string, before: string, line: string, after: string) {
    && Scan(MasqLine, text, true) == Scanned([Piece(before, line)], after)
    && forall k | 0 <= k <= |before + after| :: !AtLine(Existing, before + after, k, true)
  }

  lemma UncommentedCons(p: Piece, x: Scanned)
    ensures Uncommented(Scanned([p] + x.pieces, x.tail)) == Scanned([UncommentPiece(p)] + Uncommented(x).pieces, x.tail)
  {
    assert Uncommented(Scanned([p] + x.pieces, x.tail)).pieces == [UncommentPiece(p)] + Uncommented(x).pieces;
  }

  lemma {:induction false} UncommentedLength(x: Scanned)
    requires HasDirectives(x)
    ensures |Join(Uncommented(x))| + |x.pieces| == |Join(x)|
    decreases |x.pieces|
  {
    if x.pieces != [] {
      var rest := Scanned(x.pieces[1..], x.tail);
      Seqs.Uncons(x.pieces);
      UncommentedCons(x.pieces[0], rest);
      UncommentedLength(rest);
    }
  }

  /**
   So a text that reverting changes still has a directive once MASQ's line is out, and
   every directive, commented out or not, loses just one character.
   */
  lemma RevertKeepsDirective(text: string)
    requires Reverted(text).Ok? && Reverted(text).value != text
    ensures var masq := Scan(MasqLine, text, true);
      && |masq.pieces| == 1 && text == masq.pieces[0].gap + (masq.pieces[0].directive + masq.tail)
      && var kept := masq.pieces[0].gap + masq.tail;
         && (exists k :: 0 <= k <= |kept| && AtLine(Existing, kept, k, true))
         && |Reverted(text).value| + |Scan(Existing, kept, true).pieces| == |kept|
  {
    hide Scan, Uncommented, Join, AtLine, HasDirectives;
    var masq := Scan(MasqLine, text, true);
    JoinScan(MasqLine, text, true);
    JoinOne(masq);
    var kept := masq.pieces[0].gap + masq.tail;
    NothingFoundIff(Existing, kept, true);
    DirectivesAreThere(Existing, kept, true);
    JoinScan(Existing, kept, true);
    UncommentedLength(Scan(Existing, kept, true));
  }

  // --------------------------------------------------------- where subverting acts

  predicate NotMasq(directive: string) { !IsMasqIp(directive) }

  /** There is an active directive, and none is MASQ's. */
  predicate TakesEffect(text: string) {
    Scan(Active, text, true).pieces != [] && AllOf(Scan(Active, text, true), NotMasq)
  }

  /** Just then `subvert` changes the text. */
  lemma EffectIff(text: string)
    ensures TakesEffect(text) <==> Subverted(text).Ok? && Subverted(text).value != text
  {
    hide IsMasqIp, Scan, Commented, Join;
    var existing := Scan(Existing, text, true);
    JoinScan(Existing, text, true);
    CommentedGrows(existing);
  }

  lemma {:induction false} CommentedGrows(x: Scanned)
    ensures |Join(Commented(x))| >= |Join(x)|
    decreases |x.pieces|
  {
    if x.pieces != [] {
      var p, rest := x.pieces[0], Scanned(x.pieces[1..], x.tail);
      Seqs.Uncons(x.pieces);
      CommentedGrows(rest);
      JoinCommentedCons(p, rest);
      JoinCons(p, rest);
    }
  }

  lemma AppendedSplits()
    ensures APPENDED == KEYWORD + (" " + (MASQ_IP + "\n")) == MASQ_LINE + "\n" && |MASQ_LINE| == 20
    ensures MASQ_LINE == KEYWORD + (" " + MASQ_IP)
  {
  }

  lemma MasqIpIsOneWord()
    ensures forall i | 0 <= i < 9 :: !IsSpace(MASQ_IP[i])
    ensures IsSpace(' ')
  {
  }

  /** What the patterns take of the appended line. */
  lemma AppendedIsDirective()
    ensures DirectiveAhead(APPENDED)
    ensures BehindGroup(Active, APPENDED) == Some("\n")
    ensures BehindGroup(MasqLine, APPENDED) == Some([])
    ensures IsMasqIp(MASQ_LINE)
  {
    hide IsSpace, Space, Word, Suffix, IsMasqIp;
    AppendedSplits();
    MasqIpIsOneWord();
    NewlineIsSpace();
    var address := MASQ_IP + "\n";
    assert APPENDED[..10] == KEYWORD;
    Seqs.Parts(KEYWORD, " " + address);
    Seqs.Parts(KEYWORD, " " + MASQ_IP);
    Seqs.Parts(MASQ_IP, "\n");
    SpaceOver(" ", address);
    SpaceOver(" ", MASQ_IP);
    WordOver(MASQ_IP, "\n");
    MasqIpIs(MASQ_LINE);
  }

  lemma JoinLonger(x: Scanned)
    ensures Join(Commented(Longer(x))) == Join(Commented(x)) + "\n"
    decreases |x.pieces|
  {
    if x.pieces != [] {
      var p, rest := x.pieces[0], x.(pieces := x.pieces[1..]);
      Seqs.Uncons(x.pieces);
      JoinLonger(rest);
      JoinCommentedCons(p, rest);
      JoinCommentedCons(p, Longer(rest));
      var u := Join(Commented(rest));
      Seqs.Assoc("#" + p.directive, u, "\n");
      Seqs.Assoc(p.gap, ("#" + p.directive) + u, "\n");
    }
  }

  lemma FoundIs(p: Pattern, text: string, line: string, rest: string)
    requires BehindGroup(p, line + rest) == Some(rest) && Scan(p, rest, false) == Scanned([], rest)
    ensures Found(p, text, line + rest) == Scanned([Piece(text, line)], rest)
  {
    hide Scan, BehindGroup;
    Seqs.Parts(line, rest);
    Seqs.EmptyRight([Piece(text, line)]);
  }

  lemma JustOne(text: string)
    ensures BehindGroup(Active, APPENDED).Some? && BehindGroup(MasqLine, APPENDED).Some?
    ensures Found(Active, text, APPENDED) == Scanned([Piece(text, MASQ_LINE)], "\n")
    ensures Found(MasqLine, text, APPENDED) == Scanned([Piece(text, APPENDED)], [])
  {
    hide Scan, BehindGroup, Found;
    AppendedIsDirective();
    Seqs.EmptyRight(APPENDED);
    NothingInNothing(MasqLine);
    NothingInNewline();
    FoundIs(Active, text, MASQ_LINE, "\n");
    FoundIs(MasqLine, text, APPENDED, []);
  }

  lemma NothingInNothing(p: Pattern)
    ensures Scan(p, [], false) == Scanned([], []) && !Ahead(p, [])
  {
  }

  lemma NothingInNewline()
    ensures Scan(Active, "\n", false) == Scanned([], "\n")
  {
    hide Ahead, Scan, MatchesAt;
    NothingInNothing(Active);
    MatchIsAhead(Active, "\n", false);
    Seqs.EmptyRight("\n");
    ScanOn(Active, '\n', [], false);
  }

  // --------------------------------------------------------------- what subverting leaves

  /** The directives, looked for with a line break at the end as `subvert` leaves one there. */
  function Directives(text: string): Scanned { Scan(Existing, text + "\n", true) }

  /** The text with a line break, commented out, and MASQ's line. */
  lemma SubvertedIs(text: string)
    requires TakesEffect(text) && AllOf(Directives(text), Addressed)
    ensures Subverted(text) == Ok(Join(Commented(Directives(text))) + APPENDED)
    ensures EndsLine(Directives(text).tail) && Directives(text).pieces == Scan(Existing, text, true).pieces
  {
    hide IsMasqIp, Scan, Commented, Join, Addressed;
    var x := Scan(Existing, text, true);
    WithoutNewline(text, true);
    JoinLonger(x);
    Seqs.Assoc(Join(Commented(x)), "\n", APPENDED);
    var active := Scan(Active, text, true).pieces;
    assert forall i | 0 <= i < |active| :: NotMasq(active[i].directive);
  }

  /** 127.0.0.1 is the only active name server. */
  predicate OnlyMasq(text: string) {
    var active := Scan(Active, text, true).pieces;
    |active| == 1 && active[0].directive == MASQ_LINE
  }

  lemma QuietIff(x: Scanned)
    requires AllOf(x, Addressed)
    ensures AllOf(x, Quiet) <==> AllOf(x, OnItsLine)
  {
    hide Addressed, OnItsLine;
    forall i | 0 <= i < |x.pieces| ensures Quiet(x.pieces[i].directive) <==> OnItsLine(x.pieces[i].directive) {
      assert Addressed(x.pieces[i].directive);
    }
  }

  /** What is active after a subversion that missed a directive. */
  lemma MissedIsActive(text: string)
    requires TakesEffect(text) && AllOf(Directives(text), Addressed) && HasBare(Directives(text))
    ensures Subverted(text).Ok?
    ensures var active := Scan(Active, Subverted(text).value, true).pieces;
      active != [] && active[0].directive == FirstBare(Directives(text)) && NotMasq(active[0].directive)
  {
    hide IsMasqIp, Scan, Commented, Join, Addressed, FirstBare, HasBare, EndsLine, NotMasq;
    SubvertedIs(text);
    StillActive(text + "\n", true, APPENDED);
    SamePieces(Scan(Existing, text, true), Directives(text));
    WasActive(text, true, NotMasq);
  }

  lemma {:induction false} SamePieces(x: Scanned, y: Scanned)
    requires x.pieces == y.pieces
    ensures FirstBare(x) == FirstBare(y) && (HasBare(x) <==> HasBare(y))
    ensures AllOf(x, Addressed) <==> AllOf(y, Addressed)
    decreases |x.pieces|
  {
    hide OnItsLine, KeyOf, Addressed;
    if x.pieces != [] {
      SamePieces(Scanned(x.pieces[1..], x.tail), Scanned(y.pieces[1..], y.tail));
    }
  }

  /**
   For every text that subverting changes, and whose directives have their addresses:
   afterwards 127.0.0.1 is the only name server exactly when no directive had a bare `#`
   on a line above it.
   */
  lemma OnlyMasqIsActive(text: string)
    requires TakesEffect(text) && AllOf(Directives(text), Addressed)
    ensures Subverted(text).Ok?
    ensures OnlyMasq(Subverted(text).value) <==> AllOf(Directives(text), OnItsLine)
  {
    hide IsMasqIp, Scan, Commented, Join, Found, Addressed, OnItsLine, Quiet, EndsLine;
    var x := Directives(text);
    SubvertedIs(text);
    AppendedIsDirective();
    if AllOf(x, OnItsLine) {
      QuietIff(x);
      FindsAppended(Active, text + "\n", true, APPENDED);
      JustOne(Join(Commented(x)));
    } else {
      MissedIsActive(text);
    }
  }

  /** And exactly then `subvert` again changes nothing. */
  lemma SubvertTwice(text: string)
    requires TakesEffect(text) && AllOf(Directives(text), Addressed)
    ensures Subverted(text).Ok?
    ensures Subverted(Subverted(text).value) == Subverted(text) <==> AllOf(Directives(text), OnItsLine)
  {
    hide IsMasqIp, Scan, Commented, Join, Addressed, OnItsLine, TakesEffect;
    OnlyMasqIsActive(text);
    AppendedIsDirective();
    if !AllOf(Directives(text), OnItsLine) {
      MissedIsActive(text);
      FirstIsNotMasq(Subverted(text).value);
    }
  }

  lemma FirstIsNotMasq(text: string)
    requires var active := Scan(Active, text, true).pieces; active != [] && NotMasq(active[0].directive)
    ensures Subverted(text) != Ok(text)
  {
    hide IsMasqIp, Scan, Commented, Join;
    JoinScan(Existing, text, true);
    CommentedGrows(Scan(Existing, text, true));
  }

  // ------------------------------------------------------------------- the round trip

  lemma UncommentedPrepend(v: string, x: Scanned)
    ensures Uncommented(Prepend(v, x)) == Prepend(v, Uncommented(x))
  {
    if x.pieces != [] {
      var p, rest := x.pieces[0], Scanned(x.pieces[1..], x.tail);
      Seqs.Uncons(x.pieces);
      UncommentedCons(p, rest);
      UncommentedCons(Piece(v + p.gap, p.directive), rest);
      Seqs.Parts([UncommentPiece(p)], Uncommented(rest).pieces);
    }
  }

  /** A `##` stays, so the text is not what it was. */
  lemma {:induction false} FrontIsNotRestored(x: Scanned, y: Scanned)
    requires HasHash(x) && AllOf(x, WellFormed)
    ensures Join(Uncommented(FrontThen(x, y))) != Join(x)
    decreases |x.pieces|
  {
    hide HasHash, FrontThen, Join, WellFormed;
    HashIsSomewhere(x);
    var p, rest := x.pieces[0], Scanned(x.pieces[1..], x.tail);
    Seqs.Uncons(x.pieces);
    FrontCons(p, rest, y);
    HasHashCons(p, rest);
    AllOfCons(p, rest, WellFormed);
    JoinCons(p, rest);
    if StartsHash(p.directive) {
      UncommentedPrepend(p.gap + "##", y);
      JoinPrepend(p.gap + "##", Uncommented(y));
      HashesDiffer(p.gap, p.directive, Join(rest), Join(Uncommented(y)));
    } else {
      FrontIsNotRestored(rest, y);
      UncommentedCons(CommentPiece(p), FrontThen(rest, y));
      Seqs.Parts("#", p.directive);
      JoinCons(p, Uncommented(FrontThen(rest, y)));
      StillDiffer(p.gap, p.directive, Join(rest), Join(Uncommented(FrontThen(rest, y))));
    }
  }

  lemma StillDiffer(gap: string, d: string, u: string, w: string)
    requires u != w
    ensures gap + (d + u) != gap + (d + w)
  {
    Seqs.Parts(gap, d + u);
    Seqs.Parts(gap, d + w);
    Seqs.Parts(d, u);
    Seqs.Parts(d, w);
  }

  lemma HashesDiffer(gap: string, d: string, u: string, w: string)
    requires StartsHash(d) && WellFormed(d)
    ensures (gap + "##") + w != gap + (d + u)
  {
    var i := |gap| + 1;
    assert ((gap + "##") + w)[i] == '#';
    assert (gap + (d + u))[i] == d[1];
  }

  lemma RevertedFrom(text: string, masq: Scanned)
    requires masq == Scan(MasqLine, text, true)
    ensures masq.pieces == [] ==> Reverted(text) == Ok(text)
    ensures |masq.pieces| == 1 ==> forall v :: Reverted(text) == Ok(v) ==>
      v == Join(Uncommented(Scan(Existing, masq.pieces[0].gap + masq.tail, true)))
    ensures |masq.pieces| > 1 ==> Reverted(text).Err?
  {
    hide Scan, Join, Uncommented;
  }

  lemma KeptFront(front: string, x: Scanned)
    requires |Prepend(front, x).pieces| == 1
    ensures |x.pieces| == 1
    ensures Prepend(front, x).pieces[0].gap + Prepend(front, x).tail == front + (x.pieces[0].gap + x.tail)
  {
    Seqs.Assoc(front, x.pieces[0].gap, x.tail);
  }

  /** What was commented out before is not as it was. */
  lemma NotRestored(text: string)
    requires TakesEffect(text) && AllOf(Directives(text), Addressed) && HasHash(Directives(text))
    ensures Subverted(text).Ok? && Reverted(Subverted(text).value) != Ok(text + "\n")
  {
    hide IsMasqIp, Scan, Commented, Join, Uncommented, Addressed, HasHash, FrontText, FrontThen, Reverted, TakesEffect,
      Prepend;
    var x, t := Directives(text), text + "\n";
    SubvertedIs(text);
    var r := CommentedFront(x);
    var s, front, back := Subverted(text).value, FrontText(x), r + APPENDED;
    Seqs.Assoc(front, r, APPENDED);
    FrontSkip(MasqLine, t, true, back);
    var y := Scan(MasqLine, back, false);
    var masq := Scan(MasqLine, s, true);
    RevertedFrom(s, masq);
    JoinScan(Existing, t, true);
    if masq.pieces == [] {
      CommentedGrows(x);
    } else if |masq.pieces| == 1 {
      KeptFront(front, y);
      var kept := y.pieces[0].gap + y.tail;
      FrontScan(t, true, kept);
      AllWellFormed(t, true);
      FrontIsNotRestored(x, Scan(Existing, kept, false));
    }
  }

  /** What was all active before is as it was. */
  lemma Restored(text: string)
    requires TakesEffect(text) && AllOf(Directives(text), Addressed) && AllOf(Directives(text), StartsActive)
    ensures Subverted(text).Ok? && Reverted(Subverted(text).value) == Ok(text + "\n")
  {
    hide IsMasqIp, Scan, Commented, Join, Found, Uncommented, Addressed, Quiet, EndsLine, OnItsLine, StartsActive;
    SubvertedIs(text);
    var x, t := Directives(text), Join(Commented(Directives(text)));
    AllActiveAreQuiet(text + "\n", true);
    AppendedIsDirective();
    FindsAppended(MasqLine, text + "\n", true, APPENDED);
    JustOne(t);
    Seqs.EmptyRight(t);
    Rescan(text + "\n", true);
    CommentedSize(x);
    UncommentCommented(x);
    JoinScan(Existing, text + "\n", true);
    SomeDirective(text);
  }

  /** Where something is active, something is found. */
  lemma SomeDirective(text: string)
    requires TakesEffect(text) && AllOf(Directives(text), Addressed) && AllOf(Directives(text), StartsActive)
    ensures Directives(text).pieces != []
  {
    hide IsMasqIp, Scan, Commented, Join, Addressed, StartsActive, NotMasq;
    SubvertedIs(text);
    var x := Scan(Existing, text, true);
    assert AllOf(x, StartsActive) by {
      assert forall i | 0 <= i < |x.pieces| :: StartsActive(Directives(text).pieces[i].directive);
    }
    ActiveIsExisting(text, true);
  }

  lemma {:induction false} AllActiveAreQuiet(s: string, first: bool)
    requires AllOf(Scan(Existing, s, first), Addressed) && AllOf(Scan(Existing, s, first), StartsActive)
    ensures AllOf(Scan(Existing, s, first), Quiet)
    decreases |s|
  {
    hide IsSpace, BehindLead, BehindGroup, MatchesAt, Prepend, Scan, Addressed, Quiet;
    if MatchesAt(Existing, s, first) {
      var lead, d, rest := MatchParts(Existing, s, first);
      var more := Scan(Existing, rest, false);
      AllOfCons(Piece(lead, d), more, Addressed);
      AllOfCons(Piece(lead, d), more, StartsActive);
      AllOfCons(Piece(lead, d), more, Quiet);
      LeadEnds(s, first);
      ActiveIsQuiet(d, rest);
      AllActiveAreQuiet(rest, false);
    } else if s == [] {
      NothingScanned(Existing, first);
    } else {
      var y := Scan(Existing, s[1..], false);
      Seqs.Uncons(s);
      ScanOn(Existing, s[0], s[1..], first);
      AllOfPrepend([s[0]], y, Addressed);
      AllOfPrepend([s[0]], y, StartsActive);
      AllOfPrepend([s[0]], y, Quiet);
      AllActiveAreQuiet(s[1..], false);
    }
  }

  /**
   For every text that subverting changes, and whose directives have their addresses:
   `revert` undoes `subvert`, but for one line break at the end, exactly when no
   directive was commented out before.
   */
  lemma RoundTrip(text: string)
    requires TakesEffect(text) && AllOf(Directives(text), Addressed)
    ensures Subverted(text).Ok?
    ensures Reverted(Subverted(text).value) == Ok(text + "\n") <==> AllOf(Directives(text), StartsActive)
  {
    hide Subverted, Reverted, TakesEffect, Addressed, StartsActive, WellFormed, HasHash, Scan;
    AllWellFormed(text + "\n", true);
    ActiveOrHash(Directives(text));
    if AllOf(Directives(text), StartsActive) {
      Restored(text);
    } else {
      NotRestored(text);
    }
  }

  // ---------------------------------------------- reverting what was not subverted

  /** Of an active directive: its address starts as MASQ's does. */
  predicate Loopback(directive: string) {
    |directive| > 10 && MASQ_IP <= Space(directive[10..])
  }

  predicate NotLoopback(directive: string) { !Loopback(directive) }

  lemma PrefixWithin(a: string, rest: string)
    requires rest == [] || IsSpace(rest[0])
    ensures MASQ_IP <= a + rest <==> MASQ_IP <= a
  {
    hide IsSpace;
    MasqIpIsOneWord();
    if |a| < 9 && rest != [] {
      assert (a + rest)[|a|] == rest[0];
    } else if |a| >= 9 {
      assert forall i | 0 <= i < 9 :: (a + rest)[i] == a[i];
    } else {
      Seqs.EmptyRight(a);
    }
  }

  /** The address ahead is the directive's own. */
  lemma MasqGroup(d: string, rest: string)
    requires DirectiveAhead(d + rest) && BehindDirective(d + rest) == rest
    ensures BehindGroup(MasqLine, d + rest).Some? <==> Loopback(d)
  {
    hide IsSpace, DirectiveAhead, Space, BehindDirective, Suffix;
    var sp, word := KeyParts(d, rest);
    Seqs.DropFromLeft(d, rest, 10);
    Seqs.Assoc(sp, word, rest);
    AddressStart(word, rest);
    SpaceOver(sp, word + rest);
    DirectiveEndsInSpace(d + rest);
    PrefixWithin(word, rest);
  }

  lemma AddressStart(word: string, rest: string)
    requires NoSpace(word) && (word == [] ==> rest == [])
    ensures word + rest == [] || !IsSpace((word + rest)[0])
  {
    hide IsSpace;
    if word != [] { assert (word + rest)[0] == word[0]; }
  }

  lemma ActiveGroup(d: string, rest: string)
    requires BehindGroup(Active, d + rest) == Some(rest)
    ensures DirectiveAhead(d + rest) && BehindDirective(d + rest) == rest
  {
  }

  lemma KeyOfActive(d: string)
    requires d != [] && d[0] == 'n'
    ensures KeyOf(d) == d
  {
  }

  lemma MasqNeedsActive(s: string, first: bool)
    requires !MatchesAt(Active, s, first)
    ensures !MatchesAt(MasqLine, s, first)
  {
  }

  /** An active directive that is not MASQ's line is passed over. */
  lemma SkipActive(lead: string, d: string, rest: string, first: bool)
    requires AllSpace(lead) && Settled(d) && BehindGroup(Active, d + rest) == Some(rest) && !Loopback(d)
    ensures Scan(MasqLine, lead + (d + rest), first) == Prepend(lead + d, Scan(MasqLine, rest, false))
  {
    hide IsSpace, Scan, Prepend, DirectiveAhead, BehindDirective, Space, Loopback, KeyOf, BehindGroup;
    ActiveGroup(d, rest);
    MasqGroup(d, rest);
    DirectiveStart(d + rest);
    DirectiveStartsN(d + rest);
    var sp, word := KeyParts(d, rest);
    KeyOfActive(d);
    DirectiveEndsInSpace(d + rest);
    SkipLead(MasqLine, lead, d + rest, first);
    SkipKey(MasqLine, sp, word, rest);
    PrependTwice(lead, d, Scan(MasqLine, rest, false));
  }

  /** The line of MASQ is found just where an active address starts as MASQ's does. */
  lemma {:induction false} MasqLinesFound(s: string, first: bool)
    requires AllOf(Scan(Active, s, first), Settled)
    ensures Scan(MasqLine, s, first).pieces == [] <==> AllOf(Scan(Active, s, first), NotLoopback)
    decreases |s|
  {
    hide IsSpace, BehindLead, BehindGroup, MatchesAt, Scan, Prepend, Loopback, Settled;
    if MatchesAt(Active, s, first) {
      var lead, d, rest := MatchParts(Active, s, first);
      var more := Scan(Active, rest, false);
      AllOfCons(Piece(lead, d), more, Settled);
      AllOfCons(Piece(lead, d), more, NotLoopback);
      ActiveGroup(d, rest);
      MasqGroup(d, rest);
      if Loopback(d) {
        MatchIs(MasqLine, s, first, d + rest);
        MatchIsFound(MasqLine, s, first);
      } else {
        MasqLinesFound(rest, false);
        SkipActive(lead, d, rest, first);
        PrependPieces(lead + d, Scan(MasqLine, rest, false));
      }
    } else {
      MasqNeedsActive(s, first);
      if s == [] {
        NothingScanned(Active, first);
        NothingScanned(MasqLine, first);
      } else {
        var y := Scan(Active, s[1..], false);
        Seqs.Uncons(s);
        ScanOn(Active, s[0], s[1..], first);
        ScanOn(MasqLine, s[0], s[1..], first);
        AllOfPrepend([s[0]], y, Settled);
        AllOfPrepend([s[0]], y, NotLoopback);
        MasqLinesFound(s[1..], false);
        PrependPieces([s[0]], Scan(MasqLine, s[1..], false));
      }
    }
  }

  lemma MatchIs(p: Pattern, s: string, first: bool, group: string)
    requires BehindLead(s, first) == Some(group) && BehindGroup(p, group).Some?
    ensures MatchesAt(p, s, first)
  {
  }

  lemma {:induction false} JoinShrinks(x: Scanned)
    ensures |Join(Uncommented(x))| <= |Join(x)|
    decreases |x.pieces|
  {
    if x.pieces != [] {
      var p, rest := x.pieces[0], Scanned(x.pieces[1..], x.tail);
      hide Uncommented, Join;
      JoinShrinks(rest);
      Seqs.Uncons(x.pieces);
      UncommentedCons(p, rest);
      UncommentedTail(rest);
      JoinCons(UncommentPiece(p), Uncommented(rest));
      JoinCons(p, rest);
    }
  }

  lemma UncommentedTail(x: Scanned)
    ensures Uncommented(x).tail == x.tail
  {
  }

  /** `revert` leaves a text alone exactly when it finds no line of MASQ's. */
  lemma RevertActs(text: string)
    ensures Reverted(text) == Ok(text) <==> Scan(MasqLine, text, true).pieces == []
  {
    hide Loopback, Scan, Uncommented, Join;
    var masq := Scan(MasqLine, text, true);
    if |masq.pieces| == 1 {
      DirectivesAreThere(MasqLine, text, true);
      JoinScan(MasqLine, text, true);
      JoinOne(masq);
      var kept := masq.pieces[0].gap + masq.tail;
      JoinScan(Existing, kept, true);
      JoinShrinks(Scan(Existing, kept, true));
    }
  }

  lemma JoinOne(x: Scanned)
    requires |x.pieces| == 1
    ensures Join(x) == x.pieces[0].gap + (x.pieces[0].directive + x.tail)
  {
  }

  /**
   `revert` leaves a text alone exactly when no active address starts as MASQ's does: it
   looks for a prefix, where `subvert` looks for the address.
   */
  lemma RevertLeavesAlone(text: string)
    requires AllOf(Scan(Active, text, true), Settled)
    ensures Reverted(text) == Ok(text) <==> AllOf(Scan(Active, text, true), NotLoopback)
  {
    hide Loopback, Scan, Reverted, Settled;
    MasqLinesFound(text, true);
    RevertActs(text);
  }

  /** For every text: just when no line starts with the keyword and an address that starts as MASQ's does. */
  lemma RevertLeavesEveryLine(text: string)
    ensures Reverted(text) == Ok(text) <==> forall k | 0 <= k <= |text| :: !AtLine(MasqLine, text, k, true)
  {
    hide Scan, Reverted, AtLine;
    NothingFoundIff(MasqLine, text, true);
    RevertActs(text);
  }

  // --------------------------------------------------------------------- texts that fail

  predicate IsAddress(a: string) { a != [] && NoSpace(a) }

  function Line(a: string): string { KEYWORD + (" " + a) }

  lemma BlankIsSpace()
    ensures AllSpace(" ") && ' ' != '\n'
  {
  }

  /** One line with an address is a directive, active and with its address. */
  lemma LineIsDirective(a: string, w: string)
    requires IsAddress(a) && (w == [] || IsSpace(w[0]))
    ensures DirectiveAhead(Line(a) + w) && BehindDirective(Line(a) + w) == w
    ensures Line(a)[0] == 'n' && Space(Line(a)[10..]) == a && '\n' !in Line(a)
  {
    hide IsSpace, DirectiveAhead, BehindDirective, Space;
    BlankIsSpace();
    PartsAreKey(" ", a, w);
    Seqs.Parts(KEYWORD, " " + a);
    SpaceOver(" ", a);
    NoSpaceNoNewline(a);
    KeywordHasNoNewline();
    assert Line(a)[0] == KEYWORD[0];
  }

  lemma LineIsAddressed(a: string)
    requires IsAddress(a)
    ensures Addressed(Line(a)) && OnItsLine(Line(a)) && Settled(Line(a))
    ensures IsMasqIp(Line(a)) <==> a == MASQ_IP || MASQ_IP + "#" <= a
    ensures Loopback(Line(a)) <==> MASQ_IP <= a
  {
    hide IsSpace, Space, KeyOf, IsMasqIp;
    LineIsDirective(a, []);
    KeyOfActive(Line(a));
    MasqIpIs(Line(a));
  }

  lemma LineIsFound(p: Pattern, lead: string, a: string, rest: string, first: bool)
    requires p != MasqLine && IsAddress(a) && (rest == [] || IsSpace(rest[0]))
    requires AllSpace(lead) && (first || (lead != [] && lead[0] == '\n'))
    ensures var more := Scan(p, rest, false);
      Scan(p, lead + (Line(a) + rest), first) == Scanned([Piece(lead, Line(a))] + more.pieces, more.tail)
  {
    hide IsSpace, DirectiveAhead, BehindDirective, Space, Scan, Line;
    LineIsDirective(a, rest);
    DirectiveStart(Line(a) + rest);
    DirectiveIsExisting(Line(a) + rest);
    if first {
      SpaceOver(lead, Line(a) + rest);
    } else {
      Seqs.TailOfConcat(lead, Line(a) + rest);
      SpaceOver(lead[1..], Line(a) + rest);
    }
    ScanMatch(p, lead, Line(a), rest, first);
  }

  lemma NothingInSpace(p: Pattern, s: string)
    requires AllSpace(s)
    ensures Scan(p, s, false) == Scanned([], s)
  {
    hide IsSpace, Scan;
    NothingInNothing(p);
    NothingAtAll(p);
    SkipLead(p, s, [], false);
    Seqs.EmptyRight(s);
  }

  lemma NothingAtAll(p: Pattern)
    ensures BehindGroup(p, []).None?
  {
  }

  /** Starts as MASQ's address does, and goes on otherwise than with a comment. */
  predicate OnlyStartsAsMasq(a: string) {
    IsAddress(a) && MASQ_IP <= a && a != MASQ_IP && !(MASQ_IP + "#" <= a)
  }

  lemma LooseLine(a: string)
    requires OnlyStartsAsMasq(a)
    ensures NotMasq(Line(a)) && !NotLoopback(Line(a)) && Settled(Line(a))
  {
    hide Line, IsMasqIp, Loopback, Settled;
    LineIsAddressed(a);
  }

  lemma AllOfOne(gap: string, d: string, ok: string -> bool)
    ensures AllOf(Scanned([Piece(gap, d)] + [], []), ok) <==> ok(d)
  {
    AllOfCons(Piece(gap, d), Scanned([], []), ok);
  }

  /** With such an address nothing is subverted, and `revert` still acts. */
  lemma LooserThanSubvert(a: string)
    requires OnlyStartsAsMasq(a)
    ensures TakesEffect(Line(a)) && Reverted(Line(a)) != Ok(Line(a))
  {
    hide IsSpace, Scan, Line, Settled, Reverted, NotMasq, NotLoopback, AllOf, NoSpace;
    LooseLine(a);
    Seqs.EmptyRight(Line(a));
    Seqs.EmptyLeft(Line(a));
    BareLine();
    LineIsFound(Active, [], a, [], true);
    NothingInNothing(Active);
    AllOfOne([], Line(a), NotMasq);
    AllOfOne([], Line(a), Settled);
    AllOfOne([], Line(a), NotLoopback);
    RevertLeavesAlone(Line(a));
  }

  /** Two directives, and a bare `#` on the line between them. */
  function BareHash(a: string, b: string): string { Line(a) + ("\n" + (("#\n" + Line(b)) + "\n")) }

  lemma BareLine()
    ensures AllSpace("\n") && AllSpace("\n\n") && AllSpace([]) && !IsSpace('#') && IsHead("#\n")
    ensures "#\n" == "#" + ("\n" + []) && "\n\n" == "\n" + "\n"
  {
  }

  lemma BareKey(b: string)
    requires IsAddress(b)
    ensures Addressed("#\n" + Line(b)) && !OnItsLine("#\n" + Line(b)) && !StartsActive("#\n" + Line(b))
  {
    hide IsSpace, Space, Line;
    var d := "#\n" + Line(b);
    LineIsDirective(b, []);
    BareLine();
    assert d == "#" + ("\n" + Line(b));
    HashDrops("\n" + Line(b));
    DirectiveStart(Line(b) + []);
    Seqs.EmptyRight(Line(b));
    SpaceOver("\n", Line(b));
    Seqs.Parts("#\n", Line(b));
    assert HeadOf(d) == "#\n" && HeadOf(d)[1] == '\n';
  }

  /** The directives found there: the second one with its `#`. */
  lemma BareDirectives(a: string, b: string)
    requires IsAddress(a) && IsAddress(b)
    ensures Directives(BareHash(a, b))
         == Scanned([Piece([], Line(a)), Piece("\n", "#\n" + Line(b))], "\n\n")
  {
    hide IsSpace, Scan, Line, BehindGroup, BehindDirective, DirectiveAhead, Space;
    BareLine();
    var d := "#\n" + Line(b);
    var rest := "\n" + (d + "\n\n");
    Seqs.Assoc(d, "\n", "\n");
    Seqs.Assoc("\n", d + "\n", "\n");
    Seqs.Assoc(Line(a), "\n" + (d + "\n"), "\n");
    Seqs.EmptyLeft(Line(a) + rest);
    LineIsFound(Existing, [], a, rest, true);
    LineIsDirective(b, "\n\n");
    HeadThenDirective("#\n", Line(b) + "\n\n");
    Seqs.Assoc("#\n", Line(b), "\n\n");
    LeadThenHash(d + "\n\n");
    ScanMatch(Existing, "\n", d, "\n\n", false);
    NothingInSpace(Existing, "\n\n");
    Seqs.EmptyRight([Piece("\n", d)]);
    assert [Piece([], Line(a))] + [Piece("\n", d)] == [Piece([], Line(a)), Piece("\n", d)];
  }

  lemma LeadThenHash(y: string)
    requires y != [] && y[0] == '#'
    ensures BehindLead("\n" + y, false) == Some(y)
  {
    hide IsSpace;
    HashIsNoSpace();
    Seqs.Parts("\n", y);
  }

  /** Both are active. */
  lemma BareActive(a: string, b: string)
    requires IsAddress(a) && IsAddress(b) && NotMasq(Line(a)) && NotMasq(Line(b))
    ensures TakesEffect(BareHash(a, b))
  {
    hide IsSpace, Scan, Line, BehindDirective, DirectiveAhead, Space, IsMasqIp, Prepend;
    BareLine();
    var d := "#\n" + Line(b);
    var rest := "\n" + (d + "\n");
    Seqs.EmptyLeft(Line(a) + rest);
    LineIsFound(Active, [], a, rest, true);
    LineIsDirective(b, "\n");
    Seqs.Assoc("#\n", Line(b), "\n");
    BareIsFound("\n", "#", [], Line(b), "\n", false);
    NothingInSpace(Active, "\n");
    var more := Scan(Active, rest, false);
    var last := Scanned([Piece("\n" + [], Line(b))] + [], "\n");
    AllOfCons(Piece("\n" + [], Line(b)), Scanned([], "\n"), NotMasq);
    AllOfPrepend("\n" + "#", last, NotMasq);
    AllOfCons(Piece([], Line(a)), more, NotMasq);
  }

  /**
   There the `#` that is to comment the second directive out goes in front of the bare
   one: it stays active, a second `subvert` does not keep the text, and `revert` does
   not bring it back.
   */
  lemma BareHashFails(a: string, b: string)
    requires IsAddress(a) && IsAddress(b) && NotMasq(Line(a)) && NotMasq(Line(b))
    ensures var text := BareHash(a, b);
      && Subverted(text).Ok?
      && !OnlyMasq(Subverted(text).value)
      && Subverted(Subverted(text).value) != Subverted(text)
      && Reverted(Subverted(text).value) != Ok(text + "\n")
  {
    hide Line, BareHash, Scan, Subverted, Reverted, OnlyMasq, Addressed, OnItsLine, StartsActive, TakesEffect, NotMasq;
    BareActive(a, b);
    BareDirectives(a, b);
    LineIsAddressed(a);
    BareKey(b);
    var x := Directives(BareHash(a, b));
    assert x.pieces[1].directive == "#\n" + Line(b);
    OnlyMasqIsActive(BareHash(a, b));
    SubvertTwice(BareHash(a, b));
    RoundTrip(BareHash(a, b));
  }

  lemma NotMasqLine(a: string)
    requires IsAddress(a) && !(MASQ_IP <= a)
    ensures NotMasq(Line(a))
  {
    hide Line, IsMasqIp;
    LineIsAddressed(a);
  }

  /** Addresses for which this happens, and one that `revert` takes for MASQ's. */
  lemma SuchAddresses()
    ensures IsAddress("1.1.1.1") && NotMasq(Line("1.1.1.1"))
    ensures IsAddress("8.8.8.8") && NotMasq(Line("8.8.8.8"))
    ensures OnlyStartsAsMasq("127.0.0.12")
  {
    hide Line, NotMasq;
    ShortWords();
    NotMasqLine("1.1.1.1");
    NotMasqLine("8.8.8.8");
  }

  lemma ShortWords()
    ensures IsAddress("1.1.1.1") && !(MASQ_IP <= "1.1.1.1")
    ensures IsAddress("8.8.8.8") && !(MASQ_IP <= "8.8.8.8")
    ensures OnlyStartsAsMasq("127.0.0.12")
  {
    assert "127.0.0.12"[9] != (MASQ_IP + "#")[9];
  }
}
