/** The conditions of PatternComplete are exact, for every accepted pattern: a star placed
    otherwise always loses a match, and so does an unfair group. */
module PatternExact {
  import opened Options
  import opened PatternSyntax
  import opened PatternLanguage
  import opened PatternComplete

  // ---------- A text for every pattern ----------

  ghost predicate IsPiece(t: Token, s: string) {
    s != [] && CString(s) && Denotes(t, s) && (s[|s| - 1] == '/' <==> t.Slash?) && (s[0] == '/' <==> t.Slash?)
  }

  function Piece(t: Token): (s: string)
    requires LegalToken(t)
    ensures IsPiece(t, s)
  {
    match t
    case Slash => "/"
    case Lit(c) => [c]
    case AnyChar => "a"
    case Star => "a"
    case Group(alts) =>
      assert LegalAlt(alts[0]);
      assert alts[0][0] in alts[0] && alts[0][|alts[0]| - 1] in alts[0];
      alts[0]
  }

  function Sample(ts: seq<Token>): string
    requires Legal(ts)
  {
    if ts == [] then [] else
      assert LegalToken(ts[0]);
      Piece(ts[0]) + Sample(ts[1..])
  }

  /** No slash token follows a slash, the one that may precede ts included. */
  predicate NoDoubleSlash(ts: seq<Token>, atStart: bool) {
    ts == [] || (!(atStart && ts[0].Slash?) && NoDoubleSlash(ts[1..], ts[0].Slash?))
  }

  lemma {:induction false} ShapeOfRest(ts: seq<Token>, atStart: bool)
    requires forall k | 0 <= k < |ts| - 1 :: !(ts[k].Slash? && ts[k + 1].Slash?)
    requires atStart && ts != [] ==> !ts[0].Slash?
    ensures NoDoubleSlash(ts, atStart)
    decreases |ts|
  {
    if ts != [] {
      assert |ts| > 1 ==> !(ts[0].Slash? && ts[0 + 1].Slash?);
      forall k | 0 <= k < |ts[1..]| - 1
        ensures !(ts[1..][k].Slash? && ts[1..][k + 1].Slash?)
      {
        assert !(ts[k + 1].Slash? && ts[(k + 1) + 1].Slash?);
      }
      ShapeOfRest(ts[1..], ts[0].Slash?);
    }
  }

  lemma GoodCons(ts: seq<Token>, p: string, rest: string, atStart: bool)
    requires Legal(ts) && ts != [] && NoDoubleSlash(ts, atStart) && GoodText(ts[1..], rest, ts[0].Slash?)
    requires IsPiece(ts[0], p)
    ensures GoodText(ts, p + rest, atStart)
  {
    assert LegalToken(ts[0]);
    var s := p + rest;
    assert s[..|p|] == p && s[|p|..] == rest;
    MatchesCons(ts, s, |p|);
    assert NoEmptyFrom(p, atStart) by {
      if !ts[0].Slash? {
        DenotedText(ts[0], p);
      }
    }
    NoEmptyAfter(p, rest, atStart, ts[0].Slash?);
  }

  lemma {:induction false} SampleIsGood(ts: seq<Token>, atStart: bool)
    requires Legal(ts) && NoDoubleSlash(ts, atStart)
    ensures GoodText(ts, Sample(ts), atStart)
    decreases |ts|
  {
    if ts != [] {
      SampleIsGood(ts[1..], ts[0].Slash?);
      assert LegalToken(ts[0]);
      GoodCons(ts, Piece(ts[0]), Sample(ts[1..]), atStart);
    }
  }

  // ---------- A badly placed star or an unfair group always loses a match ----------

  ghost predicate WellPlaced(ts: seq<Token>, atStart: bool) {
    StarsOk(ts, atStart) && AllFair(ts)
  }

  /** An alternative and a text behind it on which the choice of the group goes wrong. */
  ghost function Unfair(ts: seq<Token>): (r: (string, string))
    requires ts != [] && ts[0].Group? && !FairGroup(ts)
    ensures r.0 in ts[0].alts && GoodText(ts[1..], r.1, false)
    ensures !Matches(ts[1..], AfterChoice(ts[0].alts, r.0 + r.1))
  {
    var y, w :| y in ts[0].alts && GoodText(ts[1..], w, false) && !Matches(ts[1..], AfterChoice(ts[0].alts, y + w));
    (y, w)
  }

  /** The first badly placed star or unfair group decides. Two stars that end a segment are
      made to match nothing; any other bad star matches a character, after which the matcher
      skips what must follow it; an unfair group gets a text on which its choice goes wrong. */
  ghost function Lost(ts: seq<Token>, atStart: bool): string
    requires Legal(ts) && !WellPlaced(ts, atStart)
    decreases |ts|
  {
    if BadStar(ts, atStart) then
      if ts[1].Star? && (|ts| == 2 || ts[2].Slash?) then Sample(ts[2..]) else Sample(ts)
    else if ts[0].Group? && !FairGroup(ts) then Unfair(ts).0 + Unfair(ts).1
    else
      assert LegalToken(ts[0]);
      Piece(ts[0]) + Lost(ts[1..], ts[0].Slash?)
  }

  /** Two stars that end a segment: the text in which both stand for nothing. */
  lemma TwoStarsLose(ts: seq<Token>, atStart: bool)
    requires Legal(ts) && |ts| > 1 && NoDoubleSlash(ts, atStart) && ts[0].Star? && ts[1].Star?
    requires |ts| == 2 || (ts[2].Slash? && !atStart)
    ensures GoodText(ts, Sample(ts[2..]), atStart) && !Commit(ts, Sample(ts[2..]), atStart)
  {
    var s := Sample(ts[2..]);
    assert ts[1..][1..] == ts[2..] && NoDoubleSlash(ts[1..][1..], false);
    SampleIsGood(ts[2..], false);
    hide NoDoubleSlash, Legal, Matches;
    assert s[..0] == [] && s[0..] == s;
    MatchesCons(ts[1..], s, 0);
    MatchesCons(ts, s, 0);
  }

  lemma BadStarLoses(ts: seq<Token>, atStart: bool)
    requires Legal(ts) && ts != [] && NoDoubleSlash(ts, atStart) && BadStar(ts, atStart)
    ensures GoodText(ts, Lost(ts, atStart), atStart) && !Commit(ts, Lost(ts, atStart), atStart)
  {
    hide GoodText, NoDoubleSlash;
    if ts[1].Star? && (|ts| == 2 || ts[2].Slash?) {
      TwoStarsLose(ts, atStart);
    } else {
      SampleIsGood(ts, atStart);
      assert Sample(ts)[0] == 'a';
      CommitBites(ts, Sample(ts), atStart);
    }
  }

  lemma AltIsPiece(t: Token, y: string)
    requires LegalToken(t) && t.Group? && y in t.alts
    ensures IsPiece(t, y) && NoSlash(y)
  {
    DenotedText(t, y);
    assert LegalAlt(y);
    assert y[0] in y && y[|y| - 1] in y;
  }

  /** If the matcher went on after its choice to the end, the rest would be a text of the
      remaining pattern. */
  lemma UnfairLoses(ts: seq<Token>, atStart: bool)
    requires Legal(ts) && ts != [] && NoDoubleSlash(ts, atStart) && ts[0].Group? && !FairGroup(ts)
    ensures GoodText(ts, Lost(ts, atStart), atStart) && !Commit(ts, Lost(ts, atStart), atStart)
  {
    assert LegalToken(ts[0]);
    var (y, w) := Unfair(ts);
    var s := y + w;
    AltIsPiece(ts[0], y);
    GoodCons(ts, y, w, atStart);
    CommitBites(ts, s, atStart);
    FirstAltFinds(ts[0].alts, s, y);
    var rest := AfterChoice(ts[0].alts, s);
    assert rest == s[Bite(ts[0], s).value..];
    if Commit(ts[1..], rest, false) {
      CommitSound(ts[1..], rest, false);
    }
  }

  lemma GroupBitesFirst(t: Token, rest: string)
    requires LegalToken(t) && t.Group?
    ensures Bite(t, Piece(t) + rest) == Some(|Piece(t)|)
  {
    assert t.alts[0] <= t.alts[0] + rest;
  }

  /** A good star's piece, and whatever else precedes the first badly placed token, is what
      the matcher takes. */
  lemma {:induction false} MisplacedLoses(ts: seq<Token>, atStart: bool)
    requires Legal(ts) && NoDoubleSlash(ts, atStart) && !WellPlaced(ts, atStart)
    ensures GoodText(ts, Lost(ts, atStart), atStart) && !Commit(ts, Lost(ts, atStart), atStart)
    decreases |ts|
  {
    if BadStar(ts, atStart) {
      BadStarLoses(ts, atStart);
    } else if ts[0].Group? && !FairGroup(ts) {
      UnfairLoses(ts, atStart);
    } else {
      var rest := Lost(ts[1..], ts[0].Slash?);
      MisplacedLoses(ts[1..], ts[0].Slash?);
      assert LegalToken(ts[0]);
      var p, s := Piece(ts[0]), Piece(ts[0]) + rest;
      GoodCons(ts, p, rest, atStart);
      assert s[|p|..] == rest;
      if ts[0].Slash? {
      } else if ts[0].Star? {
        GoodStarPasses(ts, atStart);
      } else {
        CommitBites(ts, s, atStart);
        if ts[0].Group? {
          GroupBitesFirst(ts[0], rest);
        }
      }
    }
  }

  lemma GoodStarPasses(ts: seq<Token>, atStart: bool)
    requires Legal(ts) && ts != [] && ts[0].Star? && !BadStar(ts, atStart) && !WellPlaced(ts, atStart)
    requires !Commit(ts[1..], Lost(ts[1..], false), false)
    ensures !Commit(ts, Lost(ts, atStart), atStart)
  {
    var rest := Lost(ts[1..], false);
    var s := "a" + rest;
    assert ts[1..] != [];
    if ts[1].Slash? {
      assert rest[0] == '/';
      SegmentLengthUnique(s, 1);
      assert s[1..] == rest;
    } else {
      var after := Lost(ts[2..], false);
      assert ts[1..][1..] == ts[2..] && ts[2..][1..] == ts[3..] && ts[1..][2..] == ts[3..];
      assert rest == "a" + after && after[0] == '/';
      SegmentLengthUnique(s, 2);
      SegmentLengthUnique(rest, 1);
      assert s[2..] == after && rest[1..] == after;
    }
  }

  /** The text that a badly placed star or alternative loses is one of the language, without
      empty inner segments. */
  lemma MisplacedTextLost(ts: seq<Token>) returns (s: string)
    requires Legal(ts) && SegmentsNonEmpty(ts) && !WellPlaced(ts, false)
    ensures CString(s) && Matches(ts, s) && NoEmptySegment(s) && !MatchTokens(ts, s)
  {
    ShapeOfRest(ts, false);
    MisplacedLoses(ts, false);
    s := Lost(ts, false);
    assert Commit(ts, s, false) == MatchTokens(ts, s) by {
      SlashHead(ts, s);
    }
  }

  lemma MisplacedStarIncomplete(ts: seq<Token>)
    requires Legal(ts) && SegmentsNonEmpty(ts) && !StarsOk(ts, false)
    ensures !Complete(ts)
  {
    var s := MisplacedTextLost(ts);
  }

  /** For every accepted pattern: the matcher finds every match exactly if every star is well
      placed and every group is fair. */
  lemma CompleteIffFair(ts: seq<Token>)
    requires Legal(ts) && SegmentsNonEmpty(ts)
    ensures Complete(ts) <==> StarsOk(ts, false) && AllFair(ts)
  {
    if WellPlaced(ts, false) {
      forall s | CString(s)
        ensures MatchTokens(ts, s) <==> Matches(ts, s) && NoEmptySegment(s)
      {
        if MatchTokens(ts, s) {
          TokenizeComplete(ts);
          MatchIsSound(Print(ts), s);
        } else if Matches(ts, s) && NoEmptySegment(s) {
          SlashHead(ts, s);
          CommitComplete(ts, s, false);
        }
      }
    } else {
      var s := MisplacedTextLost(ts);
    }
  }

  // ---------- Empty segments of the input ----------

  /** Some segment before the last is made of stars only, so that it stands for the empty
      text; starsOnly says so of the part of the segment that precedes ts. */
  predicate HasStarSegment(ts: seq<Token>, starsOnly: bool) {
    ts != [] &&
    if ts[0].Slash? then starsOnly || HasStarSegment(ts[1..], true)
    else HasStarSegment(ts[1..], starsOnly && ts[0].Star?)
  }

  lemma {:induction false} NoStarSegmentNoGap(ts: seq<Token>, s: string, starsOnly: bool)
    requires Legal(ts) && Matches(ts, s) && !HasStarSegment(ts, starsOnly)
    ensures NoEmptyFrom(s, starsOnly)
    decreases |ts|
  {
    EmptyHasNoGap(starsOnly);
    hide NoEmptyFrom, NoSlash, Matches;
    if ts == [] {
      MatchesNothing(s);
    } else {
      var k := MatchesUncons(ts, s);
      assert LegalToken(ts[0]);
      DenotedText(ts[0], s[..k]);
      NoStarSegmentNoGap(ts[1..], s[k..], if ts[0].Slash? then true else starsOnly && ts[0].Star?);
      if k == 0 {
        assert s[0..] == s;
      } else {
        assert s == s[..k] + s[k..] && s[0] == s[..k][0];
        PieceHasNoGap(ts[0], s[..k], starsOnly);
        NoEmptyInside(s[k..], if ts[0].Slash? then true else starsOnly && ts[0].Star?, ts[0].Slash?);
        NoEmptyAfter(s[..k], s[k..], starsOnly, ts[0].Slash?);
      }
    }
  }

  lemma EmptyHasNoGap(atStart: bool)
    ensures NoEmptyFrom([], atStart)
  {
  }

  lemma NoEmptyInside(s: string, atStart: bool, after: bool)
    requires NoEmptyFrom(s, atStart) && (after ==> atStart)
    ensures NoEmptyFrom(s, after)
  {
  }

  lemma MatchesNothing(s: string)
    requires Matches([], s)
    ensures s == []
  {
  }

  lemma PieceHasNoGap(t: Token, p: string, starsOnly: bool)
    requires LegalToken(t) && Denotes(t, p) && p != [] && (t.Slash? ==> !starsOnly)
    ensures NoEmptyFrom(p, starsOnly) && (p[|p| - 1] == '/' ==> t.Slash?)
  {
    DenotedText(t, p);
  }

  /** The text in which every star stands for nothing. */
  function Thin(ts: seq<Token>): string
    requires Legal(ts)
  {
    if ts == [] then [] else
      assert LegalToken(ts[0]);
      (if ts[0].Star? then [] else Piece(ts[0])) + Thin(ts[1..])
  }

  lemma {:induction false} ThinMatches(ts: seq<Token>)
    requires Legal(ts)
    ensures Matches(ts, Thin(ts)) && CString(Thin(ts))
    decreases |ts|
  {
    if ts != [] {
      ThinMatches(ts[1..]);
      assert LegalToken(ts[0]);
      var p := if ts[0].Star? then [] else Piece(ts[0]);
      assert Thin(ts)[..|p|] == p && Thin(ts)[|p|..] == Thin(ts[1..]);
      MatchesCons(ts, Thin(ts), |p|);
    }
  }

  lemma GapStays(p: string, s: string, after: bool)
    requires p != [] && !NoEmptyFrom(s, after) && (after ==> p[|p| - 1] == '/')
    ensures !NoEmptySegment(p + s)
  {
    if !NoEmptySegment(s) {
      var k :| 0 <= k < |s| - 1 && s[k] == '/' && s[k + 1] == '/';
      assert (p + s)[|p| + k] == '/' && (p + s)[(|p| + k) + 1] == '/';
    } else {
      assert (p + s)[|p| - 1] == '/' && (p + s)[(|p| - 1) + 1] == '/';
    }
  }

  lemma {:induction false} StarSegmentLeavesGap(ts: seq<Token>, starsOnly: bool)
    requires Legal(ts) && HasStarSegment(ts, starsOnly)
    ensures !NoEmptyFrom(Thin(ts), starsOnly)
    decreases |ts|
  {
    assert LegalToken(ts[0]);
    if ts[0].Slash? {
      if !starsOnly {
        StarSegmentLeavesGap(ts[1..], true);
        GapStays("/", Thin(ts[1..]), true);
      }
    } else if ts[0].Star? {
      StarSegmentLeavesGap(ts[1..], starsOnly);
      assert Thin(ts) == Thin(ts[1..]);
    } else {
      StarSegmentLeavesGap(ts[1..], false);
      GapStays(Piece(ts[0]), Thin(ts[1..]), false);
    }
  }

  /** The matcher answers 1 exactly on the language. */
  ghost predicate Exact(ts: seq<Token>) {
    forall s | CString(s) :: MatchTokens(ts, s) <==> Matches(ts, s)
  }

  /** For every accepted pattern: the matcher decides the language itself exactly if, moreover,
      no segment before the last is made of stars only. */
  lemma ExactIffFair(ts: seq<Token>)
    requires Legal(ts) && SegmentsNonEmpty(ts)
    ensures Exact(ts) <==> StarsOk(ts, false) && AllFair(ts) && !HasStarSegment(ts, false)
  {
    CompleteIffFair(ts);
    if !WellPlaced(ts, false) {
      var s := MisplacedTextLost(ts);
    } else if HasStarSegment(ts, false) {
      ThinMatches(ts);
      StarSegmentLeavesGap(ts, false);
      assert !MatchTokens(ts, Thin(ts));
    } else {
      forall s | CString(s) && Matches(ts, s)
        ensures NoEmptySegment(s)
      {
        NoStarSegmentNoGap(ts, s, false);
      }
    }
  }
}
