/** On which patterns the committing matcher of ideas/pattern.c finds every match. */
module PatternComplete {
  import opened Options
  import opened PatternSyntax
  import opened PatternLanguage

  /** The matcher answers 1 exactly on the texts of the language without an empty segment
      before the last. */
  ghost predicate Complete(ts: seq<Token>) {
    forall s | CString(s) :: MatchTokens(ts, s) <==> Matches(ts, s) && NoEmptySegment(s)
  }

  /** A star ends its segment, or is the first of exactly two that are a whole segment
      before another one. The flag says that the segment begins here. */
  predicate StarsOk(ts: seq<Token>, atStart: bool)
    decreases |ts|
  {
    if ts == [] then true
    else if BadStar(ts, atStart) then false
    else StarsOk(ts[1..], ts[0].Slash?)
  }

  /** The star at the head of ts is neither of these. */
  predicate BadStar(ts: seq<Token>, atStart: bool)
    requires ts != []
  {
    && ts[0].Star? && |ts| > 1 && !ts[1].Slash?
    && !(atStart && ts[1].Star? && |ts| > 2 && ts[2].Slash?)
  }

  predicate EndsSegment(ts: seq<Token>)
    requires ts != []
  {
    |ts| == 1 || ts[1].Slash?
  }

  /** A text that a token string stands for, of the kind C strings and matches can have. */
  ghost predicate GoodText(ts: seq<Token>, s: string, atStart: bool) {
    Matches(ts, s) && NoEmptyFrom(s, atStart) && CString(s)
  }

  /** What the matcher goes on with after its choice of an alternative. */
  function AfterChoice(alts: seq<string>, s: string): string {
    var a := FirstAlt(alts, s);
    if a.None? then s else s[|a.value|..]
  }

  /** Whatever alternative of the group at the head of ts a text begins with, and whatever text
      of the remaining pattern follows it: the choice leaves a text of the remaining pattern. */
  ghost predicate FairGroup(ts: seq<Token>)
    requires ts != [] && ts[0].Group?
  {
    forall y, w | y in ts[0].alts && GoodText(ts[1..], w, false) ::
      Matches(ts[1..], AfterChoice(ts[0].alts, y + w))
  }

  /** Every group is fair at its place. */
  ghost predicate AllFair(ts: seq<Token>) {
    ts == [] || ((ts[0].Group? ==> FairGroup(ts)) && AllFair(ts[1..]))
  }

  // ---------- With good stars and fair groups, nothing is missed ----------

  lemma {:induction false} OnlyStarsMatchNothing(ts: seq<Token>)
    requires Legal(ts) && Matches(ts, [])
    ensures forall t | t in ts :: t.Star?
    decreases |ts|
  {
    if ts != [] {
      var k := MatchesUncons(ts, []);
      assert ""[..k] == [] == ""[k..];
      assert LegalToken(ts[0]);
      DenotedText(ts[0], []);
      OnlyStarsMatchNothing(ts[1..]);
      assert ts == [ts[0]] + ts[1..];
    }
  }

  /** At a slash, a matching pattern has its own slash, perhaps after stars that match nothing. */
  lemma AtSlash(ts: seq<Token>, s: string)
    requires Legal(ts) && Matches(ts, s) && s != [] && s[0] == '/'
    ensures ts != [] && (ts[0].Slash? || ts[0].Star?)
    ensures ts[0].Slash? ==> Matches(ts[1..], s[1..])
    ensures ts[0].Star? ==> Matches(ts[1..], s)
  {
    var k := MatchesUncons(ts, s);
    assert LegalToken(ts[0]);
    DenotedText(ts[0], s[..k]);
    if k > 0 {
      assert s[..k][0] == '/';
    }
    assert s[0..] == s;
  }

  /** What follows a token that ends its segment. */
  lemma EndOfSegment(ts: seq<Token>, rest: string)
    requires ts != [] && EndsSegment(ts) && Matches(ts[1..], rest)
    ensures rest != [] ==> rest[0] == '/'
  {
    if |ts| > 1 {
      SlashHead(ts[1..], rest);
    }
  }

  lemma AfterFairChoice(ts: seq<Token>, s: string, atStart: bool)
    requires Legal(ts) && ts != [] && ts[0].Group? && FairGroup(ts) && GoodText(ts, s, atStart)
    requires s != [] && s[0] != '/'
    ensures LegalToken(ts[0]) && Bite(ts[0], s).Some? && Matches(ts[1..], s[Bite(ts[0], s).value..])
  {
    var k := MatchesUncons(ts, s);
    var y, w := s[..k], s[k..];
    assert LegalToken(ts[0]);
    DenotedText(ts[0], y);
    NoEmptyRest(s, k, atStart, false);
    assert s == y + w;
    assert GoodText(ts[1..], w, false);
    FirstAltFinds(ts[0].alts, s, y);
  }

  /** Inside a segment, the bite of a character token is the only piece it can have. */
  lemma CharacterIsForced(ts: seq<Token>, s: string)
    requires Legal(ts) && ts != [] && Matches(ts, s) && s != [] && s[0] != '/' && !ts[0].Star? && !ts[0].Group?
    ensures LegalToken(ts[0]) && Bite(ts[0], s).Some? && Matches(ts[1..], s[Bite(ts[0], s).value..])
  {
    var k := MatchesUncons(ts, s);
    assert LegalToken(ts[0]);
    DenotedText(ts[0], s[..k]);
    assert s[..k][0] == s[0];
  }

  lemma SlashHead(ts: seq<Token>, s: string)
    requires ts != [] && ts[0].Slash? && Matches(ts, s)
    ensures s != [] && s[0] == '/'
  {
    var k := MatchesUncons(ts, s);
    assert s[..k] == "/";
  }

  /** A star that ends its segment can only have the rest of the segment. */
  lemma LastStarIsForced(ts: seq<Token>, s: string)
    requires Legal(ts) && ts != [] && ts[0].Star? && Matches(ts, s)
    requires |ts| == 1 || ts[1].Slash?
    ensures Matches(ts[1..], s[SegmentLength(s)..])
  {
    var k := MatchesUncons(ts, s);
    if |ts| > 1 {
      SlashHead(ts[1..], s[k..]);
    }
    SegmentLengthUnique(s, k);
  }

  /** The first of two stars before a slash may have it all as well. */
  lemma FirstOfTwoStars(ts: seq<Token>, s: string)
    requires Legal(ts) && |ts| > 2 && ts[0].Star? && ts[1].Star? && ts[2].Slash? && Matches(ts, s)
    ensures Matches(ts[1..], s[SegmentLength(s)..])
  {
    var k := MatchesUncons(ts, s);
    var j := MatchesUncons(ts[1..], s[k..]);
    TwoStarPieces(ts, s, k, j);
  }

  lemma TwoStarPieces(ts: seq<Token>, s: string, k: nat, j: nat)
    requires |ts| > 2 && ts[1].Star? && ts[2].Slash? && k <= |s| && j <= |s[k..]|
    requires NoSlash(s[..k]) && NoSlash(s[k..][..j]) && Matches(ts[1..][1..], s[k..][j..])
    ensures Matches(ts[1..], s[SegmentLength(s)..])
  {
    var n := k + j;
    assert s[k..][j..] == s[n..] && s[..n] == s[..k] + s[k..][..j];
    SlashHead(ts[1..][1..], s[n..]);
    SegmentLengthUnique(s, n);
    assert s[n..][..0] == [] && s[n..][0..] == s[n..];
    MatchesCons(ts[1..], s[n..], 0);
  }

  lemma NoEmptyRest(s: string, k: nat, atStart: bool, after: bool)
    requires 0 < k <= |s| && NoEmptyFrom(s, atStart) && (after ==> s[k - 1] == '/')
    ensures NoEmptyFrom(s[k..], after)
  {
    if after && k < |s| {
      assert s[k - 1] == '/' ==> s[(k - 1) + 1] != '/';
    }
  }

  /** From any point of a pattern with well placed stars and fair groups the matcher finds every
      remaining match. */
  lemma {:induction false} CommitComplete(ts: seq<Token>, s: string, atStart: bool)
    requires Legal(ts) && GoodText(ts, s, atStart) && StarsOk(ts, atStart) && AllFair(ts)
    ensures Commit(ts, s, atStart)
    decreases |ts|
  {
    if ts == [] {
    } else if s == [] {
      OnlyStarsMatchNothing(ts);
      assert forall i | 0 <= i < |ts| :: ts[i] in ts;
    } else if s[0] == '/' {
      AtSlash(ts, s);
      NoEmptyRest(s, 1, atStart, true);
      if ts[0].Slash? {
        CommitComplete(ts[1..], s[1..], true);
      } else {
        AtSlash(ts[1..], s);
        assert ts[1..][1..] == ts[2..];
        CommitComplete(ts[2..], s[1..], true);
      }
    } else {
      var n := BiteAndGo(ts, s, atStart);
      NoEmptyRest(s, n, atStart, false);
      CommitBites(ts, s, atStart);
      CommitComplete(ts[1..], s[n..], false);
    }
  }

  lemma BiteAndGo(ts: seq<Token>, s: string, atStart: bool) returns (n: nat)
    requires Legal(ts) && ts != [] && GoodText(ts, s, atStart) && s != [] && s[0] != '/'
    requires StarsOk(ts, atStart) && AllFair(ts)
    ensures LegalToken(ts[0]) && Bite(ts[0], s) == Some(n) && 0 < n <= |s| && Matches(ts[1..], s[n..])
    ensures StarsOk(ts[1..], false) && AllFair(ts[1..])
  {
    if ts[0].Group? {
      AfterFairChoice(ts, s, atStart);
    } else if !ts[0].Star? {
      CharacterIsForced(ts, s);
    } else if EndsSegment(ts) {
      LastStarIsForced(ts, s);
    } else {
      FirstOfTwoStars(ts, s);
    }
    n := Bite(ts[0], s).value;
  }
}
