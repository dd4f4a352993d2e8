/** Conditions on groups that can be checked by inspection, and what they decide. */
module PatternGroups {
  import opened Options
  import opened PatternSyntax
  import opened PatternLanguage
  import opened PatternComplete
  import opened PatternExact

  predicate IsProperPrefix(a: string, b: string) {
    a <= b && |a| < |b|
  }

  /** No alternative is a proper prefix of another one of its group. */
  predicate PrefixFree(alts: seq<string>) {
    forall a, b | a in alts && b in alts :: !IsProperPrefix(a, b)
  }

  predicate AllPrefixFree(ts: seq<Token>) {
    forall t | t in ts && t.Group? :: PrefixFree(t.alts)
  }

  /** No alternative shadows a later one: one with a proper prefix before it stands before
      that prefix as well. */
  predicate InOrder(alts: seq<string>) {
    forall i, j | 0 <= i < j < |alts| && IsProperPrefix(alts[i], alts[j]) :: alts[j] in alts[..i]
  }

  /** The texts of t can begin with c. */
  predicate CanStart(t: Token, c: char) {
    match t
    case Slash => c == '/'
    case Lit(d) => c == d
    case Group(alts) => exists a | a in alts :: a != [] && a[0] == c
    case _ => true
  }

  /** What follows the group at the head of ts can never be taken for the rest of a longer
      alternative: so at the end of a segment, before a literal that continues no alternative,
      and everywhere if alternatives do not overlap. */
  predicate Separated(ts: seq<Token>)
    requires ts != [] && ts[0].Group?
  {
    |ts| == 1 ||
    forall y, z | y in ts[0].alts && z in ts[0].alts && IsProperPrefix(y, z) :: !CanStart(ts[1], z[|y|])
  }

  predicate BadGroup(ts: seq<Token>)
    requires ts != []
  {
    ts[0].Group? && Separated(ts) && !InOrder(ts[0].alts)
  }

  /** No separated group has a shadowed alternative. */
  predicate GroupsOk(ts: seq<Token>) {
    ts == [] || (!BadGroup(ts) && GroupsOk(ts[1..]))
  }

  /** Every group is separated from what follows it, or stands before a star. */
  predicate ClearGroups(ts: seq<Token>) {
    ts == [] ||
    ((ts[0].Group? ==> Separated(ts) || ts[1].Star?) && ClearGroups(ts[1..]))
  }

  lemma PrefixFreeInOrder(alts: seq<string>)
    requires PrefixFree(alts)
    ensures InOrder(alts)
  {
  }

  lemma {:induction false} PrefixFreeIsOk(ts: seq<Token>)
    requires AllPrefixFree(ts)
    ensures ClearGroups(ts) && GroupsOk(ts)
    decreases |ts|
  {
    if ts != [] {
      assert ts[0] in ts;
      PrefixFreeIsOk(ts[1..]);
      if ts[0].Group? {
        PrefixFreeInOrder(ts[0].alts);
      }
    }
  }

  // ---------- Alternatives in order ----------

  lemma {:induction false} FirstAltIndex(alts: seq<string>, s: string) returns (i: nat)
    requires FirstAlt(alts, s).Some?
    ensures i < |alts| && alts[i] == FirstAlt(alts, s).value && forall k | 0 <= k < i :: !(alts[k] <= s)
  {
    if alts[0] <= s {
      i := 0;
    } else {
      i := FirstAltIndex(alts[1..], s);
      i := i + 1;
    }
  }

  lemma FirstAltOfItself(alts: seq<string>, y: string)
    requires InOrder(alts) && y in alts
    ensures FirstAlt(alts, y) == Some(y)
  {
    FirstAltFinds(alts, y, y);
    var i := FirstAltIndex(alts, y);
    var j :| 0 <= j < |alts| && alts[j] == y;
    BehindItsPrefix(alts, i, j);
    assert forall k | 0 <= k < i :: alts[..i + 1][k] == alts[k];
  }

  lemma BehindItsPrefix(alts: seq<string>, i: nat, j: nat)
    requires InOrder(alts) && i <= j < |alts| && alts[i] <= alts[j]
    ensures alts[j] in alts[..i + 1]
  {
    if alts[i] == alts[j] {
      assert alts[..i + 1][i] == alts[j];
    } else {
      assert IsProperPrefix(alts[i], alts[j]);
      assert alts[..i + 1] == alts[..i] + [alts[i]];
    }
  }

  lemma OrderFromChoice(alts: seq<string>, i: nat, y: string)
    requires i < |alts| && IsProperPrefix(alts[i], y) && FirstAlt(alts, y) == Some(y)
    ensures y in alts[..i]
  {
    var m := FirstAltIndex(alts, y);
    hide FirstAlt;
    assert m <= i && m != i;
    assert alts[..i][m] == y;
  }

  /** A shadowed alternative is one that the matcher does not choose on its own text. */
  lemma InOrderIff(alts: seq<string>)
    ensures InOrder(alts) <==> forall y | y in alts :: FirstAlt(alts, y) == Some(y)
  {
    if InOrder(alts) {
      forall y | y in alts
        ensures FirstAlt(alts, y) == Some(y)
      {
        FirstAltOfItself(alts, y);
      }
    } else {
      var i, j :| 0 <= i < j < |alts| && IsProperPrefix(alts[i], alts[j]) && alts[j] !in alts[..i];
      assert alts[j] in alts;
      if FirstAlt(alts, alts[j]) == Some(alts[j]) {
        OrderFromChoice(alts, i, alts[j]);
      }
    }
  }

  lemma PrefixBefore(a: string, y: string, w: string)
    requires IsProperPrefix(y, a) && w != [] ==> a[|y|] != w[0]
    ensures a <= y + w <==> a <= y
  {
    var s := y + w;
    assert s[..|y|] == y && (w != [] ==> s[|y|] == w[0]);
    assert |a| <= |y| ==> s[..|a|] == y[..|a|];
    assert |a| > |y| && a[..|y|] == y ==> IsProperPrefix(y, a);
  }

  /** Where no alternative goes on with what follows y, the choice does not depend on it. */
  lemma {:induction false} ChoiceBefore(alts: seq<string>, y: string, w: string)
    requires forall a | a in alts && IsProperPrefix(y, a) && w != [] :: a[|y|] != w[0]
    ensures FirstAlt(alts, y + w) == FirstAlt(alts, y)
  {
    if alts != [] {
      assert alts[0] in alts;
      PrefixBefore(alts[0], y, w);
      ChoiceBefore(alts[1..], y, w);
    }
  }

  // ---------- Fair groups ----------

  lemma FirstCharacter(ts: seq<Token>, w: string)
    requires Legal(ts) && Matches(ts, w) && w != []
    ensures ts != [] && CanStart(ts[0], w[0])
  {
    var k := MatchesUncons(ts, w);
    assert LegalToken(ts[0]);
    DenotedText(ts[0], w[..k]);
    if k > 0 {
      assert w[..k][0] == w[0];
    }
  }

  lemma SeparatedChoice(ts: seq<Token>, y: string, w: string)
    requires Legal(ts) && ts != [] && ts[0].Group? && Separated(ts) && y in ts[0].alts && Matches(ts[1..], w)
    ensures FirstAlt(ts[0].alts, y + w) == FirstAlt(ts[0].alts, y)
  {
    if w != [] {
      FirstCharacter(ts[1..], w);
    }
    ChoiceBefore(ts[0].alts, y, w);
  }

  lemma InOrderIsFair(ts: seq<Token>)
    requires Legal(ts) && ts != [] && ts[0].Group? && Separated(ts) && InOrder(ts[0].alts)
    ensures FairGroup(ts)
  {
    forall y, w | y in ts[0].alts && GoodText(ts[1..], w, false)
      ensures Matches(ts[1..], AfterChoice(ts[0].alts, y + w))
    {
      SeparatedChoice(ts, y, w);
      FirstAltOfItself(ts[0].alts, y);
      assert (y + w)[|y|..] == w;
    }
  }

  lemma ShadowedIsUnfair(ts: seq<Token>)
    requires Legal(ts) && ts != [] && NoDoubleSlash(ts, false) && BadGroup(ts)
    ensures !FairGroup(ts)
  {
    var alts, w := ts[0].alts, Sample(ts[1..]);
    SampleIsGood(ts[1..], false);
    InOrderIff(alts);
    var y :| y in alts && FirstAlt(alts, y) != Some(y);
    FirstAltFinds(alts, y, y);
    var z := FirstAlt(alts, y).value;
    SeparatedChoice(ts, y, w);
    assert |z| == |y| ==> z == y;
    assert IsProperPrefix(z, y);
    var u := AfterChoice(alts, y + w);
    assert u[0] == y[|z|];
    if Matches(ts[1..], u) {
      FirstCharacter(ts[1..], u);
      assert false;
    }
  }

  /** A group that is separated from what follows it is fair exactly if its alternatives are in
      order. */
  lemma FairIffInOrder(ts: seq<Token>)
    requires Legal(ts) && ts != [] && NoDoubleSlash(ts, false) && ts[0].Group? && Separated(ts)
    ensures FairGroup(ts) <==> InOrder(ts[0].alts)
  {
    if InOrder(ts[0].alts) {
      InOrderIsFair(ts);
    } else {
      ShadowedIsUnfair(ts);
    }
  }

  /** A star behind a group makes up for whatever the group takes. */
  lemma StarAbsorbs(ts: seq<Token>, s: string)
    requires Legal(ts) && |ts| > 1 && ts[0].Group? && ts[1].Star? && EndsSegment(ts[1..])
    requires Matches(ts, s) && s != [] && s[0] != '/'
    ensures LegalToken(ts[0]) && Bite(ts[0], s).Some? && Matches(ts[1..], s[Bite(ts[0], s).value..])
  {
    var k := MatchesUncons(ts, s);
    var j := MatchesUncons(ts[1..], s[k..]);
    assert LegalToken(ts[0]);
    DenotedText(ts[0], s[..k]);
    FirstAltFinds(ts[0].alts, s, s[..k]);
    assert s[k..][j..] == s[k + j..];
    EndOfSegment(ts[1..], s[k + j..]);
    AbsorbedPieces(s, k, j, Bite(ts[0], s).value);
    MatchesCons(ts[1..], s[Bite(ts[0], s).value..], k + j - Bite(ts[0], s).value);
  }

  lemma WithinSegment(s: string, b: nat, n: nat)
    requires b <= |s| && n <= |s| && NoSlash(s[..b]) && (n < |s| ==> s[n] == '/')
    ensures b <= n
  {
    forall k | 0 <= k < b
      ensures s[k] != '/'
    {
      assert s[..b][k] == s[k];
    }
  }

  lemma AbsorbedPieces(s: string, k: nat, j: nat, b: nat)
    requires k + j <= |s| && b <= |s| && NoSlash(s[..k]) && NoSlash(s[k..][..j]) && NoSlash(s[..b])
    requires k + j < |s| ==> s[k + j] == '/'
    ensures b <= k + j && NoSlash(s[b..][..k + j - b]) && s[b..][k + j - b..] == s[k + j..]
  {
    var n := k + j;
    assert s[..n] == s[..k] + s[k..][..j];
    WithinSegment(s, b, n);
    assert s[b..][..n - b] == s[..n][b..];
    TailHasNoSlash(s[..n], b);
  }

  lemma TailHasNoSlash(s: string, b: nat)
    requires b <= |s| && NoSlash(s)
    ensures NoSlash(s[b..])
  {
    forall i | 0 <= i < |s| - b
      ensures s[b..][i] != '/'
    {
      assert s[b..][i] == s[b + i] && s[b + i] in s;
    }
  }

  lemma BeforeStarIsFair(ts: seq<Token>)
    requires Legal(ts) && |ts| > 1 && ts[0].Group? && ts[1].Star? && EndsSegment(ts[1..])
    ensures FairGroup(ts)
  {
    forall y, w | y in ts[0].alts && GoodText(ts[1..], w, false)
      ensures Matches(ts[1..], AfterChoice(ts[0].alts, y + w))
    {
      var s := y + w;
      assert LegalToken(ts[0]);
      AltIsPiece(ts[0], y);
      assert s[..|y|] == y && s[|y|..] == w && s[0] == y[0];
      MatchesCons(ts, s, |y|);
      StarAbsorbs(ts, s);
    }
  }

  lemma {:induction false} FairIsOk(ts: seq<Token>, atStart: bool)
    requires Legal(ts) && NoDoubleSlash(ts, atStart) && AllFair(ts)
    ensures GroupsOk(ts)
    decreases |ts|
  {
    if ts != [] {
      FairIsOk(ts[1..], ts[0].Slash?);
      if BadGroup(ts) {
        ShadowedIsUnfair(ts);
        assert false;
      }
    }
  }

  lemma {:induction false} OkIsFair(ts: seq<Token>, atStart: bool)
    requires Legal(ts) && StarsOk(ts, atStart) && ClearGroups(ts) && GroupsOk(ts)
    ensures AllFair(ts)
    decreases |ts|
  {
    if ts != [] {
      OkIsFair(ts[1..], ts[0].Slash?);
      if ts[0].Group? {
        if Separated(ts) {
          InOrderIsFair(ts);
        } else {
          BeforeStarIsFair(ts);
        }
      }
    }
  }

  // ---------- Patterns that can be judged by inspection ----------

  lemma ShadowedAlternativeIncomplete(ts: seq<Token>)
    requires Legal(ts) && SegmentsNonEmpty(ts) && !GroupsOk(ts)
    ensures !Complete(ts)
  {
    CompleteIffFair(ts);
    ShapeOfRest(ts, false);
    if AllFair(ts) {
      FairIsOk(ts, false);
      assert false;
    }
  }

  /** With every group separated from what follows it or before a star: the matcher finds every
      match exactly if every star is well placed and no separated group has a shadowed
      alternative. */
  lemma CompleteIff(ts: seq<Token>)
    requires Legal(ts) && SegmentsNonEmpty(ts) && ClearGroups(ts)
    ensures Complete(ts) <==> StarsOk(ts, false) && GroupsOk(ts)
  {
    CompleteIffFair(ts);
    FairIffOk(ts);
  }

  lemma FairIffOk(ts: seq<Token>)
    requires Legal(ts) && SegmentsNonEmpty(ts) && ClearGroups(ts)
    ensures StarsOk(ts, false) ==> (AllFair(ts) <==> GroupsOk(ts))
  {
    ShapeOfRest(ts, false);
    if StarsOk(ts, false) && GroupsOk(ts) {
      OkIsFair(ts, false);
    } else if AllFair(ts) {
      FairIsOk(ts, false);
    }
  }

  /** For the same patterns: the matcher decides the language itself exactly if, moreover, no
      segment before the last is made of stars only. */
  lemma ExactIff(ts: seq<Token>)
    requires Legal(ts) && SegmentsNonEmpty(ts) && ClearGroups(ts)
    ensures Exact(ts) <==> StarsOk(ts, false) && GroupsOk(ts) && !HasStarSegment(ts, false)
  {
    ExactIffFair(ts);
    FairIffOk(ts);
  }

  /** With groups free of overlaps only the stars matter. */
  lemma CompleteIffStarsOk(ts: seq<Token>)
    requires Legal(ts) && SegmentsNonEmpty(ts) && AllPrefixFree(ts)
    ensures Complete(ts) <==> StarsOk(ts, false)
  {
    PrefixFreeIsOk(ts);
    CompleteIff(ts);
  }

  // ---------- A group in all its surroundings ----------

  /** The patterns in which a group can stand with nothing else to go wrong. */
  ghost predicate FairContext(pre: seq<Token>, t: Token, post: seq<Token>) {
    var ts := pre + [t] + post;
    Legal(ts) && SegmentsNonEmpty(ts) && StarsOk(ts, false) && AllPrefixFree(pre) && AllPrefixFree(post)
  }

  ghost predicate SafeGroup(alts: seq<string>) {
    forall pre, post | FairContext(pre, Group(alts), post) :: Complete(pre + [Group(alts)] + post)
  }

  lemma {:induction false} NoStars(ts: seq<Token>, atStart: bool)
    requires forall t | t in ts :: !t.Star?
    ensures StarsOk(ts, atStart)
    decreases |ts|
  {
    if ts != [] {
      assert ts[0] in ts;
      NoStars(ts[1..], ts[0].Slash?);
    }
  }

  /** The group after the leading slash, with nothing or one single text behind it. */
  lemma GroupAlone(t: Token, post: seq<Token>)
    requires t.Group? && LegalToken(t)
    requires post == [] || exists w :: LegalAlt(w) && post == [Group([w])]
    ensures FairContext([Slash], t, post)
  {
    NoStars([Slash] + [t] + post, false);
    assert AllPrefixFree([Slash]) && AllPrefixFree(post);
  }

  lemma Incomplete(ts: seq<Token>, y: string)
    requires ts != [] && ts[0].Slash? && LegalAlt(y) && Matches(ts[1..], y) && !Commit(ts[1..], y, true)
    ensures !Complete(ts)
  {
    var s := "/" + y;
    assert s[1..] == y && s[..1] == "/";
    MatchesCons(ts, s, 1);
    assert forall k | 0 <= k < |y| :: LegalAltChar(y[k]);
    assert forall k | 1 <= k < |s| :: s[k] == y[k - 1] && s[k] != '/';
    assert NoEmptySegment(s) && CString(s);
  }

  /** On the text y, nothing after the group loses y if a shorter alternative is taken, and
      the rest of y after it loses x if y is taken. */
  lemma OverlapLoses(alts: seq<string>, x: string, y: string)
    requires LegalToken(Group(alts)) && x in alts && y in alts && IsProperPrefix(x, y)
    ensures !SafeGroup(alts)
  {
    var t, w := Group(alts), y[|x|..];
    assert LegalAlt(y) && y[0] in y;
    assert LegalAlt(w) by {
      assert forall c | c in w :: c in y;
    }
    FirstAltFinds(alts, y, y);
    var z := FirstAlt(alts, y).value;
    var post := if z == y then [Group([w])] else [];
    var ts := [Slash] + [t] + post;
    GroupAlone(t, post);
    hide StarsOk, LegalAlt;
    assert ts[1..] == [t] + post && ts[1..][1..] == post;
    if z == y {
      OneToken(Group([w]), w);
      assert y[..|x|] == x && y[|x|..] == w;
      MatchesCons(ts[1..], y, |x|);
    } else {
      assert y[..|y|] == y && y[|y|..] == [];
      MatchesCons(ts[1..], y, |y|);
    }
    assert !Commit(post, y[|z|..], false);
    Incomplete(ts, y);
  }

  lemma OneToken(t: Token, s: string)
    requires Denotes(t, s)
    ensures Matches([t], s)
  {
    assert s[..|s|] == s && s[|s|..] == [];
    MatchesCons([t], s, |s|);
  }

  /** A group is safe wherever it stands exactly if no alternative is a proper prefix of
      another one. */
  lemma SafeGroupIff(alts: seq<string>)
    requires LegalToken(Group(alts))
    ensures SafeGroup(alts) <==> PrefixFree(alts)
  {
    if PrefixFree(alts) {
      forall pre, post | FairContext(pre, Group(alts), post)
        ensures Complete(pre + [Group(alts)] + post)
      {
        CompleteIffStarsOk(pre + [Group(alts)] + post);
      }
    } else {
      var x, y :| x in alts && y in alts && IsProperPrefix(x, y);
      OverlapLoses(alts, x, y);
    }
  }

  // ---------- Examples ----------

  /** The order of alternatives matters, at the end of a segment and inside: /{ab,a} and
      /{ab,a}c find every match, /{a,ab} loses /ab and /{a,ab}c loses /abc. */
  lemma OrderMatters()
    ensures Complete([Slash, Group(["ab", "a"])]) && !Complete([Slash, Group(["a", "ab"])])
    ensures Complete([Slash, Group(["ab", "a"]), Lit('c')]) && !Complete([Slash, Group(["a", "ab"]), Lit('c')])
  {
    hide Complete;
    TwoAlts("ab", "a", []);
    TwoAlts("a", "ab", []);
    assert [Slash, Group(["ab", "a"])] + [] == [Slash, Group(["ab", "a"])];
    assert [Slash, Group(["a", "ab"])] + [] == [Slash, Group(["a", "ab"])];
    assert [Slash, Group(["ab", "a"])] + [Lit('c')] == [Slash, Group(["ab", "a"]), Lit('c')];
    assert [Slash, Group(["a", "ab"])] + [Lit('c')] == [Slash, Group(["a", "ab"]), Lit('c')];
    TwoAlts("ab", "a", [Lit('c')]);
    TwoAlts("a", "ab", [Lit('c')]);
  }

  /** A slash, two alternatives, and nothing or a character that continues neither. */
  lemma TwoAlts(a: string, b: string, rest: seq<Token>)
    requires LegalAlt(a) && LegalAlt(b)
    requires rest == [] || (|rest| == 1 && rest[0].Lit? && LegalLit(rest[0].c))
    requires rest != [] ==> rest[0].c !in a && rest[0].c !in b
    ensures Complete([Slash, Group([a, b])] + rest) <==> !IsProperPrefix(a, b)
  {
    var alts := [a, b];
    var ts := [Slash, Group(alts)] + rest;
    assert ts[1..] == [Group(alts)] + rest && ts[1..][1..] == rest && (rest != [] ==> rest[1..] == []);
    assert alts[..0] == [];
    assert InOrder(alts) <==> !IsProperPrefix(alts[0], alts[1]);
    assert Separated(ts[1..]) && !BadGroup(ts);
    assert GroupsOk(rest) && ClearGroups(rest);
    assert GroupsOk(ts) <==> GroupsOk(ts[1..]);
    assert ClearGroups(ts) <==> ClearGroups(ts[1..]);
    assert GroupsOk(ts[1..]) <==> !BadGroup(ts[1..]);
    NoStars(ts, false);
    CompleteIff(ts);
  }

  /** Fair groups beyond those: /{a,ab}?* finds every match, although ab is shadowed and any
      character may follow. */
  lemma FairThoughShadowed()
    ensures var ts := [Slash, Group(["a", "ab"]), AnyChar, Star]; Complete(ts) && !ClearGroups(ts)
  {
    var ts := [Slash, Group(["a", "ab"]), AnyChar, Star];
    var alts := ["a", "ab"];
    var tail := [AnyChar, Star];
    assert ts[1..] == [Group(alts)] + tail && ts[1..][1..] == tail && tail[1..] == [Star] && [Star][1..] == [];
    assert IsProperPrefix(alts[0], alts[1]) && !Separated(ts[1..]);
    FairBeforeAnything(ts[1..]);
    hide FairGroup, Complete, Separated;
    assert AllFair([]) && AllFair([Star]) && AllFair(tail) && AllFair(ts[1..]) && AllFair(ts);
    assert !ClearGroups(ts[1..]);
    NoBadStar();
    CompleteIffFair(ts);
  }

  lemma NoBadStar()
    ensures var ts := [Slash, Group(["a", "ab"]), AnyChar, Star];
            Legal(ts) && SegmentsNonEmpty(ts) && StarsOk(ts, false)
  {
    var ts := [Slash, Group(["a", "ab"]), AnyChar, Star];
    assert ts[1..][1..][1..] == [Star];
    assert StarsOk(ts[1..][1..][1..], false) && StarsOk(ts[1..][1..], false);
    assert LegalAlt("a") && LegalAlt("ab");
  }

  lemma FairBeforeAnything(ts: seq<Token>)
    requires ts == [Group(["a", "ab"]), AnyChar, Star]
    ensures FairGroup(ts)
  {
    var alts, tail := ["a", "ab"], [AnyChar, Star];
    assert ts[1..] == tail;
    forall y, w | y in alts && GoodText(tail, w, false)
      ensures Matches(tail, AfterChoice(alts, y + w))
    {
      SomeCharacters(w);
      ChoosesA(y, w);
      SomeCharacters(AfterChoice(alts, y + w));
    }
  }

  lemma ChoosesA(y: string, w: string)
    requires y in ["a", "ab"] && w != [] && NoSlash(w)
    ensures var u := AfterChoice(["a", "ab"], y + w); u != [] && NoSlash(u)
  {
    var s := y + w;
    assert s[..1] == "a";
    assert FirstAlt(["a", "ab"], s) == Some("a");
  }

  lemma SomeCharacters(w: string)
    ensures Matches([AnyChar, Star], w) <==> w != [] && NoSlash(w)
  {
    var ts := [AnyChar, Star];
    assert ts[1..] == [Star];
    if Matches(ts, w) {
      var k := MatchesUncons(ts, w);
      var j := MatchesUncons([Star], w[k..]);
      assert w == w[..k] + w[k..][..j];
    }
    if w != [] && NoSlash(w) {
      OneToken(Star, w[1..]);
      MatchesCons(ts, w, 1);
    }
  }
}
