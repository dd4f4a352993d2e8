/** What the verifier and the matcher of ideas/pattern.c say of texts, character by character. */
module PatternTexts {
  import opened Options
  import opened PatternSyntax
  import opened PatternVerify
  import opened PatternLanguage
  import opened PatternComplete
  import opened PatternExact
  import opened PatternGroups

  // ---------- Static patterns ----------

  /** A slash first, none last, no two in a row. */
  predicate SlashesApart(s: string) {
    && s != [] && s[0] == '/' && s[|s| - 1] != '/'
    && forall k | 0 <= k < |s| - 1 :: !(s[k] == '/' && s[k + 1] == '/')
  }

  /** The token that a plain character stands for. */
  function PlainToken(c: char): Token {
    if c == '/' then Slash else Lit(c)
  }

  function PlainTokens(s: string): (ts: seq<Token>)
    ensures |ts| == |s| && forall k | 0 <= k < |s| :: ts[k] == PlainToken(s[k])
  {
    seq(|s|, k requires 0 <= k < |s| => PlainToken(s[k]))
  }

  lemma {:induction false} PlainTokensPrint(s: string)
    ensures Print(PlainTokens(s)) == s
    decreases |s|
  {
    if s != [] {
      PlainTokensPrint(s[1..]);
      assert PlainTokens(s)[1..] == PlainTokens(s[1..]);
      assert s == [s[0]] + s[1..];
    }
  }

  lemma PlainCons(c: char, s: string)
    ensures PlainTokens([c] + s) == [PlainToken(c)] + PlainTokens(s)
  {
  }

  /** Without metacharacters, a token string is its text. */
  lemma {:induction false} NoMetaIsPlain(ts: seq<Token>)
    requires Legal(ts) && !HasMeta(ts)
    ensures ts == PlainTokens(Print(ts))
    decreases |ts|
  {
    hide PlainTokens;
    if ts == [] {
      NothingIsPlain();
    } else {
      var t, rest := ts[0], ts[1..];
      assert LegalToken(t) && !IsMeta(t);
      assert forall u | u in rest :: u in ts;
      NoMetaIsPlain(rest);
      var c := if t.Slash? then '/' else t.c;
      assert PrintToken(t) == [c] && PlainToken(c) == t;
      PlainCons(c, Print(rest));
      assert ts == [t] + rest;
    }
  }

  lemma NothingIsPlain()
    ensures PlainTokens([]) == [] && Print([]) == []
  {
  }

  lemma SegmentsOfPlain(s: string)
    ensures SegmentsNonEmpty(PlainTokens(s)) <==> SlashesApart(s)
  {
    var ts := PlainTokens(s);
    assert forall k | 0 <= k < |s| :: ts[k].Slash? <==> s[k] == '/';
    if SegmentsNonEmpty(ts) {
      forall k | 0 <= k < |s| - 1
        ensures !(s[k] == '/' && s[k + 1] == '/')
      {
        assert !(ts[k].Slash? && ts[k + 1].Slash?);
      }
    }
  }

  lemma PlainIsLegal(s: string)
    requires forall c | c in s :: c !in " #*,?[]{}\0"
    ensures Legal(PlainTokens(s)) && !HasMeta(PlainTokens(s))
  {
    forall t | t in PlainTokens(s)
      ensures LegalToken(t) && !IsMeta(t)
    {
      var k :| 0 <= k < |s| && PlainTokens(s)[k] == t;
      assert s[k] in s;
    }
  }

  lemma LegalIsPlain(ts: seq<Token>, c: char)
    requires Legal(ts) && !HasMeta(ts) && c in Print(ts)
    ensures c !in " #*,?[]{}\0"
  {
    NoMetaIsPlain(ts);
    var k :| 0 <= k < |Print(ts)| && Print(ts)[k] == c;
    assert LegalToken(ts[k]);
  }

  /** Static patterns are exactly the C strings that begin with a slash, do not end with one, have
      no two in a row, and hold none of these characters. */
  lemma StaticIff(s: string)
    ensures VerdictOf(s) == Static <==>
            && s != [] && s[0] == '/' && s[|s| - 1] != '/'
            && (forall k | 0 <= k < |s| - 1 :: !(s[k] == '/' && s[k + 1] == '/'))
            && (forall c | c in s :: c !in " #*,?[]{}\0")
  {
    hide Tokenize, Legal, HasMeta, SegmentsNonEmpty;
    if VerdictOf(s) == Static {
      TokenizeSound(s);
      var ts := Tokens(s);
      NoMetaIsPlain(ts);
      SegmentsOfPlain(s);
      forall c | c in s
        ensures c !in " #*,?[]{}\0"
      {
        LegalIsPlain(ts, c);
      }
    }
    if SlashesApart(s) && forall c | c in s :: c !in " #*,?[]{}\0" {
      PlainIsLegal(s);
      SegmentsOfPlain(s);
      PlainTokensPrint(s);
      TokenizeComplete(PlainTokens(s));
    }
  }

  // ---------- Groups ----------

  /** The text of a pattern that is a single group. */
  function GroupText(body: string): string {
    "/{" + body + "}"
  }

  /** These words, with commas between them. */
  function Joined(words: seq<string>): string
    requires words != []
  {
    if |words| == 1 then words[0] else words[0] + "," + Joined(words[1..])
  }

  lemma TailIsBody(words: seq<string>)
    requires words != []
    ensures Tail(words) == "," + Body(words)
  {
    var rest := Tail(words[1..]);
    assert "," + words[0] + rest == "," + (words[0] + rest);
  }

  lemma {:induction false} JoinedIsBody(words: seq<string>)
    requires words != []
    ensures Body(words) == Joined(words) + "}"
    decreases |words|
  {
    hide Tail;
    if |words| == 1 {
      assert words[1..] == [];
      OneWord();
    } else {
      var rest := words[1..];
      TailIsBody(rest);
      JoinedIsBody(rest);
      assert words[0] + ("," + (Joined(rest) + "}")) == words[0] + "," + Joined(rest) + "}";
    }
  }

  lemma OneWord()
    ensures Tail([]) == "}"
  {
  }

  lemma PrintPair(t: Token)
    ensures Print([Slash, t]) == "/" + PrintToken(t)
  {
    assert [Slash, t][1..] == [t] && [t][1..] == [];
    assert Print([t]) == PrintToken(t) + [];
  }

  lemma GroupTokens(words: seq<string>)
    requires words != [] && forall w | w in words :: LegalAlt(w)
    ensures Tokenize(GroupText(Joined(words))) == Some([Slash, Group(words)])
    ensures VerdictOf(GroupText(Joined(words))) == Dynamic
  {
    var ts := [Slash, Group(words)];
    JoinedIsBody(words);
    assert ts[1..] == [Group(words)] && ts[1..][1..] == [];
    PrintPair(Group(words));
    assert "/" + ("{" + (Joined(words) + "}")) == GroupText(Joined(words));
    assert Legal(ts);
    TokenizeComplete(ts);
    assert IsMeta(ts[1]) && ts[1] in ts;
  }

  /** A non-empty word without these characters; it may have [ and {. */
  predicate GroupWord(w: string) {
    w != [] && forall c | c in w :: c !in "/ #*,?]}\0"
  }

  /** Any list of such words is a group. */
  lemma GroupIsDynamic(words: seq<string>)
    requires words != [] && forall w | w in words :: GroupWord(w)
    ensures VerdictOf(GroupText(Joined(words))) == Dynamic
  {
    forall w | w in words
      ensures LegalAlt(w)
    {
    }
    GroupTokens(words);
  }

  lemma RefusedAtBrace(body: string)
    requires ParseBody(body, []).None?
    ensures VerdictOf("/{" + body) == Invalid
  {
    var s := "/{" + body;
    assert s == "/" + ("{" + body) && ("{" + body)[1..] == body;
    TokenizeStep(Slash, "{" + body);
  }

  lemma {:induction false} BadCharacterStops(u: string, c: char, v: string, cur: string)
    requires '}' !in u && c in "/ #*?]"
    ensures ParseBody(u + [c] + v, cur).None?
    decreases |u|
  {
    var s := u + [c] + v;
    if u != [] {
      assert s[0] == u[0] && u[0] in u;
      assert s[1..] == u[1..] + [c] + v;
      BadCharacterStops(u[1..], c, v, if u[0] == ',' then [] else cur + [u[0]]);
    }
  }

  /** Each of these inside the braces makes the pattern invalid, whatever precedes it in the group
      and whatever follows. */
  lemma BadCharacterInGroup(u: string, c: char, v: string)
    requires '}' !in u && c in "/ #*?]"
    ensures VerdictOf("/{" + u + [c] + v) == Invalid
  {
    BadCharacterStops(u, c, v, []);
    assert "/{" + u + [c] + v == "/{" + (u + [c] + v);
    RefusedAtBrace(u + [c] + v);
  }

  lemma {:induction false} EmptyWordStops(u: string, c: char, v: string, cur: string)
    requires '}' !in u && c in ",}" && (if u == [] then cur == [] else u[|u| - 1] == ',')
    ensures ParseBody(u + [c] + v, cur).None?
    decreases |u|
  {
    var s := u + [c] + v;
    if u != [] {
      assert s[0] == u[0] && u[0] in u;
      assert s[1..] == u[1..] + [c] + v;
      EmptyWordStops(u[1..], c, v, if u[0] == ',' then [] else cur + [u[0]]);
    }
  }

  /** So does an empty word: a comma or the closing brace at the beginning or behind a comma. */
  lemma EmptyWordInGroup(u: string, c: char, v: string)
    requires '}' !in u && c in ",}" && (u != [] ==> u[|u| - 1] == ',')
    ensures VerdictOf("/{" + u + [c] + v) == Invalid
  {
    EmptyWordStops(u, c, v, []);
    assert "/{" + u + [c] + v == "/{" + (u + [c] + v);
    RefusedAtBrace(u + [c] + v);
  }

  lemma {:induction false} UnclosedStops(u: string, cur: string)
    requires '}' !in u
    ensures ParseBody(u, cur).None?
    decreases |u|
  {
    if u != [] {
      assert u[0] in u;
      UnclosedStops(u[1..], if u[0] == ',' then [] else cur + [u[0]]);
    }
  }

  /** So does a group that is never closed. */
  lemma UnclosedGroup(u: string)
    requires '}' !in u
    ensures VerdictOf("/{" + u) == Invalid
  {
    UnclosedStops(u, []);
    RefusedAtBrace(u);
  }

  lemma {:induction false} BodyEndsAtBrace(u: string, v: string, cur: string)
    requires '}' !in u && ParseBody(u + "}" + v, cur).Some?
    ensures ParseBody(u + "}" + v, cur).value.1 == v
    decreases |u|
  {
    var s := u + "}" + v;
    if u == [] {
      assert s[1..] == v;
    } else {
      assert s[0] == u[0] && u[0] in u;
      assert s[1..] == u[1..] + "}" + v;
      BodyEndsAtBrace(u[1..], v, if u[0] == ',' then [] else cur + [u[0]]);
    }
  }

  lemma {:induction false} StrayBraceStops(v: string, rest: string)
    requires '{' !in v
    ensures Tokenize(v + "}" + rest).None?
    decreases |v|
  {
    var s := v + "}" + rest;
    if v != [] {
      assert s[0] == v[0] && v[0] in v;
      assert s[1..] == v[1..] + "}" + rest;
      StrayBraceStops(v[1..], rest);
    }
  }

  /** A second closing brace makes the pattern invalid unless a group is opened between the two. */
  lemma StrayBrace(u: string, v: string, rest: string)
    requires '}' !in u && '{' !in v
    ensures VerdictOf("/{" + u + "}" + v + "}" + rest) == Invalid
  {
    var body := u + "}" + (v + "}" + rest);
    var s := "/{" + u + "}" + v + "}" + rest;
    assert s == "/" + ("{" + body) && ("{" + body)[1..] == body;
    TokenizeStep(Slash, "{" + body);
    if ParseBody(body, []).Some? {
      BodyEndsAtBrace(u, v + "}" + rest, []);
      StrayBraceStops(v, rest);
    }
  }

  // ---------- Outside groups ----------

  lemma {:induction false} BadCharacterOutside(u: string, c: char, v: string)
    requires '{' !in u && c in " #,[]}"
    ensures Tokenize(u + [c] + v).None?
    decreases |u|
  {
    var s := u + [c] + v;
    if u != [] {
      assert s[0] == u[0] && u[0] in u;
      assert s[1..] == u[1..] + [c] + v;
      BadCharacterOutside(u[1..], c, v);
    }
  }

  /** Before the first brace, each of these makes the text invalid. */
  lemma BadCharacterIsInvalid(u: string, c: char, v: string)
    requires '{' !in u && c in " #,[]}"
    ensures VerdictOf(u + [c] + v) == Invalid
  {
    BadCharacterOutside(u, c, v);
  }

  // ---------- What single tokens match ----------

  lemma SingleToken(t: Token, text: string)
    requires LegalToken(t) && !t.Slash? && text == "/" + PrintToken(t)
    ensures Accepts(text) && Tokens(text) == [Slash, t]
  {
    var ts := [Slash, t];
    assert ts[1..] == [t] && ts[1..][1..] == [];
    PrintPair(t);
    TokenizeComplete(ts);
  }

  lemma CommitToEnd(s: string, atStart: bool)
    ensures Commit([], s, atStart) <==> s == []
    ensures Commit([Star], [], atStart)
  {
  }

  /** A question mark stands for any one character but a slash. */
  lemma QuestionMarkMatches(s: string)
    ensures Accepts("/?")
    ensures MatchTokens(Tokens("/?"), s) <==> |s| == 2 && s[0] == '/' && s[1] != '/'
  {
    SingleToken(AnyChar, "/?");
    var ts := [Slash, AnyChar];
    assert ts[1..] == [AnyChar] && ts[1..][1..] == [];
    hide Accepts, Tokens;
    if s != [] && s[0] == '/' && s[1..] != [] {
      assert s[1..][0] == s[1] && s[1..][1..] == s[2..];
      CommitToEnd(s[2..], false);
    }
  }

  /** A star stands for any text without a slash, the empty one included. */
  lemma StarMatches(s: string)
    ensures Accepts("/*")
    ensures MatchTokens(Tokens("/*"), s) <==> s != [] && s[0] == '/' && '/' !in s[1..]
  {
    SingleToken(Star, "/*");
    var ts := [Slash, Star];
    assert ts[1..] == [Star] && ts[1..][1..] == [];
    hide Accepts, Tokens;
    if s != [] && s[0] == '/' && s[1..] != [] && s[1] != '/' {
      var rest := s[1..];
      CommitToEnd(rest[SegmentLength(rest)..], false);
      assert SegmentLength(rest) == |rest| ==> rest[..|rest|] == rest;
      assert SegmentLength(rest) < |rest| ==> rest[SegmentLength(rest)] in rest;
    } else if s != [] && s[1..] != [] {
      assert s[1] in s[1..];
    }
  }

  /** A character that is not special stands for itself. */
  lemma CharacterMatches(c: char, s: string)
    requires c !in "/ #*,?[]{}\0"
    ensures Accepts(['/', c])
    ensures MatchTokens(Tokens(['/', c]), s) <==> s == ['/', c]
  {
    SingleToken(Lit(c), ['/', c]);
    var ts := [Slash, Lit(c)];
    assert ts[1..] == [Lit(c)] && ts[1..][1..] == [];
    hide Accepts, Tokens;
    if s != [] && s[0] == '/' && s[1..] != [] {
      assert s[1..][0] == s[1] && s[1..][1..] == s[2..];
      CommitToEnd(s[2..], false);
    }
  }

  /** A group of words none of which begins another stands for exactly its words. */
  lemma GroupMatches(words: seq<string>, s: string)
    requires words != [] && (forall w | w in words :: GroupWord(w)) && PrefixFree(words)
    ensures Accepts(GroupText(Joined(words)))
    ensures MatchTokens(Tokens(GroupText(Joined(words))), s) <==> s != [] && s[0] == '/' && s[1..] in words
  {
    forall w | w in words
      ensures LegalAlt(w)
    {
    }
    GroupTokens(words);
    var ts := [Slash, Group(words)];
    assert ts[1..] == [Group(words)] && ts[1..][1..] == [];
    hide Accepts, Tokens;
    if s != [] && s[0] == '/' {
      GroupCommits(words, s[1..]);
    }
  }

  lemma GroupCommits(words: seq<string>, s: string)
    requires LegalToken(Group(words)) && PrefixFree(words)
    ensures Commit([Group(words)], s, true) <==> s in words
  {
    var ts := [Group(words)];
    assert ts[1..] == [];
    if s in words {
      AltIsPiece(Group(words), s);
      FirstAltFinds(words, s, s);
      var a := FirstAlt(words, s).value;
      assert !IsProperPrefix(a, s);
      assert |a| == |s| ==> a == s;
      CommitToEnd(s[|a|..], false);
      assert s[0] in s;
    }
    if Commit(ts, s, true) && s != [] {
      var a := FirstAlt(words, s).value;
      CommitToEnd(s[|a|..], false);
      assert s == a;
    }
  }
}
