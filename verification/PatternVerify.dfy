/** osc_pattern_verify and osc_pattern_compile (ideas/pattern.c:14-72). */
module PatternVerify {
  import opened Options
  import opened PatternSyntax

  datatype Verdict = Invalid | Static | Dynamic

  /** The byte a pointer k characters into s points at; the end of the string reads as NUL. */
  function CharAt(s: string, k: nat): char
    requires k <= |s|
  {
    if k < |s| then s[k] else '\0'
  }

  function VerdictOf(s: string): Verdict {
    if !Accepts(s) then Invalid else if HasMeta(Tokens(s)) then Dynamic else Static
  }

  /** The answer is Invalid exactly off the grammar, and Static exactly for the texts of
      the grammar without *, ? or {. */
  lemma VerdictMeaning(s: string)
    ensures VerdictOf(s) != Invalid <==> InGrammar(s)
    ensures VerdictOf(s) == Static <==> InGrammar(s) && '*' !in s && '?' !in s && '{' !in s
  {
    AcceptsIffInGrammar(s);
    if Accepts(s) {
      TokenizeSound(s);
      MetaIffMetaChar(Tokens(s));
    }
  }

  /** The tokens read so far, and whether the scan may go on from them. */
  predicate ReadSoFar(done: seq<Token>) {
    && done != [] && done[0].Slash?
    && forall k | 0 <= k < |done| - 1 :: !(done[k].Slash? && done[k + 1].Slash?)
  }

  /** What the text from p on must be for the pattern to be done followed by it. */
  predicate Reading(s: string, p: nat, done: seq<Token>) {
    p <= |s| && ReadSoFar(done) && Tokenize(s) == Prepend(done, Tokenize(s[p..]))
  }

  lemma ReadOne(s: string, p: nat, done: seq<Token>, t: Token)
    requires Reading(s, p, done) && p < |s| && !t.Group? && LegalToken(t) && PrintToken(t) == [s[p]]
    requires !(done[|done| - 1].Slash? && t.Slash?)
    ensures Reading(s, p + 1, done + [t])
  {
    assert s[p..] == PrintToken(t) + s[p + 1..];
    TokenizeStep(t, s[p + 1..]);
    PrependTwice(done, t, Tokenize(s[p + 1..]));
  }

  lemma ReadGroup(s: string, p: nat, done: seq<Token>, close: nat, alts: seq<string>)
    requires Reading(s, p, done) && p < close < |s| && s[p] == '{'
    requires ParseBody(s[p + 1..], []) == Some((alts, s[close + 1..]))
    ensures Reading(s, close + 1, done + [Group(alts)])
  {
    assert s[p..][1..] == s[p + 1..];
    PrependTwice(done, Group(alts), Tokenize(s[close + 1..]));
  }

  /** A character that starts no token ends the scan. */
  lemma ReadNothing(s: string, p: nat, done: seq<Token>)
    requires Reading(s, p, done) && p < |s| && s[p] !in "/{*?" && !LegalLit(s[p])
    ensures !Accepts(s)
  {
    assert s[p..][0] == s[p];
  }

  lemma ReadNoGroup(s: string, p: nat, done: seq<Token>)
    requires Reading(s, p, done) && p < |s| && s[p] == '{' && ParseBody(s[p + 1..], []).None?
    ensures !Accepts(s)
  {
    assert s[p..][1..] == s[p + 1..];
  }

  lemma PrependTwice(done: seq<Token>, t: Token, r: Option<seq<Token>>)
    ensures Prepend(done, Prepend([t], r)) == Prepend(done + [t], r)
  {
    if r.Some? {
      assert done + ([t] + r.value) == (done + [t]) + r.value;
    }
  }

  /** A second slash in a row leaves no way to continue. */
  lemma EmptySegment(s: string, p: nat, done: seq<Token>)
    requires Reading(s, p, done) && p < |s| && s[p] == '/' && done[|done| - 1].Slash?
    ensures !Accepts(s)
  {
    if Tokenize(s).Some? {
      var ts := Tokenize(s).value;
      var k := |done| - 1;
      assert ts[k].Slash? && ts[k + 1].Slash?;
    }
  }

  /** The inner loop: reads a group body from the character after the brace. close is the
      position of the closing brace. */
  method ScanGroup(s: string, start: nat) returns (ok: bool, close: nat, ghost alts: seq<string>)
    requires CString(s) && start <= |s|
    ensures ok <==> ParseBody(s[start..], []).Some?
    ensures ok ==> start <= close < |s| && s[close] == '}' && ParseBody(s[start..], []) == Some((alts, s[close + 1..]))
  {
    var p := start;
    var segLen := 0;
    ghost var cur: string, read: seq<string> := [], [];
    alts := [];
    NothingRead(ParseBody(s[start..], []));
    while CharAt(s, p) != '\0'
      invariant start <= p <= |s| && segLen == |cur|
      invariant ParseBody(s[start..], []) == PrependAlts(read, ParseBody(s[p..], cur))
      decreases |s| - p
    {
      var c := CharAt(s, p);
      assert s[p..][1..] == s[p + 1..];
      if c == '/' || c == '#' || c == ']' || c == ' ' || c == '*' || c == '?' {
        return false, p, [];
      } else if c == ',' {
        if segLen == 0 {
          return false, p, [];
        }
        PrependAltsTwice(read, cur, ParseBody(s[p + 1..], []));
        read, cur := read + [cur], [];
        segLen := 0;
        p := p + 1;
      } else if c == '}' {
        if segLen == 0 {
          return false, p, [];
        }
        return true, p, read + [cur];
      } else {
        cur := cur + [c];
        segLen := segLen + 1;
        p := p + 1;
      }
    }
    assert s[p..] == [];
    return false, p, [];
  }

  function PrependAlts(read: seq<string>, r: Option<(seq<string>, string)>): Option<(seq<string>, string)> {
    if r.None? then None else Some((read + r.value.0, r.value.1))
  }

  lemma NothingRead(r: Option<(seq<string>, string)>)
    ensures PrependAlts([], r) == r
  {
    if r.Some? {
      assert [] + r.value.0 == r.value.0;
    }
  }

  lemma PrependAltsTwice(read: seq<string>, alt: string, r: Option<(seq<string>, string)>)
    ensures PrependAlts(read, PrependAlts([alt], r)) == PrependAlts(read + [alt], r)
  {
    if r.Some? {
      assert read + ([alt] + r.value.0) == (read + [alt]) + r.value.0;
    }
  }

  /** osc_pattern_verify; None is a NULL pointer. */
  method Verify(pattern: Option<string>) returns (v: Verdict)
    requires pattern.Some? ==> CString(pattern.value)
    ensures v == if pattern.None? then Invalid else VerdictOf(pattern.value)
  {
    if pattern.None? || CharAt(pattern.value, 0) != '/' {
      return Invalid;
    }
    v := VerifyFromSlash(pattern.value);
  }

  lemma ReadLeadingSlash(s: string)
    requires s != [] && s[0] == '/'
    ensures Reading(s, 1, [Slash]) && !HasMeta([Slash])
  {
    TokenizeStep(Slash, s[1..]);
    assert s == "/" + s[1..];
  }

  lemma VerdictAtEnd(s: string, done: seq<Token>)
    requires Reading(s, |s|, done)
    ensures done != []
    ensures VerdictOf(s) == if done[|done| - 1].Slash? then Invalid else if HasMeta(done) then Dynamic else Static
  {
    assert s[|s|..] == [] && done + [] == done;
  }

  method VerifyFromSlash(s: string) returns (v: Verdict)
    requires CString(s) && |s| > 0 && s[0] == '/'
    ensures v == VerdictOf(s)
  {
    hide Reading, Tokenize, ParseBody, HasMeta, Accepts;
    var hasMeta := false;
    var p, slash := 1, 0;
    ghost var done := [Slash];
    ReadLeadingSlash(s);
    while CharAt(s, p) != '\0'
      invariant Reading(s, p, done) && 0 <= slash < p <= |s| && done != []
      invariant p - slash == 1 <==> done[|done| - 1].Slash?
      invariant s[p - 1] == '/' <==> done[|done| - 1].Slash?
      invariant hasMeta == HasMeta(done)
      decreases |s| - p
    {
      var c := CharAt(s, p);
      ghost var t := Slash;
      if c == '/' {
        if p - slash == 1 {
          EmptySegment(s, p, done);
          return Invalid;
        }
        slash := p;
        ReadOne(s, p, done, Slash);
      } else if c == '[' {
        ReadNothing(s, p, done);
        return Invalid;
      } else if c == '{' {
        hasMeta := true;
        ghost var alts;
        var ok, close;
        ok, close, alts := ScanGroup(s, p + 1);
        if !ok {
          ReadNoGroup(s, p, done);
          return Invalid;
        }
        t := Group(alts);
        ReadGroup(s, p, done, close, alts);
        p := close;
      } else if c == '*' || c == '?' {
        hasMeta := true;
        t := if c == '*' then Star else AnyChar;
        ReadOne(s, p, done, t);
      } else if c == '#' || c == ']' || c == '}' || c == ',' || c == ' ' {
        ReadNothing(s, p, done);
        return Invalid;
      } else {
        t := Lit(c);
        ReadOne(s, p, done, t);
      }
      MetaSoFar(done, t);
      done := done + [t];
      p := p + 1;
    }
    VerdictAtEnd(s, done);
    v := if s[p - 1] == '/' then Invalid else if hasMeta then Dynamic else Static;
  }

  lemma MetaSoFar(done: seq<Token>, t: Token)
    ensures HasMeta(done + [t]) <==> HasMeta(done) || IsMeta(t)
  {
    if HasMeta(done) {
      var m :| m in done && IsMeta(m);
      assert m in done + [t];
    }
    assert t in done + [t];
  }

  /** A compiled pattern. */
  class Pattern {
    var isStatic: bool
    var text: string

    constructor ()
    {
      isStatic, text := false, "";
    }

    /** What a successful Compile leaves behind. */
    predicate Compiled()
      reads this
    {
      CString(text) && Accepts(text) && isStatic == !HasMeta(Tokens(text))
    }

    /** osc_pattern_compile. A rejected pattern leaves the record alone. */
    method Compile(pattern: Option<string>) returns (ok: bool)
      requires pattern.Some? ==> CString(pattern.value)
      modifies this
      ensures ok <==> pattern.Some? && InGrammar(pattern.value)
      ensures ok ==> Compiled() && text == pattern.value
      ensures !ok ==> text == old(text) && isStatic == old(isStatic)
    {
      var v := Verify(pattern);
      if pattern.Some? {
        VerdictMeaning(pattern.value);
      }
      if v == Invalid {
        return false;
      }
      isStatic := v == Static;
      text := pattern.value;
      return true;
    }
  }
}
