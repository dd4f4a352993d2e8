/** do_pattern_match and osc_pattern_match on the text of a pattern (ideas/pattern.c:74-158).
    steps counts the iterations of all loops. */
module PatternMatch {
  import opened Options
  import opened PatternSyntax
  import opened PatternLanguage
  import opened PatternVerify
  import opened PatternExact

  /** The text from p on is u. */
  predicate From(s: string, p: nat, u: string) {
    p <= |s| && s[p..] == u
  }

  lemma NextChar(s: string, p: nat, c: char, u: string)
    requires From(s, p, [c] + u)
    ensures p < |s| && CharAt(s, p) == c && From(s, p + 1, u)
  {
    assert s[p] == ([c] + u)[0] && s[p + 1..] == ([c] + u)[1..];
  }

  lemma LaterChar(s: string, p: nat, u: string, k: nat)
    requires From(s, p, u) && k < |u|
    ensures p + k < |s| && CharAt(s, p + k) == u[k] && From(s, p + k, u[k..])
  {
    assert s[p + k] == u[k] && s[p + k..] == u[k..];
  }

  // ---------- Groups ----------

  /** A group body is some text without a closing brace, and the brace. */
  lemma {:induction false} TailShape(alts: seq<string>) returns (x: string)
    requires forall a | a in alts :: LegalAlt(a)
    ensures Tail(alts) == x + "}" && '}' !in x && (alts != [] ==> x != [])
  {
    if alts == [] {
      x := [];
    } else {
      var y := TailShape(alts[1..]);
      assert LegalAlt(alts[0]);
      x := "," + alts[0] + y;
    }
  }

  lemma BodyShape(alts: seq<string>) returns (x: string)
    requires alts != [] && forall a | a in alts :: LegalAlt(a)
    ensures Body(alts) == x + "}" && '}' !in x
  {
    var y := TailShape(alts);
    x := y[1..];
    assert Body(alts) == Tail(alts)[1..] == x + "}";
  }

  lemma FirstOfClass(x: string, u: string, k: nat, stops: string)
    requires k <= |x| && u != [] && u[0] in stops && forall c | c in x :: c !in stops
    ensures (x + u)[k] in stops <==> k == |x|
  {
    if k < |x| {
      assert x[k] in x;
    }
  }

  /** The scan for the closing brace, from the start of one of the alternatives. */
  method SkipToBrace(pattern: string, start: nat, ghost others: seq<string>, ghost rest: string)
     returns (p: nat, ghost steps: nat)
    requires CString(pattern) && others != [] && forall a | a in others :: LegalAlt(a)
    requires From(pattern, start, Body(others) + rest)
    ensures start <= p < |pattern| && pattern[p] == '}' && From(pattern, p + 1, rest) && steps == p - start
  {
    hide Body, Tail, From;
    ghost var x := BodyShape(others);
    ghost var u := "}" + rest;
    assert Body(others) + rest == x + u;
    p, steps := start, 0;
    LaterChar(pattern, start, x + u, 0);
    FirstOfClass(x, u, 0, "}");
    while CharAt(pattern, p) != '}'
      invariant start <= p <= |pattern| && p - start <= |x| && steps == p - start
      invariant CharAt(pattern, p) == '}' <==> p - start == |x|
      decreases |pattern| - p
    {
      p, steps := p + 1, steps + 1;
      LaterChar(pattern, start, x + u, p - start);
      FirstOfClass(x, u, p - start, "}");
    }
    LaterChar(pattern, start, x + u, |x|);
    assert (x + u)[|x|..] == ['}'] + rest;
    NextChar(pattern, p, '}', rest);
  }

  /** The scan for the end of the alternative that p is in. */
  method SkipAlternative(pattern: string, start: nat, ghost todo: string, ghost after: string)
     returns (p: nat, ghost steps: nat)
    requires CString(pattern) && From(pattern, start, todo + after)
    requires (forall c | c in todo :: LegalAltChar(c)) && after != [] && after[0] in ",}"
    ensures start <= p <= |pattern| && p - start == |todo| && From(pattern, p, after) && steps == p - start
  {
    p, steps := start, 0;
    LaterChar(pattern, start, todo + after, 0);
    FirstOfClass(todo, after, 0, ",}");
    while CharAt(pattern, p) != ',' && CharAt(pattern, p) != '}'
      invariant start <= p <= |pattern| && p - start <= |todo| && steps == p - start
      invariant CharAt(pattern, p) in ",}" <==> p - start == |todo|
      decreases |pattern| - p
    {
      p, steps := p + 1, steps + 1;
      LaterChar(pattern, start, todo + after, p - start);
      FirstOfClass(todo, after, p - start, ",}");
    }
    LaterChar(pattern, start, todo + after, |todo|);
    assert (todo + after)[|todo|..] == after;
  }

  /** Where the group loop is: k characters of the alternative alt have matched, p is at
      the next one, and the earlier alternatives have failed. */
  ghost predicate InGroup(pattern: string, p: nat, text: string, g: GroupText,
                          alt: string, k: nat, others: seq<string>) {
    && k < |alt| && LegalAlt(alt) && k <= |text| && alt[..k] == text[..k]
    && From(pattern, p, alt[k..] + Tail(others) + g.rest)
    && (forall a | a in others :: LegalAlt(a))
    && FirstAlt(g.alts, text) == FirstAlt([alt] + others, text)
  }

  /** A group in a pattern: its alternatives and the text after its brace. */
  datatype GroupText = GroupText(alts: seq<string>, rest: string)

  lemma GroupEntered(pattern: string, p: nat, text: string, g: GroupText)
    requires LegalToken(Group(g.alts)) && From(pattern, p, Body(g.alts) + g.rest)
    ensures LegalAlt(g.alts[0]) && InGroup(pattern, p, text, g, g.alts[0], 0, g.alts[1..])
  {
    assert LegalAlt(g.alts[0]);
    assert g.alts[0][0..] == g.alts[0] && [g.alts[0]] + g.alts[1..] == g.alts;
  }

  lemma AtAltChar(pattern: string, p: nat, text: string, g: GroupText, alt: string, k: nat, others: seq<string>)
    requires InGroup(pattern, p, text, g, alt, k, others)
    ensures p < |pattern| && CharAt(pattern, p) == alt[k] && alt[k] != '\0'
    ensures From(pattern, p + 1, alt[k + 1..] + Tail(others) + g.rest)
  {
    assert alt[k..] + Tail(others) + g.rest == [alt[k]] + (alt[k + 1..] + Tail(others) + g.rest);
    NextChar(pattern, p, alt[k], alt[k + 1..] + Tail(others) + g.rest);
    assert LegalAltChar(alt[k]);
  }

  lemma AltGoesOn(pattern: string, p: nat, text: string, g: GroupText, alt: string, k: nat, others: seq<string>)
    requires InGroup(pattern, p, text, g, alt, k, others) && k + 1 < |alt|
    requires k < |text| && alt[k] == text[k]
    ensures InGroup(pattern, p + 1, text, g, alt, k + 1, others)
    ensures p + 1 < |pattern| && CharAt(pattern, p + 1) !in ",}"
  {
    AtAltChar(pattern, p, text, g, alt, k, others);
    AtAltChar(pattern, p + 1, text, g, alt, k + 1, others);
    assert LegalAltChar(alt[k + 1]);
  }

  lemma AltComplete(pattern: string, p: nat, text: string, g: GroupText, alt: string, k: nat, others: seq<string>)
    requires InGroup(pattern, p, text, g, alt, k, others) && k + 1 == |alt|
    requires k < |text| && alt[k] == text[k]
    ensures p + 1 < |pattern| && CharAt(pattern, p + 1) == if others == [] then '}' else ','
    ensures From(pattern, p + 2, (if others == [] then "" else Body(others)) + g.rest)
  {
    AtAltChar(pattern, p, text, g, alt, k, others);
    assert alt[k + 1..] + Tail(others) + g.rest == Tail(others) + g.rest;
    AtSeparator(pattern, p + 1, g, others);
  }

  lemma AltPicked(pattern: string, p: nat, text: string, g: GroupText, alt: string, k: nat, others: seq<string>)
    requires InGroup(pattern, p, text, g, alt, k, others) && k + 1 == |alt|
    requires k < |text| && alt[k] == text[k]
    ensures FirstAlt(g.alts, text) == Some(alt)
  {
    hide Tail, From;
    assert alt == text[..k + 1];
  }

  lemma AtSeparator(pattern: string, p: nat, g: GroupText, others: seq<string>)
    requires From(pattern, p, Tail(others) + g.rest)
    ensures p < |pattern| && CharAt(pattern, p) == if others == [] then '}' else ','
    ensures From(pattern, p + 1, (if others == [] then "" else Body(others)) + g.rest)
  {
    if others == [] {
      NextChar(pattern, p, '}', g.rest);
    } else {
      assert Tail(others) + g.rest == [','] + (Body(others) + g.rest);
      NextChar(pattern, p, ',', Body(others) + g.rest);
    }
  }

  /** The alternative is not a prefix of the text. */
  lemma AltFails(pattern: string, p: nat, text: string, g: GroupText, alt: string, k: nat, others: seq<string>)
    requires InGroup(pattern, p, text, g, alt, k, others) && (k < |text| ==> alt[k] != text[k])
    ensures FirstAlt(g.alts, text) == FirstAlt(others, text)
  {
    assert ([alt] + others)[1..] == others;
  }

  lemma NextAlt(pattern: string, p: nat, text: string, g: GroupText, others: seq<string>)
    requires From(pattern, p, Body(others) + g.rest) && others != [] && forall a | a in others :: LegalAlt(a)
    requires FirstAlt(g.alts, text) == FirstAlt(others, text)
    ensures LegalAlt(others[0]) && InGroup(pattern, p, text, g, others[0], 0, others[1..])
  {
    GroupEntered(pattern, p, text, GroupText(others, g.rest));
    assert [others[0]] + others[1..] == others;
  }

  /** The iteration that steps past a matching character; closed says that it ended the
      alternative, and then p' is behind the group. */
  method TakeChar(pattern: string, p: nat, ghost text: string, ghost g: GroupText,
                  ghost alt: string, ghost k: nat, ghost others: seq<string>)
    returns (closed: bool, p': nat, ghost steps: nat)
    requires CString(pattern) && InGroup(pattern, p, text, g, alt, k, others)
    requires k < |text| && alt[k] == text[k]
    ensures p < p' <= |pattern| && steps < p' - p
    ensures closed ==> From(pattern, p', g.rest) && FirstAlt(g.alts, text) == Some(alt) && k + 1 == |alt|
    ensures !closed ==> InGroup(pattern, p', text, g, alt, k + 1, others)
  {
    if k + 1 < |alt| {
      AltGoesOn(pattern, p, text, g, alt, k, others);
    } else {
      AltPicked(pattern, p, text, g, alt, k, others);
      AltComplete(pattern, p, text, g, alt, k, others);
    }
    p', steps := p + 1, 0;
    if CharAt(pattern, p') == ',' {
      p', steps := SkipToBrace(pattern, p' + 1, others, g.rest);
      return true, p' + 1, steps;
    } else if CharAt(pattern, p') == '}' {
      return true, p' + 1, 0;
    }
    return false, p', 0;
  }

  /** The iteration that gives an alternative up; more says that there is another one. */
  method NextAlternative(pattern: string, p: nat, ghost text: string, ghost g: GroupText,
                  ghost alt: string, ghost k: nat, ghost others: seq<string>)
    returns (more: bool, p': nat, ghost steps: nat)
    requires CString(pattern) && InGroup(pattern, p, text, g, alt, k, others)
    requires k < |text| ==> alt[k] != text[k]
    ensures p < p' <= |pattern|
    ensures more <==> others != []
    ensures more ==> InGroup(pattern, p', text, g, others[0], 0, others[1..]) && steps < p' - p
    ensures !more ==> FirstAlt(g.alts, text) == None && p' < |pattern| && steps == p' - p
  {
    AltFails(pattern, p, text, g, alt, k, others);
    assert forall c | c in alt[k..] :: c in alt;
    assert alt[k..] + Tail(others) + g.rest == alt[k..] + (Tail(others) + g.rest);
    p', steps := SkipAlternative(pattern, p, alt[k..], Tail(others) + g.rest);
    AtSeparator(pattern, p', g, others);
    if CharAt(pattern, p') == ',' {
      p' := p' + 1;
      NextAlt(pattern, p', text, g, others);
      return true, p', steps;
    }
    return false, p', steps;
  }

  /** The loop over the alternatives of a group, from the character after the brace. */
  method MatchGroup(pattern: string, start: nat, input: string, mark: nat, ghost g: GroupText)
    returns (ok: bool, p: nat, i: nat, ghost steps: nat)
    requires CString(pattern) && CString(input) && mark <= |input|
    requires LegalToken(Group(g.alts)) && From(pattern, start, Body(g.alts) + g.rest)
    ensures start <= p <= |pattern| && (!ok ==> p < |pattern|)
    ensures steps <= p - start + (if ok then 0 else 1)
    ensures ok <==> FirstAlt(g.alts, input[mark..]).Some?
    ensures ok ==> From(pattern, p, g.rest) && i == mark + |FirstAlt(g.alts, input[mark..]).value|
  {
    ghost var text := input[mark..];
    ghost var alt, k: nat, others := g.alts[0], 0, g.alts[1..];
    GroupEntered(pattern, start, text, g);
    p, i, steps := start, mark, 0;
    ghost var inner;
    while true
      invariant start <= p && i == mark + k && k <= |text| && steps <= p - start
      invariant InGroup(pattern, p, text, g, alt, k, others)
      decreases |pattern| - p
    {
      AtAltChar(pattern, p, text, g, alt, k, others);
      assert k < |text| ==> text[k] == input[i];
      if CharAt(pattern, p) == CharAt(input, i) {
        var closed;
        closed, p, inner := TakeChar(pattern, p, text, g, alt, k, others);
        i, k, steps := i + 1, k + 1, steps + 1 + inner;
        if closed {
          return true, p, i, steps;
        }
      } else {
        i := mark;
        var more;
        more, p, inner := NextAlternative(pattern, p, text, g, alt, k, others);
        steps := steps + 1 + inner;
        if !more {
          return false, p, i, steps;
        }
        alt, k, others := others[0], 0, others[1..];
      }
    }
  }

  // ---------- The main loop ----------

  lemma TokenChar(t: Token)
    requires LegalToken(t)
    ensures PrintToken(t) != [] && PrintToken(t)[0] != '[' && PrintToken(t)[0] != '\0'
    ensures (PrintToken(t)[0] == '/' <==> t.Slash?) && (PrintToken(t)[0] == '*' <==> t.Star?)
    ensures (PrintToken(t)[0] == '?' <==> t.AnyChar?) && (PrintToken(t)[0] == '{' <==> t.Group?)
    ensures t.Lit? ==> PrintToken(t)[0] == t.c
  {
  }

  /** The pattern text from p on is the text of the legal tokens ts. */
  predicate AtTokens(pattern: string, p: nat, ts: seq<Token>) {
    Legal(ts) && From(pattern, p, Print(ts))
  }

  lemma PrintSplit(t: Token, u: string)
    requires LegalToken(t)
    ensures PrintToken(t) != [] && PrintToken(t) + u == [PrintToken(t)[0]] + (if t.Group? then Body(t.alts) + u else u)
  {
  }

  lemma NextToken(pattern: string, p: nat, ts: seq<Token>)
    requires AtTokens(pattern, p, ts)
    ensures CharAt(pattern, p) == '\0' <==> ts == []
    ensures ts != [] ==> LegalToken(ts[0]) && p < |pattern| && CharAt(pattern, p) == PrintToken(ts[0])[0]
    ensures ts != [] && !ts[0].Group? ==> AtTokens(pattern, p + 1, ts[1..])
    ensures ts != [] && ts[0].Group? ==> From(pattern, p + 1, Body(ts[0].alts) + Print(ts[1..])) && Legal(ts[1..])
  {
    if ts != [] {
      assert LegalToken(ts[0]);
      TokenChar(ts[0]);
      PrintSplit(ts[0], Print(ts[1..]));
      var more := if ts[0].Group? then Body(ts[0].alts) + Print(ts[1..]) else Print(ts[1..]);
      NextChar(pattern, p, PrintToken(ts[0])[0], more);
    }
  }

  /** The scan to the end of the segment. */
  method SkipSegment(input: string, start: nat) returns (i: nat, ghost steps: nat)
    requires CString(input) && start <= |input|
    ensures i == start + SegmentLength(input[start..]) && steps == i - start
  {
    i, steps := start, 0;
    while CharAt(input, i) != '\0' && CharAt(input, i) != '/'
      invariant start <= i <= |input| && steps == i - start && NoSlash(input[start..i])
      decreases |input| - i
    {
      i, steps := i + 1, steps + 1;
    }
    assert input[start..][..i - start] == input[start..i];
    assert i < |input| ==> input[i] in input;
    SegmentLengthUnique(input[start..], i - start);
  }

  /** Where the main loop is: at the tokens ts and the rest of the input from i on, from
      which the matcher answers goal. */
  ghost predicate InMain(pattern: string, p: nat, input: string, i: nat, atStart: bool, ts: seq<Token>, goal: bool) {
    i <= |input| && AtTokens(pattern, p, ts) && Commit(ts, input[i..], atStart) == goal
  }

  lemma CommitAtSlash(ts: seq<Token>, s: string, atStart: bool)
    requires ts != [] && s != [] && s[0] == '/'
    ensures Commit(ts, s, atStart) <==>
            !atStart && (if ts[0].Star? then |ts| > 1 && ts[1].Slash? && Commit(ts[2..], s[1..], true)
                         else ts[0].Slash? && Commit(ts[1..], s[1..], true))
  {
  }

  lemma CommitAtEnd(ts: seq<Token>, s: string, atStart: bool)
    requires ts == [] || s == []
    ensures Commit(ts, s, atStart) <==> s == [] && (ts == [] || ts == [Star])
  {
  }

  /** The iteration at a slash of the input. */
  method StepSlash(pattern: string, p: nat, input: string, i: nat, atStart: bool,
                   ghost ts: seq<Token>, ghost goal: bool)
    returns (go: bool, p': nat, ghost ts': seq<Token>)
    requires CString(pattern) && InMain(pattern, p, input, i, atStart, ts, goal)
    requires ts != [] && i < |input| && input[i] == '/'
    ensures go ==> p < p' <= |pattern| && InMain(pattern, p', input, i + 1, true, ts', goal)
    ensures !go ==> !goal
  {
    hide Commit, PrintToken, LegalToken, From, Print;
    p', ts' := p, ts;
    assert input[i..][1..] == input[i + 1..];
    CommitAtSlash(ts, input[i..], atStart);
    if atStart {
      return false, p', ts';
    }
    NextToken(pattern, p, ts);
    TokenChar(ts[0]);
    if CharAt(pattern, p) == '*' {
      p', ts' := p + 1, ts[1..];
      NextToken(pattern, p', ts');
      assert |ts| > 1 ==> ts[1..][1..] == ts[2..];
    }
    if ts' != [] {
      TokenChar(ts'[0]);
    }
    if CharAt(pattern, p') != '/' {
      return false, p', ts';
    }
    return true, p' + 1, ts'[1..];
  }

  /** The iteration inside a segment. */
  method StepInside(pattern: string, p: nat, input: string, i: nat, atStart: bool,
                    ghost ts: seq<Token>, ghost goal: bool)
    returns (go: bool, p': nat, i': nat, ghost steps: nat)
    requires CString(pattern) && CString(input) && InMain(pattern, p, input, i, atStart, ts, goal)
    requires ts != [] && i < |input| && input[i] != '/'
    ensures p <= p' <= |pattern| && (!go ==> p' < |pattern|)
    ensures go ==> p < p' && i < i' <= |input| && InMain(pattern, p', input, i', false, ts[1..], goal)
    ensures !go ==> !goal
    ensures steps <= if go then p' - p - 1 + (i' - i) else p' - p + 1
  {
    NextToken(pattern, p, ts);
    TokenChar(ts[0]);
    var c := CharAt(pattern, p);
    i', steps := i, 0;
    if c == '?' {
      go, p', i' := true, p + 1, i + 1;
    } else if c == '*' {
      i', steps := SkipSegment(input, i);
      go, p' := true, p + 1;
    } else if c == '{' {
      go, p', i', steps := MatchGroup(pattern, p + 1, input, i, GroupText(ts[0].alts, Print(ts[1..])));
    } else if c == CharAt(input, i) {
      go, p', i' := true, p + 1, i + 1;
    } else {
      go, p' := false, p;
    }
    InsideAnswer(pattern, p, p', input, i, i', atStart, ts, goal, go);
  }

  /** The iteration gives the token its bite. */
  lemma InsideAnswer(pattern: string, p: nat, p': nat, input: string, i: nat, i': nat, atStart: bool,
                     ts: seq<Token>, goal: bool, go: bool)
    requires InMain(pattern, p, input, i, atStart, ts, goal) && ts != [] && i < |input| && input[i] != '/'
    requires LegalToken(ts[0]) && (go <==> Bite(ts[0], input[i..]).Some?)
    requires go ==> i' == i + Bite(ts[0], input[i..]).value && AtTokens(pattern, p', ts[1..])
    ensures go ==> i < i' <= |input| && InMain(pattern, p', input, i', false, ts[1..], goal)
    ensures !go ==> !goal
  {
    hide Commit, Bite, From, Print;
    CommitBites(ts, input[i..], atStart);
    if go {
      assert input[i'..] == input[i..][i' - i..];
    }
  }

  /** do_pattern_match. It reads neither string beyond its terminator, and its loops together
      iterate at most |pattern| + |input| times. */
  method DoPatternMatch(pattern: string, input: string) returns (r: bool, ghost steps: nat)
    requires CString(pattern) && Accepts(pattern) && CString(input)
    ensures r == MatchTokens(Tokens(pattern), input)
    ensures steps <= |pattern| + |input|
  {
    hide Commit, PrintToken, LegalToken, From, Print, Tokenize;
    steps := 0;
    if CharAt(input, 0) != '/' {
      assert input != [] ==> input[0] != '/';
      return false, 0;
    }
    TokenizeSound(pattern);
    ghost var all := Tokens(pattern);
    ghost var goal := MatchTokens(all, input);
    assert pattern[0..] == pattern;
    NextToken(pattern, 0, all);
    var p, i, slash := 1, 1, 0;
    ghost var ts, inner := all[1..], 0;
    while CharAt(pattern, p) != '\0' && CharAt(input, i) != '\0'
      invariant 1 <= p <= |pattern| && 1 <= i <= |input| && 0 <= slash < i
      invariant InMain(pattern, p, input, i, i - slash == 1, ts, goal)
      invariant steps <= (p - 1) + (i - 1)
      decreases |pattern| - p
    {
      NextToken(pattern, p, ts);
      steps := steps + 1;
      var go;
      if CharAt(input, i) == '/' {
        ghost var later;
        go, p, later := StepSlash(pattern, p, input, i, i - slash == 1, ts, goal);
        ts := later;
        slash, i := i, i + 1;
      } else {
        go, p, i, inner := StepInside(pattern, p, input, i, i - slash == 1, ts, goal);
        ts := ts[1..];
        steps := steps + inner;
      }
      if !go {
        return false, steps;
      }
    }
    NextToken(pattern, p, ts);
    CommitAtEnd(ts, input[i..], i - slash == 1);
    assert i < |input| ==> input[i] in input;
    if CharAt(pattern, p) == '*' {
      TokenChar(ts[0]);
      NextToken(pattern, p + 1, ts[1..]);
      p := p + 1;
      assert ts == [Star] <==> ts[1..] == [];
    } else if ts != [] {
      TokenChar(ts[0]);
    }
    r := CharAt(pattern, p) == '\0' && CharAt(input, i) == '\0';
  }

  // ---------- The fast path ----------

  lemma {:induction false} CommitIsEquality(ts: seq<Token>, s: string, atStart: bool)
    requires Legal(ts) && !HasMeta(ts) && NoDoubleSlash(ts, atStart)
    ensures Commit(ts, s, atStart) <==> s == Print(ts)
    decreases |ts|
  {
    if ts != [] {
      assert ts[0] in ts && LegalToken(ts[0]);
      TokenChar(ts[0]);
      assert !HasMeta(ts[1..]) by {
        assert forall t | t in ts[1..] :: t in ts;
      }
      if s != [] {
        CommitIsEquality(ts[1..], s[1..], ts[0].Slash?);
        assert s == [s[0]] + s[1..];
        assert Print(ts)[0] == PrintToken(ts[0])[0] && Print(ts)[1..] == Print(ts[1..]);
      }
    }
  }

  /** For every pattern verified static and every input, comparing the texts gives the
      answer of the matcher. */
  lemma StaticIsEquality(pattern: string, input: string)
    requires Accepts(pattern) && !HasMeta(Tokens(pattern))
    ensures MatchTokens(Tokens(pattern), input) <==> pattern == input
  {
    TokenizeSound(pattern);
    var ts := Tokens(pattern);
    ShapeOfRest(ts, false);
    CommitIsEquality(ts, input, false);
  }

  /** osc_pattern_match on a compiled pattern. */
  method Match(pattern: Pattern, input: string) returns (r: bool)
    requires pattern.Compiled() && CString(input)
    ensures r == MatchTokens(Tokens(pattern.text), input)
    ensures r ==> Matches(Tokens(pattern.text), input) && NoEmptySegment(input)
  {
    if pattern.isStatic {
      StaticIsEquality(pattern.text, input);
      r := pattern.text == input;
    } else {
      ghost var steps;
      r, steps := DoPatternMatch(pattern.text, input);
    }
    if r {
      MatchIsSound(pattern.text, input);
    }
  }
}
