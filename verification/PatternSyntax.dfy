/** The grammar of address patterns that ideas/pattern.c accepts, and its parser. */
module PatternSyntax {
  import opened Options

  /** A pattern is a string of tokens. A group is { } around alternatives. */
  datatype Token = Slash | Lit(c: char) | AnyChar | Star | Group(alts: seq<string>)

  /** A C string: no NUL before its end. */
  predicate CString(s: string) {
    '\0' !in s
  }

  predicate LegalLit(c: char) {
    c !in "/[{*?#]}, \0"
  }

  /** Inside braces [ and { are ordinary characters. */
  predicate LegalAltChar(c: char) {
    c !in "/#] *?,}\0"
  }

  predicate LegalAlt(a: string) {
    a != [] && forall c | c in a :: LegalAltChar(c)
  }

  predicate LegalToken(t: Token) {
    match t
    case Lit(c) => LegalLit(c)
    case Group(alts) => alts != [] && forall a | a in alts :: LegalAlt(a)
    case _ => true
  }

  predicate Legal(ts: seq<Token>) {
    forall t | t in ts :: LegalToken(t)
  }

  /** A leading slash, no trailing slash, no two slashes in a row: every segment has a token. */
  predicate SegmentsNonEmpty(ts: seq<Token>) {
    && ts != [] && ts[0].Slash? && !ts[|ts| - 1].Slash?
    && forall k | 0 <= k < |ts| - 1 :: !(ts[k].Slash? && ts[k + 1].Slash?)
  }

  // ---------- Printing ----------

  /** What follows an alternative: the further alternatives and the closing brace. */
  function Tail(alts: seq<string>): string {
    if alts == [] then "}" else "," + alts[0] + Tail(alts[1..])
  }

  function Body(alts: seq<string>): string {
    if alts == [] then "}" else alts[0] + Tail(alts[1..])
  }

  function PrintToken(t: Token): string {
    match t
    case Slash => "/"
    case Lit(c) => [c]
    case AnyChar => "?"
    case Star => "*"
    case Group(alts) => "{" + Body(alts)
  }

  function Print(ts: seq<Token>): string {
    if ts == [] then [] else PrintToken(ts[0]) + Print(ts[1..])
  }

  /** The grammar: s is the text of a legal token string with non-empty segments. */
  ghost predicate InGrammar(s: string) {
    exists ts :: Legal(ts) && SegmentsNonEmpty(ts) && Print(ts) == s
  }

  // ---------- Parsing ----------

  /** The rest of a group whose current alternative has begun with cur: the alternatives
      from the current one on, and the text after the closing brace. */
  function ParseBody(s: string, cur: string): (r: Option<(seq<string>, string)>)
    ensures r.Some? ==> |r.value.1| < |s|
  {
    if s == [] then None
    else if s[0] == '}' then
      if cur == [] then None else Some(([cur], s[1..]))
    else if s[0] == ',' then
      if cur == [] then None
      else match ParseBody(s[1..], [])
        case None => None
        case Some((alts, rest)) => Some(([cur] + alts, rest))
    else if LegalAltChar(s[0]) then ParseBody(s[1..], cur + [s[0]])
    else None
  }

  function Prepend(done: seq<Token>, r: Option<seq<Token>>): Option<seq<Token>> {
    if r.None? then None else Some(done + r.value)
  }

  function Tokenize(s: string): Option<seq<Token>>
    decreases |s|
  {
    if s == [] then Some([])
    else if s[0] == '{' then
      match ParseBody(s[1..], [])
      case None => None
      case Some((alts, rest)) => Prepend([Group(alts)], Tokenize(rest))
    else if s[0] == '/' then Prepend([Slash], Tokenize(s[1..]))
    else if s[0] == '*' then Prepend([Star], Tokenize(s[1..]))
    else if s[0] == '?' then Prepend([AnyChar], Tokenize(s[1..]))
    else if LegalLit(s[0]) then Prepend([Lit(s[0])], Tokenize(s[1..]))
    else None
  }

  predicate Accepts(s: string) {
    Tokenize(s).Some? && SegmentsNonEmpty(Tokenize(s).value)
  }

  function Tokens(s: string): seq<Token>
    requires Accepts(s)
  {
    Tokenize(s).value
  }

  // ---------- The parser inverts printing ----------

  lemma AlternativeRead(cur: string, alts: seq<string>, rest: string)
    requires LegalAlt(cur) && alts != [] && forall a | a in alts :: LegalAlt(a)
    ensures LegalToken(Group([cur] + alts)) && Body([cur] + alts) + rest == cur + ("," + (Body(alts) + rest))
  {
    assert ([cur] + alts)[1..] == alts;
  }

  lemma {:induction false} ParseBodySound(s: string, cur: string)
    requires ParseBody(s, cur).Some? && forall c | c in cur :: LegalAltChar(c)
    ensures var (alts, rest) := ParseBody(s, cur).value;
            LegalToken(Group(alts)) && cur + s == Body(alts) + rest
    decreases |s|
  {
    hide LegalAltChar, Body;
    var (alts, rest) := ParseBody(s, cur).value;
    if s[0] == '}' {
      assert s == "}" + rest;
      LastAlternative(cur);
    } else if s[0] == ',' {
      ParseBodySound(s[1..], []);
      assert s == "," + ([] + s[1..]);
      AlternativeRead(cur, ParseBody(s[1..], []).value.0, rest);
    } else {
      ParseBodySound(s[1..], cur + [s[0]]);
      assert cur + s == cur + [s[0]] + s[1..];
    }
  }

  lemma LastAlternative(cur: string)
    ensures Body([cur]) == cur + "}"
  {
  }

  lemma AltCharIsPlain(alt: string, k: nat)
    requires LegalAlt(alt) && k < |alt|
    ensures LegalAltChar(alt[k]) && alt[k] != ',' && alt[k] != '}'
  {
    assert alt[k] in alt;
  }

  /** cur is the part of the first alternative already read, tail the part to come. */
  lemma {:induction false} ParseBodyComplete(cur: string, tail: string, others: seq<string>, rest: string)
    requires LegalAlt(cur + tail) && forall a | a in others :: LegalAlt(a)
    ensures ParseBody(tail + Tail(others) + rest, cur) == Some(([cur + tail] + others, rest))
    decreases |others|, |tail|
  {
    assert cur + tail != [];
    hide LegalAltChar, LegalAlt, Tail;
    var s := tail + Tail(others) + rest;
    if tail != [] {
      assert cur + tail == cur + [tail[0]] + tail[1..];
      assert (cur + tail)[|cur|] == tail[0];
      AltCharIsPlain(cur + tail, |cur|);
      ParseBodyComplete(cur + [tail[0]], tail[1..], others, rest);
      assert s[1..] == tail[1..] + Tail(others) + rest;
    } else {
      assert cur + tail == cur;
      TailStart(others, rest);
      assert s == Tail(others) + rest;
      if others == [] {
        assert [cur] + others == [cur];
      } else {
        assert [] + others[0] == others[0] && LegalAlt(others[0]);
        ParseBodyComplete([], others[0], others[1..], rest);
        assert [others[0]] + others[1..] == others;
      }
    }
  }

  lemma TailStart(others: seq<string>, rest: string)
    ensures var s := Tail(others) + rest;
            && s != [] && s[0] == (if others == [] then '}' else ',')
            && s[1..] == if others == [] then rest else others[0] + Tail(others[1..]) + rest
  {
    if others != [] {
      assert Tail(others) + rest == [','] + (others[0] + Tail(others[1..]) + rest);
    }
  }

  lemma ParseGroup(alts: seq<string>, rest: string)
    requires LegalToken(Group(alts))
    ensures ParseBody(Body(alts) + rest, []) == Some((alts, rest))
  {
    assert [] + alts[0] == alts[0] && [alts[0]] + alts[1..] == alts;
    ParseBodyComplete([], alts[0], alts[1..], rest);
  }

  lemma FirstGroup(s: string) returns (t: Token, rest: string)
    requires Tokenize(s).Some? && s != [] && s[0] == '{'
    ensures LegalToken(t) && s == PrintToken(t) + rest && |rest| < |s|
    ensures Tokenize(rest).Some? && Tokenize(s).value == [t] + Tokenize(rest).value
  {
    hide ParseBody, Body, LegalToken;
    ParseBodySound(s[1..], []);
    var (alts, r) := ParseBody(s[1..], []).value;
    t, rest := Group(alts), r;
    assert s == "{" + ([] + s[1..]);
  }

  lemma FirstPlain(s: string) returns (t: Token, rest: string)
    requires Tokenize(s).Some? && s != [] && s[0] != '{'
    ensures LegalToken(t) && s == PrintToken(t) + rest && |rest| < |s|
    ensures Tokenize(rest).Some? && Tokenize(s).value == [t] + Tokenize(rest).value
  {
    hide ParseBody, LegalLit;
    t := if s[0] == '/' then Slash else if s[0] == '*' then Star else if s[0] == '?' then AnyChar else Lit(s[0]);
    rest := s[1..];
    assert s == [s[0]] + s[1..];
  }

  lemma {:induction false} TokenizeSound(s: string)
    requires Tokenize(s).Some?
    ensures Legal(Tokenize(s).value) && Print(Tokenize(s).value) == s
    decreases |s|
  {
    if s != [] {
      var t, rest;
      if s[0] == '{' {
        t, rest := FirstGroup(s);
      } else {
        t, rest := FirstPlain(s);
      }
      TokenizeSound(rest);
      hide Tokenize, PrintToken;
      var ts := Tokenize(s).value;
      assert ts[1..] == Tokenize(rest).value;
    }
  }

  lemma TokenizeStep(t: Token, rest: string)
    requires LegalToken(t)
    ensures Tokenize(PrintToken(t) + rest) == Prepend([t], Tokenize(rest))
  {
    var s := PrintToken(t) + rest;
    if t.Group? {
      ParseGroup(t.alts, rest);
      assert s[1..] == Body(t.alts) + rest;
    } else {
      assert s[1..] == rest;
    }
  }

  lemma {:induction false} TokenizeComplete(ts: seq<Token>)
    requires Legal(ts)
    ensures Tokenize(Print(ts)) == Some(ts)
    decreases |ts|
  {
    if ts != [] {
      hide Tokenize, PrintToken;
      TokenizeComplete(ts[1..]);
      assert ts == [ts[0]] + ts[1..];
      TokenizeStep(ts[0], Print(ts[1..]));
    }
  }

  /** The parser accepts exactly the grammar, and a text has at most one token string. */
  lemma AcceptsIffInGrammar(s: string)
    ensures Accepts(s) <==> InGrammar(s)
    ensures forall ts | Legal(ts) && Print(ts) == s :: Tokenize(s) == Some(ts)
  {
    forall ts | Legal(ts) && Print(ts) == s
      ensures Tokenize(s) == Some(ts)
    {
      TokenizeComplete(ts);
    }
    if Accepts(s) {
      TokenizeSound(s);
    }
  }

  // ---------- Metacharacters ----------

  predicate IsMeta(t: Token) {
    t.AnyChar? || t.Star? || t.Group?
  }

  predicate HasMeta(ts: seq<Token>) {
    exists t | t in ts :: IsMeta(t)
  }

  lemma {:induction false} MetaIffMetaChar(ts: seq<Token>)
    requires Legal(ts)
    ensures HasMeta(ts) <==> '*' in Print(ts) || '?' in Print(ts) || '{' in Print(ts)
    decreases |ts|
  {
    if ts != [] {
      MetaIffMetaChar(ts[1..]);
      assert LegalToken(ts[0]);
      assert ts == [ts[0]] + ts[1..];
      assert IsMeta(ts[0]) ==> PrintToken(ts[0])[0] in Print(ts);
      assert HasMeta(ts) <==> IsMeta(ts[0]) || HasMeta(ts[1..]);
    }
  }
}
