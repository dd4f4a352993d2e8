/** What a pattern means (OSC 1.0, "OSC Message Dispatching and Pattern Matching", without
    [ ]), and the committing matcher of ideas/pattern.c:84-158 on tokens. */
module PatternLanguage {
  import opened Options
  import opened PatternSyntax

  predicate NoSlash(s: string) {
    '/' !in s
  }

  // ---------- The declarative language ----------

  /** What a single token stands for; none but Slash stands for text with a slash in it. */
  ghost predicate Denotes(t: Token, s: string) {
    match t
    case Slash => s == "/"
    case Lit(c) => s == [c]
    case AnyChar => |s| == 1 && NoSlash(s)
    case Star => NoSlash(s)
    case Group(alts) => s in alts
  }

  /** s is a concatenation of texts that the tokens stand for. */
  ghost predicate Matches(ts: seq<Token>, s: string)
    decreases |ts|
  {
    if ts == [] then s == []
    else exists k | 0 <= k <= |s| :: Denotes(ts[0], s[..k]) && Matches(ts[1..], s[k..])
  }

  lemma MatchesCons(ts: seq<Token>, s: string, k: nat)
    requires ts != [] && k <= |s| && Denotes(ts[0], s[..k]) && Matches(ts[1..], s[k..])
    ensures Matches(ts, s)
  {
  }

  lemma MatchesUncons(ts: seq<Token>, s: string) returns (k: nat)
    requires ts != [] && Matches(ts, s)
    ensures k <= |s| && Denotes(ts[0], s[..k]) && Matches(ts[1..], s[k..])
  {
    k :| 0 <= k <= |s| && Denotes(ts[0], s[..k]) && Matches(ts[1..], s[k..]);
  }

  function Slashes(s: string): nat {
    if s == [] then 0 else (if s[0] == '/' then 1 else 0) + Slashes(s[1..])
  }

  function SlashTokens(ts: seq<Token>): nat {
    if ts == [] then 0 else (if ts[0].Slash? then 1 else 0) + SlashTokens(ts[1..])
  }

  lemma {:induction false} SlashesConcat(a: string, b: string)
    ensures Slashes(a + b) == Slashes(a) + Slashes(b)
  {
    if a == [] {
      assert a + b == b;
    } else {
      SlashesConcat(a[1..], b);
      assert (a + b)[1..] == a[1..] + b;
    }
  }

  lemma {:induction false} NoSlashCount(s: string)
    ensures NoSlash(s) <==> Slashes(s) == 0
  {
    if s != [] {
      NoSlashCount(s[1..]);
      assert s == [s[0]] + s[1..];
    }
  }

  /** Only a star stands for the empty text, and only Slash for text with a slash. */
  lemma DenotedText(t: Token, s: string)
    requires LegalToken(t) && Denotes(t, s)
    ensures !t.Star? ==> s != []
    ensures !t.Slash? ==> NoSlash(s)
  {
    if t.Group? {
      assert LegalAlt(s);
    }
  }

  /** *, ? and groups never cross a slash: a matching text has the pattern's segments. */
  lemma {:induction false} SegmentsAgree(ts: seq<Token>, s: string)
    requires Legal(ts) && Matches(ts, s)
    ensures Slashes(s) == SlashTokens(ts)
    decreases |ts|
  {
    if ts != [] {
      var k := MatchesUncons(ts, s);
      assert LegalToken(ts[0]);
      DenotedText(ts[0], s[..k]);
      NoSlashCount(s[..k]);
      SegmentsAgree(ts[1..], s[k..]);
      SlashesConcat(s[..k], s[k..]);
      assert s == s[..k] + s[k..];
    }
  }

  /** No two slashes in a row: no segment but the last is empty. */
  predicate NoEmptySegment(s: string) {
    forall k | 0 <= k < |s| - 1 :: !(s[k] == '/' && s[k + 1] == '/')
  }

  // ---------- The matcher ----------

  /** The length of the rest of the segment. */
  function SegmentLength(s: string): (n: nat)
    ensures n <= |s| && NoSlash(s[..n]) && (n < |s| ==> s[n] == '/')
  {
    if s == [] || s[0] == '/' then 0 else
      assert s[..1 + SegmentLength(s[1..])] == [s[0]] + s[1..][..SegmentLength(s[1..])];
      1 + SegmentLength(s[1..])
  }

  lemma {:induction false} SegmentLengthUnique(s: string, k: nat)
    requires k <= |s| && NoSlash(s[..k]) && (k < |s| ==> s[k] == '/')
    ensures k == SegmentLength(s)
  {
    if k > 0 {
      assert s[0] == s[..k][0] && s[1..][..k - 1] == s[..k][1..];
      SegmentLengthUnique(s[1..], k - 1);
    }
  }

  /** The first alternative, in order, that the text begins with. */
  function FirstAlt(alts: seq<string>, s: string): (r: Option<string>)
    ensures r.Some? ==> r.value in alts && r.value <= s
  {
    if alts == [] then None
    else if alts[0] <= s then Some(alts[0])
    else FirstAlt(alts[1..], s)
  }

  lemma {:induction false} FirstAltFinds(alts: seq<string>, s: string, a: string)
    requires a in alts && a <= s
    ensures FirstAlt(alts, s).Some?
  {
    if !(alts[0] <= s) {
      assert alts == [alts[0]] + alts[1..];
      FirstAltFinds(alts[1..], s, a);
    }
  }

  /** The main loop: atStart says that the previous input character was a slash. */
  predicate Commit(ts: seq<Token>, s: string, atStart: bool)
    decreases |ts|
  {
    if ts == [] || s == [] then
      s == [] && (ts == [] || ts == [Star])
    else if s[0] == '/' then
      if atStart then false
      else if ts[0].Star? then |ts| > 1 && ts[1].Slash? && Commit(ts[2..], s[1..], true)
      else ts[0].Slash? && Commit(ts[1..], s[1..], true)
    else match ts[0]
      case AnyChar => Commit(ts[1..], s[1..], false)
      case Star => Commit(ts[1..], s[SegmentLength(s)..], false)
      case Group(alts) =>
        var a := FirstAlt(alts, s);
        a.Some? && Commit(ts[1..], s[|a.value|..], false)
      case Lit(c) => s[0] == c && Commit(ts[1..], s[1..], false)
      case Slash => false
  }

  predicate MatchTokens(ts: seq<Token>, s: string) {
    ts != [] && s != [] && s[0] == '/' && Commit(ts[1..], s[1..], true)
  }

  // ---------- Soundness, for every pattern ----------

  /** What NoEmptySegment says of the rest of the input. */
  predicate NoEmptyFrom(s: string, atStart: bool) {
    NoEmptySegment(s) && (atStart && s != [] ==> s[0] != '/')
  }

  lemma NoEmptyAfter(p: string, s: string, atStart: bool, after: bool)
    requires p != [] && NoEmptyFrom(p, atStart) && NoEmptyFrom(s, after)
    requires p[|p| - 1] == '/' ==> after
    ensures NoEmptyFrom(p + s, atStart)
  {
    var t := p + s;
    forall k | 0 <= k < |t| - 1
      ensures !(t[k] == '/' && t[k + 1] == '/')
    {
    }
  }

  lemma StarThenSlash(ts: seq<Token>, s: string)
    requires |ts| > 1 && ts[0].Star? && ts[1].Slash? && s != [] && s[0] == '/' && Matches(ts[2..], s[1..])
    ensures Matches(ts, s)
  {
    assert ts[1..][1..] == ts[2..] && s[..1] == "/";
    MatchesCons(ts[1..], s, 1);
    assert s[0..] == s;
    MatchesCons(ts, s, 0);
  }

  lemma SlashSound(ts: seq<Token>, s: string, n: nat)
    requires 0 < n <= |ts| && ts[n - 1].Slash? && (n == 1 || (n == 2 && ts[0].Star?))
    requires s != [] && s[0] == '/' && Matches(ts[n..], s[1..]) && NoEmptyFrom(s[1..], true)
    ensures Matches(ts, s) && NoEmptyFrom(s, false)
  {
    NoEmptyAfter("/", s[1..], false, true);
    assert s == "/" + s[1..] && s[..1] == "/";
    if n == 2 {
      StarThenSlash(ts, s);
    } else {
      MatchesCons(ts, s, 1);
    }
  }

  lemma BiteSound(ts: seq<Token>, s: string, k: nat, atStart: bool)
    requires ts != [] && 0 < k <= |s| && s[0] != '/' && NoSlash(s[..k]) && Denotes(ts[0], s[..k])
    requires Matches(ts[1..], s[k..]) && NoEmptyFrom(s[k..], false)
    ensures Matches(ts, s) && NoEmptyFrom(s, atStart)
  {
    MatchesCons(ts, s, k);
    NoEmptyAfter(s[..k], s[k..], atStart, false);
    assert s == s[..k] + s[k..];
  }

  lemma {:induction false} CommitSound(ts: seq<Token>, s: string, atStart: bool)
    requires Legal(ts) && Commit(ts, s, atStart)
    ensures Matches(ts, s) && NoEmptyFrom(s, atStart)
    decreases |ts|
  {
    if ts == [] || s == [] {
      if ts == [Star] {
        assert s[..0] == [] && s[0..] == [];
        MatchesCons(ts, s, 0);
      }
    } else if s[0] == '/' {
      var n := if ts[0].Star? then 2 else 1;
      CommitSound(ts[n..], s[1..], true);
      SlashSound(ts, s, n);
    } else {
      CommitBites(ts, s, atStart);
      var k := Bite(ts[0], s).value;
      CommitSound(ts[1..], s[k..], false);
      BiteSound(ts, s, k, atStart);
    }
  }

  /** How many characters the matcher gives a token inside a segment, if it takes any. */
  function Bite(t: Token, s: string): (r: Option<nat>)
    requires s != [] && s[0] != '/' && LegalToken(t)
    ensures r.Some? ==> 0 < r.value <= |s| && NoSlash(s[..r.value]) && Denotes(t, s[..r.value])
  {
    match t
    case AnyChar => Some(1)
    case Star => Some(SegmentLength(s))
    case Group(alts) =>
      var a := FirstAlt(alts, s);
      if a.None? then None else
        DenotedText(t, a.value);
        assert s[..|a.value|] == a.value;
        Some(|a.value|)
    case Lit(c) => if s[0] == c then Some(1) else None
    case Slash => None
  }

  /** Inside a segment the matcher gives the next token its bite and never takes it back. */
  lemma CommitBites(ts: seq<Token>, s: string, atStart: bool)
    requires Legal(ts) && ts != [] && s != [] && s[0] != '/'
    ensures LegalToken(ts[0])
    ensures Commit(ts, s, atStart) <==>
            Bite(ts[0], s).Some? && Commit(ts[1..], s[Bite(ts[0], s).value..], false)
  {
    assert LegalToken(ts[0]);
  }

  /** For every accepted pattern, interior stars and overlapping alternatives included: a
      match is a text of the language, and it has no empty segment but perhaps the last. */
  lemma MatchIsSound(pattern: string, input: string)
    requires Accepts(pattern) && MatchTokens(Tokens(pattern), input)
    ensures Matches(Tokens(pattern), input) && NoEmptySegment(input)
    ensures Slashes(input) == SlashTokens(Tokens(pattern))
  {
    TokenizeSound(pattern);
    var ts := Tokens(pattern);
    CommitSound(ts[1..], input[1..], true);
    assert input == "/" + input[1..] && input[..1] == "/";
    MatchesCons(ts, input, 1);
    NoEmptyAfter("/", input[1..], false, true);
    SegmentsAgree(ts, input);
  }
}
