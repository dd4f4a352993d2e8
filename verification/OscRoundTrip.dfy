/** Reading back what was written: the reader of src/read.c and the walk of test/udp_dump.c
    on the OSC 1.0 encoding of messages and packets. */
module OscRoundTrip {
  import opened Options
  import opened Bytes
  import opened OscEncoding
  import opened OscReader
  import opened OscRecord
  import opened OscWalk

  /** The bytes of mem from p on, up to end, are b. */
  predicate BytesAre(mem: seq<Byte>, p: nat, end: nat, b: seq<Byte>) {
    && end < |mem| && Guarded(mem) && end == p + |b|
    && forall i | 0 <= i < |b| :: mem[p + i] == b[i]
  }

  lemma BytesAreSlice(mem: seq<Byte>, p: nat, end: nat, b: seq<Byte>)
    requires Guarded(mem) && p <= end < |mem|
    ensures BytesAre(mem, p, end, b) <==> mem[p..end] == b
  {
    if mem[p..end] == b {
      assert forall i | 0 <= i < |b| :: mem[p + i] == mem[p..end][i];
    }
  }

  lemma BytesAreParts(mem: seq<Byte>, p: nat, end: nat, a: seq<Byte>, b: seq<Byte>)
    requires BytesAre(mem, p, end, a + b)
    ensures BytesAre(mem, p, p + |a|, a) && BytesAre(mem, p + |a|, end, b)
  {
    var c := a + b;
    forall i | 0 <= i < |b|
      ensures mem[p + |a| + i] == b[i]
    {
      assert c[|a| + i] == b[i] && mem[p + (|a| + i)] == c[|a| + i];
    }
    forall i | 0 <= i < |a|
      ensures mem[p + i] == a[i]
    {
      assert c[i] == a[i];
    }
  }

  // ---------- Values ----------

  lemma WordBack(mem: seq<Byte>, p: nat, w: Word32)
    requires BytesAre(mem, p, p + 4, BigEndian(w, 4))
    ensures WordAt(mem, p) == w
  {
    Ranges();
    BytesAreSlice(mem, p, p + 4, BigEndian(w, 4));
    BigEndianInverse(w, 4);
  }

  lemma DoubleWordBack(mem: seq<Byte>, p: nat, w: Word64)
    requires BytesAre(mem, p, p + 8, BigEndian(w, 8))
    ensures DoubleWordAt(mem, p) == w
  {
    Ranges();
    BytesAreSlice(mem, p, p + 8, BigEndian(w, 8));
    BigEndianInverse(w, 8);
  }

  lemma StringBack(mem: seq<Byte>, p: nat, s: seq<Byte>)
    requires CString(s) && BytesAre(mem, p, p + Round4(|s| + 1), EncString(s))
    ensures Strlen(mem, p) == |s| && mem[p..p + |s|] == s
  {
    var end := p + Round4(|s| + 1);
    var pad := Zeros(Round4(|s| + 1) - |s| - 1);
    assert EncString(s) == s + ([0] + pad);
    BytesAreParts(mem, p, end, s, [0] + pad);
    BytesAreSlice(mem, p, p + |s|, s);
    assert mem[p + |s| + 0] == ([0] + pad)[0];
    StrlenUnique(mem, p, |s|);
  }

  lemma Signed32Back(i: Int32)
    ensures Signed32(Unsigned32(i)) == i
  {
  }

  lemma Signed64Back(i: Int64)
    ensures Signed64(Unsigned64(i)) == i
  {
  }

  lemma BlobData(mem: seq<Byte>, p: nat, end: nat, d: seq<Byte>)
    requires BytesAre(mem, p, end, EncBlob(d))
    ensures p + 4 + |d| <= |mem| && mem[p + 4..p + 4 + |d|] == d
  {
    BytesAreParts(mem, p, end, BigEndian(|d|, 4), Aligned(d));
    BytesAreParts(mem, p + 4, end, d, Zeros(Round4(|d|) - |d|));
    BytesAreSlice(mem, p + 4, p + 4 + |d|, d);
  }

  lemma BlobBack(mem: seq<Byte>, c: Cursor, d: seq<Byte>, rest: seq<Byte>)
    requires Open(mem, c) && |d| <= TWO_31 - 4 && BytesAre(mem, c.argPtr.value, c.msgEnd, EncBlob(d) + rest)
    ensures var p := c.argPtr.value;
            && GetBlob(mem, c) == Got(OSC_OK, Some(Span(p + 4, |d|)), c.(argPtr := Some(p + |EncBlob(d)|)))
            && mem[p + 4..p + 4 + |d|] == d
  {
    var p, end := c.argPtr.value, c.msgEnd;
    var size, data := BigEndian(|d|, 4), Aligned(d);
    assert EncBlob(d) + rest == size + (data + rest);
    BytesAreParts(mem, p, end, size, data + rest);
    WordBack(mem, p, |d|);
    BytesAreParts(mem, p, end, EncBlob(d), rest);
    BlobData(mem, p, p + |EncBlob(d)|, d);
    assert Round32(|d|) == Round4(|d|);
  }

  // ---------- Arguments ----------

  /** A known tag is not negative as a char. */
  lemma KnownTag(a: Arg)
    requires ValidArg(a) && !a.Unknown?
    ensures 0 < Tag(a) < 128 && SignedChar(Tag(a)) == Tag(a)
  {
  }

  /** The cursor after the n bytes of an argument. */
  function Past(c: Cursor, n: nat): Cursor
    requires c.argPtr.Some?
  {
    c.(argPtr := Some(c.argPtr.value + n))
  }

  lemma WordArgBack(mem: seq<Byte>, c: Cursor, a: Arg)
    requires Open(mem, c) && (a.I32? || a.F32?) && c.argPtr.value + 4 <= c.msgEnd
    requires BytesAre(mem, c.argPtr.value, c.argPtr.value + 4, EncArg(a))
    ensures GetTagged(mem, c, Tag(a)) == Got(OSC_OK, Some(a), Past(c, 4))
  {
    var w: Word32 := if a.I32? then Unsigned32(a.i) else a.f;
    WordBack(mem, c.argPtr.value, w);
    assert GetWord32(mem, c) == Got(OSC_OK, Some(w), Past(c, 4));
    if a.I32? {
      Signed32Back(a.i);
    }
  }

  lemma DoubleWordArgBack(mem: seq<Byte>, c: Cursor, a: Arg)
    requires Open(mem, c) && (a.I64? || a.Timetag? || a.F64?) && c.argPtr.value + 8 <= c.msgEnd
    requires BytesAre(mem, c.argPtr.value, c.argPtr.value + 8, EncArg(a))
    ensures GetTagged(mem, c, Tag(a)) == Got(OSC_OK, Some(a), Past(c, 8))
  {
    var w: Word64 := if a.I64? then Unsigned64(a.h) else if a.Timetag? then a.t else a.d;
    DoubleWordBack(mem, c.argPtr.value, w);
    assert GetWord64(mem, c) == Got(OSC_OK, Some(w), Past(c, 8));
    if a.I64? {
      Signed64Back(a.h);
    }
  }

  lemma TextArgBack(mem: seq<Byte>, c: Cursor, a: Arg)
    requires Open(mem, c) && a.Text? && ValidArg(a) && c.argPtr.value + |EncString(a.s)| <= c.msgEnd
    requires BytesAre(mem, c.argPtr.value, c.argPtr.value + |EncString(a.s)|, EncString(a.s))
    ensures GetTagged(mem, c, Tag(a)) == Got(OSC_OK, Some(a), Past(c, |EncString(a.s)|))
  {
    StringBack(mem, c.argPtr.value, a.s);
    assert GetString(mem, c) == Got(OSC_OK, Some(Span(c.argPtr.value, |a.s|)), Past(c, |EncString(a.s)|));
  }

  lemma BlobArgBack(mem: seq<Byte>, c: Cursor, a: Arg, rest: seq<Byte>)
    requires Open(mem, c) && a.Blob? && |a.data| <= TWO_31 - 4
    requires BytesAre(mem, c.argPtr.value, c.msgEnd, EncBlob(a.data) + rest)
    ensures GetTagged(mem, c, Tag(a)) == Got(OSC_OK, Some(a), Past(c, |EncBlob(a.data)|))
  {
    BlobBack(mem, c, a.data, rest);
  }

  /** Each getter inverts the encoding of its arguments. */
  lemma ArgBack(mem: seq<Byte>, c: Cursor, a: Arg, rest: seq<Byte>)
    requires Open(mem, c) && ValidArg(a) && !a.Unknown? && (a.Blob? ==> |a.data| <= TWO_31 - 4)
    requires BytesAre(mem, c.argPtr.value, c.msgEnd, EncArg(a) + rest)
    ensures GetTagged(mem, c, Tag(a)) == Got(OSC_OK, Some(a), Past(c, |EncArg(a)|))
  {
    BytesAreParts(mem, c.argPtr.value, c.msgEnd, EncArg(a), rest);
    if a.I32? || a.F32? {
      WordArgBack(mem, c, a);
    } else if a.I64? || a.Timetag? || a.F64? {
      DoubleWordArgBack(mem, c, a);
    } else if a.Text? {
      TextArgBack(mem, c, a);
    } else if a.Blob? {
      BlobArgBack(mem, c, a, rest);
    } else {
      assert c == Past(c, 0);
    }
  }

  /** The tag pointer stands before the tags of these arguments and the terminator. */
  ghost predicate TagsAhead(mem: seq<Byte>, c: Cursor, args: seq<Arg>) {
    && Typed(mem, c) && ValidArgs(args) && (forall a | a in args :: !a.Unknown?)
    && BytesAre(mem, c.typePtr.value, c.typePtr.value + |args| + 1, Tags(args) + [0])
  }

  /** The cursor stands before these arguments: their tags, the terminator and their data
      are what is left of the message. */
  ghost predicate StandsBefore(mem: seq<Byte>, c: Cursor, args: seq<Arg>) {
    && TagsAhead(mem, c, args)
    && BytesAre(mem, c.argPtr.value, c.msgEnd, EncArgs(args)) && c.msgEnd < TWO_31
  }

  lemma TagBack(mem: seq<Byte>, c: Cursor, args: seq<Arg>)
    requires TagsAhead(mem, c, args) && args != []
    ensures ValidArg(args[0]) && !args[0].Unknown? && Readable(mem, c.(typePtr := Some(c.typePtr.value + 1)))
    ensures NextTag(mem, c) == (Tag(args[0]), c.(typePtr := Some(c.typePtr.value + 1)))
    ensures BytesAre(mem, c.typePtr.value + 1, c.typePtr.value + 1 + |args[1..]| + 1, Tags(args[1..]) + [0])
  {
    var a, t := args[0], c.typePtr.value;
    assert ValidArg(a);
    assert Tags(args) + [0] == [Tag(a)] + (Tags(args[1..]) + [0]);
    BytesAreParts(mem, t, t + |args| + 1, [Tag(a)], Tags(args[1..]) + [0]);
    assert mem[t + 0] == [Tag(a)][0];
    KnownTag(a);
  }

  lemma NextBack(mem: seq<Byte>, c: Cursor, args: seq<Arg>) returns (c': Cursor)
    requires StandsBefore(mem, c, args) && args != []
    ensures c' == Cursor(c.msgPtr, c.msgEnd, Some(c.typePtr.value + 1), c'.argPtr)
    ensures GetArg(mem, c) == Got(OSC_OK, Some(args[0]), c') && StandsBefore(mem, c', args[1..])
  {
    hide GetTagged, NextTag, EncArg;
    var a, rest, p := args[0], EncArgs(args[1..]), c.argPtr.value;
    TagBack(mem, c, args);
    BytesAreParts(mem, p, c.msgEnd, EncArg(a), rest);
    BlobFits(a, rest, c.msgEnd);
    var c1 := c.(typePtr := Some(c.typePtr.value + 1));
    ArgBack(mem, c1, a, rest);
    c' := Past(c1, |EncArg(a)|);
  }

  lemma BlobFits(a: Arg, rest: seq<Byte>, bound: nat)
    requires |EncArg(a) + rest| <= bound < TWO_31
    ensures a.Blob? ==> |a.data| <= TWO_31 - 4
  {
  }

  lemma ReadArgsStep(mem: seq<Byte>, c: Cursor, a: Arg, c': Cursor, rest: Args)
    requires Typed(mem, c) && Typed(mem, c') && GetArg(mem, c) == Got(OSC_OK, Some(a), c') && ReadArgs(mem, c') == rest
    ensures ReadArgs(mem, c) == Args([a] + rest.args, rest.code, rest.c)
  {
  }

  lemma NoMoreArgs(mem: seq<Byte>, c: Cursor)
    requires StandsBefore(mem, c, [])
    ensures ReadArgs(mem, c) == Args([], OSC_END, c) && c.argPtr == Some(c.msgEnd)
  {
    var t := c.typePtr.value;
    assert mem[t + 0] == (Tags([]) + [0])[0] == 0;
  }

  /** The cursor with nothing left to read. */
  function AtEnd(c: Cursor, args: nat): Cursor
    requires c.typePtr.Some?
  {
    Cursor(c.msgPtr, c.msgEnd, Some(c.typePtr.value + args), Some(c.msgEnd))
  }

  /** Reading the arguments gives them back and ends exactly at the end of the message. */
  lemma {:induction false} ArgsBack(mem: seq<Byte>, c: Cursor, args: seq<Arg>)
    requires StandsBefore(mem, c, args)
    ensures ReadArgs(mem, c) == Args(args, OSC_END, AtEnd(c, |args|))
    decreases |args|
  {
    hide GetArg, EncArg;
    if args == [] {
      NoMoreArgs(mem, c);
    } else {
      var c' := NextBack(mem, c, args);
      ArgsBack(mem, c', args[1..]);
      ReadArgsStep(mem, c, args[0], c', Args(args[1..], OSC_END, AtEnd(c', |args| - 1)));
      assert [args[0]] + args[1..] == args;
    }
  }

  // ---------- Arguments through the record ----------

  /** The argument a caller gets from what the record shows, unless it points outside memory. */
  function Reported(mem: seq<Byte>, s: Seen): Option<Arg> {
    match s
    case Value(a) => Some(a)
    case BlobAt(at, len) =>
      if 0 <= at && 0 <= len && at + len <= |mem| then Some(Blob(mem[at..at + len])) else None
  }

  lemma OneReported(host: Machine, mem: seq<Byte>, a: Arg, at: nat)
    requires BytesAre(mem, at, at + |EncArg(a)|, EncArg(a))
    ensures Reported(mem, Found(host, a, at)).Some? ==
            (a.Blob? ==> 0 <= LenSeen(host, host.base + at + 4) <= |mem| - (at + 4))
    ensures Reported(mem, Found(host, a, at)) == Some(a) <==> LengthSurvives(host, a, at)
  {
    hide LenSeen;
    if a.Blob? {
      assert EncArg(a) == EncBlob(a.data);
      BlobData(mem, at, at + |EncArg(a)|, a.data);
    }
  }

  /** The record that osc_msg_reader_get_arg fills with a written argument holds that argument
      exactly if it is not a blob, or its length happens to be what the pointer to its data
      shows in the place of the length. */
  lemma RecordHoldsWrittenIff(host: Machine, mem: seq<Byte>, c: Cursor, args: seq<Arg>)
    requires StandsBefore(mem, c, args) && args != []
    ensures var g, at := GetArg(mem, c), c.argPtr.value;
            && g.code == OSC_OK && g.value == Some(args[0])
            && Reported(mem, Found(host, g.value.value, at)).Some? ==
               (args[0].Blob? ==> 0 <= LenSeen(host, host.base + at + 4) <= |mem| - (at + 4))
            && (Reported(mem, Found(host, g.value.value, at)) == Some(args[0]) <==> LengthSurvives(host, args[0], at))
  {
    hide GetArg, EncArg, EncArgs, LenSeen, Found, Reported, LengthSurvives;
    var c' := NextBack(mem, c, args);
    FirstData(mem, c, args);
    OneReported(host, mem, args[0], c.argPtr.value);
  }

  lemma FirstData(mem: seq<Byte>, c: Cursor, args: seq<Arg>)
    requires StandsBefore(mem, c, args) && args != []
    ensures var at := c.argPtr.value; BytesAre(mem, at, at + |EncArg(args[0])|, EncArg(args[0]))
  {
    BytesAreParts(mem, c.argPtr.value, c.msgEnd, EncArg(args[0]), EncArgs(args[1..]));
  }

  /** What the record shows of arguments whose data begins at a position. */
  function ShownArgs(host: Machine, args: seq<Arg>, at: nat): seq<Seen> {
    if args == [] then [] else
      [Found(host, args[0], at)] + ShownArgs(host, args[1..], at + |EncArg(args[0])|)
  }

  predicate LengthsSurvive(host: Machine, args: seq<Arg>, at: nat) {
    args != [] ==>
      LengthSurvives(host, args[0], at) && LengthsSurvive(host, args[1..], at + |EncArg(args[0])|)
  }

  /** What all the arguments of a message look like through the record. */
  lemma {:induction false} ArgsShown(host: Machine, mem: seq<Byte>, c: Cursor, args: seq<Arg>)
    requires StandsBefore(mem, c, args)
    ensures ShowArgs(host, mem, c) == ShownArgs(host, args, c.argPtr.value)
    decreases |args|
  {
    hide GetArg, EncArg, Found;
    if args == [] {
      NoMoreArgs(mem, c);
      ArgsEnd(host, mem, c);
    } else {
      var c' := NextBack(mem, c, args);
      var rest := OneMoreArg(host, mem, c);
      ArgsShown(host, mem, c', args[1..]);
    }
  }

  function ReportedAll(mem: seq<Byte>, ss: seq<Seen>): Option<seq<Arg>> {
    if ss == [] then Some([])
    else
      var a, rest := Reported(mem, ss[0]), ReportedAll(mem, ss[1..]);
      if a.None? || rest.None? then None else Some([a.value] + rest.value)
  }

  lemma {:induction false} ArgsReportedIff(host: Machine, mem: seq<Byte>, at: nat, end: nat, args: seq<Arg>)
    requires BytesAre(mem, at, end, EncArgs(args))
    ensures ReportedAll(mem, ShownArgs(host, args, at)) == Some(args) <==> LengthsSurvive(host, args, at)
    decreases |args|
  {
    hide EncArg, LengthSurvives, Found, Reported, BytesAre;
    if args != [] {
      var n, rest := |EncArg(args[0])|, args[1..];
      BytesAreParts(mem, at, end, EncArg(args[0]), EncArgs(rest));
      OneReported(host, mem, args[0], at);
      ArgsReportedIff(host, mem, at + n, end, rest);
      ShownCons(host, args, at);
      HeadAndTail(args);
    }
  }

  lemma ShownCons(host: Machine, args: seq<Arg>, at: nat)
    requires args != []
    ensures var ss := ShownArgs(host, args, at);
            && ss != [] && ss[0] == Found(host, args[0], at)
            && ss[1..] == ShownArgs(host, args[1..], at + |EncArg(args[0])|)
  {
  }

  lemma HeadAndTail<T>(s: seq<T>)
    requires s != []
    ensures forall x, rest :: [x] + rest == s <==> x == s[0] && rest == s[1..]
  {
    assert s == [s[0]] + s[1..];
    forall x, rest | [x] + rest == s
      ensures x == s[0] && rest == s[1..]
    {
      assert ([x] + rest)[0] == x && ([x] + rest)[1..] == rest;
    }
  }

  // ---------- Messages ----------

  function TagStart(m: Message, start: nat): nat {
    start + Round4(|m.address| + 1)
  }

  function ArgStart(m: Message, start: nat): nat {
    TagStart(m, start) + Round4(|m.args| + 2)
  }

  /** The cursor of a message that lies between start and end. */
  function Opened(m: Message, start: nat, end: nat): Cursor {
    Cursor(start, end, Some(TagStart(m, start) + 1), Some(ArgStart(m, start)))
  }

  lemma MessageParts(m: Message)
    requires ValidArgs(m.args)
    ensures EncMessage(m) == EncString(m.address) + (EncString([COMMA] + Tags(m.args)) + EncArgs(m.args))
    ensures |EncMessage(m)| == ArgStart(m, 0) + |EncArgs(m.args)|
  {
    var x, y, z := EncString(m.address), EncString([COMMA] + Tags(m.args)), EncArgs(m.args);
    assert x + y + z == x + (y + z);
  }

  lemma InitTyped(mem: seq<Byte>, start: nat, len: nat, a: nat, b: nat)
    requires Guarded(mem) && start + len < |mem| && a == Strlen(mem, start)
    requires var types := start + Round4(a + 1);
             && types < start + len && mem[types] == COMMA
             && b == Strlen(mem, types) && types + Round4(b + 1) <= start + len
    ensures var types := start + Round4(a + 1);
            InitMessage(mem, start, len).Some? && InitMessage(mem, start, len).value ==
              Cursor(start, start + len, Some(types + 1), Some(types + Round4(b + 1)))
  {
  }

  lemma FirstOfString(s: seq<Byte>)
    ensures EncString(s)[0] == if s == [] then 0 else s[0]
  {
    assert EncString(s)[0] == (s + [0])[0];
  }

  /** The three parts of an encoded message, where they lie. */
  lemma PartsBack(mem: seq<Byte>, start: nat, end: nat, m: Message)
    requires ValidMessage(m) && end == start + |EncMessage(m)| && BytesAre(mem, start, end, EncMessage(m))
    ensures start < TagStart(m, start) < ArgStart(m, start) <= end
    ensures BytesAre(mem, start, TagStart(m, start), EncString(m.address))
    ensures BytesAre(mem, TagStart(m, start), ArgStart(m, start), EncString([COMMA] + Tags(m.args)))
    ensures BytesAre(mem, ArgStart(m, start), end, EncArgs(m.args))
  {
    MessageParts(m);
    hide EncArgs, EncString, EncMessage, EncHead, Round4, Tags, BytesAre;
    var x, y, z := EncString(m.address), EncString([COMMA] + Tags(m.args)), EncArgs(m.args);
    BytesAreParts(mem, start, end, x, y + z);
    BytesAreParts(mem, TagStart(m, start), end, y, z);
  }

  lemma TagStringBack(mem: seq<Byte>, p: nat, end: nat, tags: seq<Byte>)
    requires CString(tags) && BytesAre(mem, p, end, EncString([COMMA] + tags))
    ensures p < end && mem[p] == COMMA && Strlen(mem, p) == |tags| + 1 && p + Round4(|tags| + 2) == end
  {
    StringBack(mem, p, [COMMA] + tags);
    FirstOfString([COMMA] + tags);
    assert mem[p + 0] == COMMA;
  }

  lemma HeadBack(mem: seq<Byte>, start: nat, end: nat, m: Message)
    requires ValidMessage(m) && end == start + |EncMessage(m)| && BytesAre(mem, start, end, EncMessage(m))
    ensures InitMessage(mem, start, end - start) == Some(Opened(m, start, end))
    ensures mem[start..start + Strlen(mem, start)] == m.address
  {
    hide InitMessage, EncString, EncMessage, EncArgs, EncHead, BytesAre, Round4, Tags, Strlen;
    PartsBack(mem, start, end, m);
    InMemory(mem, start, end, m);
    TagStringBack(mem, TagStart(m, start), ArgStart(m, start), Tags(m.args));
    StringBack(mem, start, m.address);
    InitTyped(mem, start, end - start, |m.address|, |m.args| + 1);
  }

  lemma InMemory(mem: seq<Byte>, start: nat, end: nat, m: Message)
    requires ValidArgs(m.args) && BytesAre(mem, start, end, EncMessage(m))
    ensures start <= end < |mem| && Guarded(mem)
  {
  }

  lemma TagsBack(mem: seq<Byte>, p: nat, end: nat, tags: seq<Byte>)
    requires BytesAre(mem, p, end, EncString([COMMA] + tags))
    ensures BytesAre(mem, p + 1, p + 1 + |tags| + 1, tags + [0])
  {
    var pad := Zeros(Round4(|tags| + 2) - |tags| - 2);
    assert EncString([COMMA] + tags) == [COMMA] + (tags + [0] + pad);
    BytesAreParts(mem, p, end, [COMMA], tags + [0] + pad);
    BytesAreParts(mem, p + 1, end, tags + [0], pad);
  }

  /** The round trip of a message: the reader opens it, finds the address and the type tags
      written, and the getters that the tags call for read back exactly the arguments, blobs
      with two separate outputs; then OSC_END, with the argument pointer at the end of the
      message. */
  lemma MessageRoundTrip(mem: seq<Byte>, start: nat, end: nat, m: Message)
    requires ValidMessage(m) && end < TWO_31 && end == start + |EncMessage(m)|
    requires BytesAre(mem, start, end, EncMessage(m))
    ensures InitMessage(mem, start, end - start) == Some(Opened(m, start, end))
    ensures mem[start..start + Strlen(mem, start)] == m.address
    ensures var c := Opened(m, start, end);
            && StandsBefore(mem, c, m.args)
            && ReadArgs(mem, c) == Args(m.args, OSC_END, AtEnd(c, |m.args|))
  {
    hide InitMessage, ReadArgs, EncMessage, EncString, EncArgs, Tags, BytesAre, Round4;
    HeadBack(mem, start, end, m);
    PartsBack(mem, start, end, m);
    InMemory(mem, start, end, m);
    InitIsReadable(mem, start, end - start);
    var c := Opened(m, start, end);
    TagsBack(mem, TagStart(m, start), ArgStart(m, start), Tags(m.args));
    ArgsBack(mem, c, m.args);
  }

  /** What the walk should make of a message. */
  function MessageNode(host: Machine, m: Message, start: nat): Node
    requires ValidArgs(m.args)
  {
    MsgNode(start, |EncMessage(m)|, m.address, Some(ShownArgs(host, m.args, ArgStart(m, start))))
  }

  lemma DumpBack(host: Machine, mem: seq<Byte>, start: nat, m: Message)
    requires ValidMessage(m) && start + |EncMessage(m)| < TWO_31
    requires BytesAre(mem, start, start + |EncMessage(m)|, EncMessage(m))
    ensures DumpMessage(host, mem, start, |EncMessage(m)|) == MessageNode(host, m, start)
  {
    hide EncMessage, ReadArgs, StandsBefore, ShownArgs, ShowArgs;
    var end := start + |EncMessage(m)|;
    MessageRoundTrip(mem, start, end, m);
    ArgsShown(host, mem, Opened(m, start, end), m.args);
  }

  // ---------- Messages without type tags ----------

  /** The cursor of a message between start and end whose address is followed by data, or by
      nothing. */
  function OpenedUntagged(address: seq<Byte>, data: seq<Byte>, start: nat, end: nat): Cursor {
    Cursor(start, end, None, if data == [] then None else Some(start + |EncString(address)|))
  }

  lemma InitUntagged(mem: seq<Byte>, start: nat, len: nat, a: nat)
    requires Guarded(mem) && start + len < |mem| && a == Strlen(mem, start) && Round4(a + 1) <= len
    requires Round4(a + 1) < len ==> mem[start + Round4(a + 1)] != COMMA
    ensures InitMessage(mem, start, len) ==
            Some(Cursor(start, start + len, None, if Round4(a + 1) == len then None else Some(start + Round4(a + 1))))
  {
  }

  /** Init opens it, with its address, a NULL tag pointer and the argument pointer at the data,
      or NULL if there is none. */
  lemma UntaggedBack(mem: seq<Byte>, start: nat, end: nat, address: seq<Byte>, data: seq<Byte>)
    requires ValidUntagged(address, data) && BytesAre(mem, start, end, EncString(address) + data)
    ensures start <= end < |mem| && Guarded(mem)
    ensures InitMessage(mem, start, end - start) == Some(OpenedUntagged(address, data, start, end))
    ensures mem[start..start + Strlen(mem, start)] == address
    ensures BytesAre(mem, start + |EncString(address)|, end, data)
  {
    var x, p := EncString(address), start + |EncString(address)|;
    BytesAreParts(mem, start, end, x, data);
    StringBack(mem, start, address);
    if data != [] {
      assert mem[p + 0] == data[0];
    }
    hide EncString, Round4, Strlen;
    InitUntagged(mem, start, end - start, |address|);
  }

  function UntaggedNode(address: seq<Byte>, data: seq<Byte>, start: nat): Node {
    MsgNode(start, |EncString(address) + data|, address, None)
  }

  lemma UntaggedDumpBack(host: Machine, mem: seq<Byte>, start: nat, address: seq<Byte>, data: seq<Byte>)
    requires ValidUntagged(address, data)
    requires var b := EncString(address) + data; BytesAre(mem, start, start + |b|, b)
    ensures var n := |EncString(address) + data|;
            start + n < |mem| && Guarded(mem) && DumpMessage(host, mem, start, n) == UntaggedNode(address, data, start)
  {
    hide EncString, InitMessage, Strlen;
    UntaggedBack(mem, start, start + |EncString(address) + data|, address, data);
  }

  /** The getters for these tags, called one after the other: the values up to the first failure,
      its code, and the cursor. */
  function GetEach(mem: seq<Byte>, c: Cursor, tags: seq<int>): Args
    requires Open(mem, c)
    decreases |tags|
  {
    if tags == [] then Args([], OSC_OK, c)
    else
      var g := GetTagged(mem, c, tags[0]);
      if g.code != OSC_OK || g.value.None? || !Open(mem, g.c) then Args([], g.code, g.c)
      else
        var rest := GetEach(mem, g.c, tags[1..]);
        rest.(args := [g.value.value] + rest.args)
  }

  /** The cursor stands before the data of these arguments, which is what is left of the
      message. */
  ghost predicate BeforeData(mem: seq<Byte>, c: Cursor, args: seq<Arg>) {
    && Open(mem, c) && ValidArgs(args) && (forall a | a in args :: !a.Unknown?)
    && BytesAre(mem, c.argPtr.value, c.msgEnd, EncArgs(args)) && c.msgEnd < TWO_31
  }

  lemma NextDataBack(mem: seq<Byte>, c: Cursor, args: seq<Arg>) returns (c': Cursor)
    requires BeforeData(mem, c, args) && args != []
    ensures ValidArg(args[0]) && c' == Past(c, |EncArg(args[0])|)
    ensures GetTagged(mem, c, Tag(args[0])) == Got(OSC_OK, Some(args[0]), c') && BeforeData(mem, c', args[1..])
  {
    hide GetTagged, EncArg;
    var a, rest, p := args[0], EncArgs(args[1..]), c.argPtr.value;
    assert ValidArg(a) && !a.Unknown?;
    BytesAreParts(mem, p, c.msgEnd, EncArg(a), rest);
    BlobFits(a, rest, c.msgEnd);
    ArgBack(mem, c, a, rest);
    c' := Past(c, |EncArg(a)|);
  }

  lemma {:induction false} EachBack(mem: seq<Byte>, c: Cursor, args: seq<Arg>)
    requires BeforeData(mem, c, args)
    ensures GetEach(mem, c, Tags(args)) == Args(args, OSC_OK, c.(argPtr := Some(c.msgEnd)))
    decreases |args|
  {
    hide GetTagged, EncArg, Tag;
    if args != [] {
      var c' := NextDataBack(mem, c, args);
      EachBack(mem, c', args[1..]);
      var tags: seq<int> := Tags(args);
      assert tags[1..] == Tags(args[1..]) && tags[0] == Tag(args[0]);
      assert [args[0]] + args[1..] == args;
    }
  }

  /** The round trip of a message without type tags: opened with its address, next_arg answers
      OSC_ERROR, and the getters called in the order of the arguments read them back, with the
      argument pointer at the end of the message. */
  lemma UntaggedRoundTrip(mem: seq<Byte>, start: nat, end: nat, address: seq<Byte>, args: seq<Arg>)
    requires ValidArgs(args) && (forall a | a in args :: !a.Unknown?)
    requires EncArgs(args) != [] && ValidUntagged(address, EncArgs(args)) && end < TWO_31
    requires BytesAre(mem, start, end, EncString(address) + EncArgs(args))
    ensures start <= end < |mem| && Guarded(mem) && mem[start..start + Strlen(mem, start)] == address
    ensures var c := Cursor(start, end, None, Some(start + |EncString(address)|));
            && InitMessage(mem, start, end - start) == Some(c) && Open(mem, c)
            && NextTag(mem, c) == (OSC_ERROR, c)
            && GetEach(mem, c, Tags(args)) == Args(args, OSC_OK, c.(argPtr := Some(end)))
  {
    hide EncString, EncArgs, InitMessage, Strlen, GetEach;
    UntaggedBack(mem, start, end, address, EncArgs(args));
    EachBack(mem, OpenedUntagged(address, EncArgs(args), start, end), args);
  }

  // ---------- Packets ----------

  /** What the walk makes of the encoding of a packet at start. A bundle without elements is
      16 bytes long, which the bundle reader refuses. */
  ghost function Image(host: Machine, p: Packet, start: nat): Node
    requires ValidPacket(p)
    decreases p, 1
  {
    match p
    case Msg(m) => MessageNode(host, m, start)
    case Untagged(a, d) => UntaggedNode(a, d, start)
    case Bundle(_, es) =>
      if es == [] then Bad(start, 16)
      else BundleNode(start, |EncPacket(p)|, Images(host, es, start + 16), true)
  }

  ghost function Images(host: Machine, es: seq<Packet>, from: nat): seq<Node>
    requires ValidElements(es)
    decreases es, 0
  {
    if es == [] then []
    else [Image(host, es[0], from + 4)] + Images(host, es[1..], from + 4 + |EncPacket(es[0])|)
  }

  lemma FirstByte(mem: seq<Byte>, start: nat, p: Packet)
    requires ValidPacket(p) && BytesAre(mem, start, start + |EncPacket(p)|, EncPacket(p))
    ensures PacketType(mem, start, |EncPacket(p)|) == if p.Bundle? then OSC_BUNDLE else OSC_MESSAGE
  {
    EncPacketSize(p);
    var b := EncPacket(p);
    assert mem[start + 0] == b[0];
    if p.Msg? {
      MessageFirstByte(p.m);
    } else if p.Untagged? {
      FirstOfString(p.address);
      assert b[0] == EncString(p.address)[0];
    }
  }

  lemma MessageFirstByte(m: Message)
    requires ValidArgs(m.args)
    ensures |EncMessage(m)| > 0 && EncMessage(m)[0] == if m.address == [] then 0 else m.address[0]
  {
    FirstOfString(m.address);
  }

  /** The walk of an encoded packet is its image: the same tree of messages, each element at
      its place, every bundle read to OSC_END. */
  lemma {:induction false} WalkBack(host: Machine, mem: seq<Byte>, start: nat, p: Packet)
    requires ValidPacket(p) && start + |EncPacket(p)| < TWO_31
    requires BytesAre(mem, start, start + |EncPacket(p)|, EncPacket(p))
    ensures WalkPacket(host, mem, start, |EncPacket(p)|) == Image(host, p, start)
    decreases p, 1
  {
    hide DumpMessage, EncMessage;
    FirstByte(mem, start, p);
    match p
    case Msg(m) => DumpBack(host, mem, start, m);
    case Untagged(a, d) => UntaggedDumpBack(host, mem, start, a, d);
    case Bundle(t, es) =>
      var head, end := BUNDLE_TAG + BigEndian(t, 8), start + |EncPacket(p)|;
      BytesAreParts(mem, start, end, head, EncElements(es));
      EncElementsAligned(es);
      if es != [] {
        EncPacketSize(es[0]);
        ElementsBack(host, mem, start + 16, end, es);
      }
  }

  lemma NextBackElement(mem: seq<Byte>, from: nat, end: nat, p: Packet, rest: seq<Byte>)
    requires ValidPacket(p) && BytesAre(mem, from, end, BigEndian(|EncPacket(p)|, 4) + EncPacket(p) + rest)
    ensures var n := |EncPacket(p)|;
            && from + 4 + n <= end && BytesAre(mem, from + 4, from + 4 + n, EncPacket(p))
            && BytesAre(mem, from + 4 + n, end, rest)
            && NextElement(mem, from, end) == Element(if p.Bundle? then OSC_BUNDLE else OSC_MESSAGE, from + 4, n)
  {
    hide EncPacket, ValidPacket, BigEndian, WordAt, PacketType;
    var size, b := BigEndian(|EncPacket(p)|, 4), EncPacket(p);
    EncPacketSize(p);
    assert size + b + rest == size + (b + rest);
    BytesAreParts(mem, from, end, size, b + rest);
    BytesAreParts(mem, from + 4, end, b, rest);
    WordBack(mem, from, |b|);
    FirstByte(mem, from + 4, p);
  }

  lemma ImagesCons(host: Machine, es: seq<Packet>, from: nat)
    requires ValidElements(es) && es != []
    ensures ValidPacket(es[0]) && ValidElements(es[1..])
    ensures var next := from + 4 + |EncPacket(es[0])|;
            Images(host, es, from) == [Image(host, es[0], from + 4)] + Images(host, es[1..], next)
    ensures EncElements(es) == BigEndian(|EncPacket(es[0])|, 4) + EncPacket(es[0]) + EncElements(es[1..])
  {
  }

  lemma NoElements(host: Machine, mem: seq<Byte>, from: nat, end: nat)
    requires end < TWO_31 && BytesAre(mem, from, end, EncElements([]))
    ensures WalkElements(host, mem, from, end) == (Images(host, [], from), true)
  {
  }

  lemma {:induction false} ElementsBack(host: Machine, mem: seq<Byte>, from: nat, end: nat, es: seq<Packet>)
    requires ValidElements(es) && end < TWO_31 && (end - from) % 4 == 0 && BytesAre(mem, from, end, EncElements(es))
    ensures WalkElements(host, mem, from, end) == (Images(host, es, from), true)
    decreases es, 0
  {
    hide WalkElements, NextElement, Visit, Images, Image, EncElements, EncPacket, ValidElements, ValidPacket;
    if es == [] {
      NoElements(host, mem, from, end);
    } else {
      ImagesCons(host, es, from);
      var p := es[0];
      NextBackElement(mem, from, end, p, EncElements(es[1..]));
      var n, rest := OneElement(host, mem, from, end);
      ElementBack(host, mem, from + 4, p);
      ElementsBack(host, mem, from + 4 + |EncPacket(p)|, end, es[1..]);
    }
  }

  lemma {:induction false} ElementBack(host: Machine, mem: seq<Byte>, start: nat, p: Packet)
    requires ValidPacket(p) && start + |EncPacket(p)| < TWO_31
    requires BytesAre(mem, start, start + |EncPacket(p)|, EncPacket(p))
    ensures var n := Visit(host, mem, Element(if p.Bundle? then OSC_BUNDLE else OSC_MESSAGE, start, |EncPacket(p)|));
            n == Image(host, p, start) && (!p.Bundle? ==> !n.Bad?)
    decreases p, 2
  {
    hide DumpMessage, WalkPacket;
    if p.Msg? {
      DumpBack(host, mem, start, p.m);
    } else if p.Untagged? {
      UntaggedDumpBack(host, mem, start, p.address, p.data);
    } else {
      WalkBack(host, mem, start, p);
    }
  }

  // ---------- Bundles of messages, as the writer makes them ----------

  /** At the place of node n a caller with typed getters reads back the message m, and the
      argument pointer ends at the end of the element. */
  ghost predicate ReadsBack(mem: seq<Byte>, n: Node, m: Message) {
    && Guarded(mem) && n.start + n.len < |mem| && n.MsgNode? && n.address == m.address
    && var c := InitMessage(mem, n.start, n.len);
       && c.Some? && Typed(mem, c.value) && c.value.msgEnd == n.start + n.len
       && var r := ReadArgs(mem, c.value);
          r.args == m.args && r.code == OSC_END && r.c.argPtr == Some(n.start + n.len)
  }

  /** What the walk and the getters find of a message, at the place of node n. */
  ghost predicate FoundAs(host: Machine, mem: seq<Byte>, n: Node, m: Message)
    requires ValidArgs(m.args)
  {
    ReadsBack(mem, n, m) && n == MessageNode(host, m, n.start)
  }

  lemma MessageFound(host: Machine, mem: seq<Byte>, start: nat, m: Message)
    requires ValidMessage(m) && start + |EncMessage(m)| < TWO_31
    requires BytesAre(mem, start, start + |EncMessage(m)|, EncMessage(m))
    ensures FoundAs(host, mem, MessageNode(host, m, start), m)
  {
    hide EncMessage, ReadArgs, InitMessage, ShownArgs, StandsBefore;
    InMemory(mem, start, start + |EncMessage(m)|, m);
    MessageRoundTrip(mem, start, start + |EncMessage(m)|, m);
    StandsOnTags(mem, Opened(m, start, start + |EncMessage(m)|), m.args);
  }

  lemma StandsOnTags(mem: seq<Byte>, c: Cursor, args: seq<Arg>)
    requires StandsBefore(mem, c, args)
    ensures Typed(mem, c)
  {
  }

  lemma {:induction false} MessagesFound(host: Machine, mem: seq<Byte>, from: nat, end: nat, ms: seq<Message>)
    requires ValidElements(AsPackets(ms)) && end < TWO_31 && BytesAre(mem, from, end, EncElements(AsPackets(ms)))
    ensures var cs := Images(host, AsPackets(ms), from);
            && |cs| == |ms|
            && forall i | 0 <= i < |ms| :: ValidArgs(ms[i].args) && FoundAs(host, mem, cs[i], ms[i])
    decreases |ms|
  {
    hide EncMessage, EncElements, BytesAre, FoundAs, MessageNode, ValidArgs, NextElement;
    if ms == [] {
    } else {
      var es := AsPackets(ms);
      ImagesCons(host, es, from);
      assert es[0] == Msg(ms[0]) && es[1..] == AsPackets(ms[1..]);
      NextBackElement(mem, from, end, es[0], EncElements(es[1..]));
      MessageFound(host, mem, from + 4, ms[0]);
      var next := from + 4 + |EncPacket(es[0])|;
      MessagesFound(host, mem, next, end, ms[1..]);
      var cs, rest := Images(host, es, from), Images(host, es[1..], next);
      forall i | 0 <= i < |ms|
        ensures ValidArgs(ms[i].args) && FoundAs(host, mem, cs[i], ms[i])
      {
        if i > 0 {
          assert cs[i] == rest[i - 1] && ms[i] == ms[1..][i - 1];
        }
      }
    }
  }

  /** The round trip of a bundle of messages: what a run of successful writes leaves in the
      buffer (BundleWriter.HoldsBundle) is read back as exactly those messages, in order, each
      with its address and arguments and to the end of its element, and then OSC_END. A bundle
      without messages is refused. */
  lemma BundleRoundTrip(host: Machine, mem: seq<Byte>, start: nat, when: Word64, ms: seq<Message>)
    requires ValidPacket(Bundle(when, AsPackets(ms)))
    requires var b := EncPacket(Bundle(when, AsPackets(ms)));
             start + |b| < TWO_31 && BytesAre(mem, start, start + |b|, b)
    ensures var n := WalkPacket(host, mem, start, |EncPacket(Bundle(when, AsPackets(ms)))|);
            if ms == [] then n.Bad?
            else
              && n.BundleNode? && n.ended && |n.children| == |ms|
              && forall i | 0 <= i < |ms| :: ValidArgs(ms[i].args) && FoundAs(host, mem, n.children[i], ms[i])
  {
    hide WalkPacket, EncElements, ValidElements, BytesAre, FoundAs, ValidArgs;
    var es := AsPackets(ms);
    var b := EncPacket(Bundle(when, es));
    WalkBack(host, mem, start, Bundle(when, es));
    BytesAreParts(mem, start, start + |b|, BUNDLE_TAG + BigEndian(when, 8), EncElements(es));
    MessagesFound(host, mem, start + 16, start + |b|, ms);
  }
}
