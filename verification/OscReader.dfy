/** The packet reader of src/read.c and what it computes. Memory is a byte sequence that the
    reader does not change; pointers are positions in it. */
module OscReader {
  import opened Options
  import opened Bytes
  import opened OscEncoding

  const OSC_MESSAGE := 2
  const OSC_BUNDLE := 1
  const OSC_OK := 0
  const OSC_ERROR := -1
  const OSC_END := -2

  /** The memory ends in a NUL, so that strlen cannot run out of it (test/udp_dump.c:20-23). */
  predicate Guarded(mem: seq<Byte>) {
    mem != [] && mem[|mem| - 1] == 0
  }

  function Strlen(mem: seq<Byte>, p: nat): (n: nat)
    requires Guarded(mem) && p < |mem|
    ensures p + n < |mem| && mem[p + n] == 0 && CString(mem[p..p + n])
    decreases |mem| - p
  {
    if mem[p] == 0 then 0 else
      var n := Strlen(mem, p + 1);
      assert mem[p..p + 1 + n] == [mem[p]] + mem[p + 1..p + 1 + n];
      1 + n
  }

  lemma {:induction false} StrlenUnique(mem: seq<Byte>, p: nat, n: nat)
    requires Guarded(mem) && p + n < |mem| && CString(mem[p..p + n]) && mem[p + n] == 0
    ensures Strlen(mem, p) == n
    decreases n
  {
    if n > 0 {
      assert mem[p] == mem[p..p + n][0];
      assert mem[p + 1..p + n] == mem[p..p + n][1..];
      StrlenUnique(mem, p + 1, n - 1);
    }
  }

  /** strlen, by its loop. */
  method ReadStrlen(mem: seq<Byte>, p: nat) returns (n: nat)
    requires Guarded(mem) && p < |mem|
    ensures n == Strlen(mem, p)
  {
    n := 0;
    while mem[p + n] != 0
      invariant p + n < |mem| && n + Strlen(mem, p + n) == Strlen(mem, p)
      decreases |mem| - n
    {
      n := n + 1;
    }
  }

  /** ROUND32 of an int32, whose addition wraps. */
  function Round32(i: Int32): int {
    var j := i + 3;
    var w: Int32 := if j < TWO_31 then j else j - TWO_32;
    w / 4 * 4
  }

  // ---------- Packets and bundles ----------

  function PacketType(mem: seq<Byte>, start: int, len: int): int
    requires len >= 4 ==> 0 <= start < |mem|
  {
    if len < 4 || len % 4 != 0 then OSC_ERROR
    else if mem[start] == HASH then OSC_BUNDLE
    else OSC_MESSAGE
  }

  function WordAt(mem: seq<Byte>, p: nat): Word32
    requires p + 4 <= |mem|
  {
    FromBigEndianInverse(mem[p..p + 4]);
    Ranges();
    FromBigEndian(mem[p..p + 4])
  }

  function DoubleWordAt(mem: seq<Byte>, p: nat): Word64
    requires p + 8 <= |mem|
  {
    FromBigEndianInverse(mem[p..p + 8]);
    Ranges();
    FromBigEndian(mem[p..p + 8])
  }

  /** The next element: result code, its start and length. */
  datatype Element = Element(code: int, start: int, len: int)

  /** osc_bundle_reader_next, when the size field is in memory. */
  function NextElement(mem: seq<Byte>, p: nat, end: nat): Element
    requires end <= |mem| && (p == end || p + 4 <= end)
  {
    if p == end then Element(OSC_END, 0, 0)
    else
      var start, len := p + 4, Signed32(WordAt(mem, p));
      if start + len > end then Element(OSC_ERROR, start, len)
      else Element(PacketType(mem, start, len), start, len)
  }

  /** osc_bundle_reader_t. */
  class BundleReader {
    const h: Host
    const mem: seq<Byte>
    var bundlePtr: nat
    var bundleEnd: nat
    var msgPtr: int

    constructor (h: Host, mem: seq<Byte>)
      ensures this.h == h && this.mem == mem
    {
      this.h, this.mem := h, mem;
      bundlePtr, bundleEnd, msgPtr := 0, 0, 0;
    }

    /** osc_bundle_reader_init. */
    method Init(buffer: nat, len: int) returns (code: int)
      requires buffer + len <= |mem|
      modifies this
      ensures code == if len < 20 then OSC_ERROR else OSC_OK
      ensures code == OSC_OK ==> bundlePtr == buffer && bundleEnd == buffer + len && msgPtr == buffer + 16
      ensures code != OSC_OK ==> bundlePtr == old(bundlePtr) && bundleEnd == old(bundleEnd) && msgPtr == old(msgPtr)
    {
      if len < 20 {
        return OSC_ERROR;
      }
      bundlePtr := buffer;
      bundleEnd := buffer + len;
      msgPtr := buffer + 16;
      return OSC_OK;
    }

    /** osc_bundle_reader_next. */
    method Next() returns (e: Element)
      requires 0 <= msgPtr && bundleEnd <= |mem| && (msgPtr == bundleEnd || msgPtr + 4 <= bundleEnd)
      modifies this`msgPtr
      ensures e == NextElement(mem, old(msgPtr), bundleEnd)
      ensures msgPtr == if e.code == OSC_END then old(msgPtr) else e.start + e.len
    {
      if msgPtr == bundleEnd {
        return Element(OSC_END, 0, 0);
      }
      LoadedWord(h, mem[msgPtr..msgPtr + 4]);
      var len := Signed32(HostToNet32(h, Load(h, mem[msgPtr..msgPtr + 4])));
      var start := msgPtr + 4;
      msgPtr := start + len;
      if msgPtr > bundleEnd {
        return Element(OSC_ERROR, start, len);
      }
      return Element(PacketType(mem, start, len), start, len);
    }
  }

  // ---------- Messages ----------

  /** The fields of osc_msg_reader_t; None is a NULL pointer. argPtr is an int because a wrapped blob size
      can move it anywhere. */
  datatype Cursor = Cursor(msgPtr: nat, msgEnd: nat, typePtr: Option<nat>, argPtr: Option<int>)

  /** osc_msg_reader_init; None is OSC_ERROR. */
  function InitMessage(mem: seq<Byte>, start: nat, len: nat): Option<Cursor>
    requires Guarded(mem) && start + len < |mem|
  {
    var end := start + len;
    var types := start + Round4(Strlen(mem, start) + 1);
    if types > end then None
    else if types == end then Some(Cursor(start, end, None, None))
    else if mem[types] == COMMA then
      var args := types + Round4(Strlen(mem, types) + 1);
      if args > end then None else Some(Cursor(start, end, Some(types + 1), Some(args)))
    else Some(Cursor(start, end, None, Some(types)))
  }

  /** A cursor that the getters may be called on. */
  predicate Readable(mem: seq<Byte>, c: Cursor) {
    && Guarded(mem) && c.msgEnd < |mem|
    && (c.typePtr.Some? ==> c.typePtr.value < |mem|)
    && (c.argPtr.Some? ==> 0 <= c.argPtr.value <= c.msgEnd)
  }

  /** A cursor with an argument pointer, with or without type tags. */
  predicate Open(mem: seq<Byte>, c: Cursor) {
    Readable(mem, c) && c.argPtr.Some?
  }

  /** A cursor on a message with a type tag string. */
  predicate Typed(mem: seq<Byte>, c: Cursor) {
    Open(mem, c) && c.typePtr.Some?
  }

  /** osc_msg_reader_next_arg: the tag as a signed char, or a code. */
  function NextTag(mem: seq<Byte>, c: Cursor): (int, Cursor)
    requires Readable(mem, c)
  {
    if c.typePtr.None? then (OSC_ERROR, c)
    else
      var curr := SignedChar(mem[c.typePtr.value]);
      if curr != 0 then (curr, c.(typePtr := Some(c.typePtr.value + 1))) else (OSC_END, c)
  }

  /** What a getter reads: its code, its value if the code is OSC_OK, and the new cursor. */
  datatype Got<T> = Got(code: int, value: Option<T>, c: Cursor)

  function GetWord32(mem: seq<Byte>, c: Cursor): Got<Word32>
    requires Open(mem, c)
  {
    var p := c.argPtr.value;
    if c.msgEnd - p < 4 then Got(OSC_ERROR, None, c)
    else Got(OSC_OK, Some(WordAt(mem, p)), c.(argPtr := Some(p + 4)))
  }

  function GetWord64(mem: seq<Byte>, c: Cursor): Got<Word64>
    requires Open(mem, c)
  {
    var p := c.argPtr.value;
    if c.msgEnd - p < 8 then Got(OSC_ERROR, None, c)
    else Got(OSC_OK, Some(DoubleWordAt(mem, p)), c.(argPtr := Some(p + 8)))
  }

  /** A string or blob is returned as a place in memory. */
  datatype Span = Span(at: int, len: int)

  function GetString(mem: seq<Byte>, c: Cursor): Got<Span>
    requires Open(mem, c)
  {
    var p := c.argPtr.value;
    var n := Strlen(mem, p);
    if p + Round4(n + 1) > c.msgEnd then Got(OSC_ERROR, None, c)
    else Got(OSC_OK, Some(Span(p, n)), c.(argPtr := Some(p + Round4(n + 1))))
  }

  /** osc_msg_reader_get_arg_blob: the size field is consumed even if the data is refused. */
  function GetBlob(mem: seq<Byte>, c: Cursor): Got<Span>
    requires Open(mem, c)
  {
    var g := GetWord32(mem, c);
    if g.code != OSC_OK then Got(OSC_ERROR, None, c)
    else
      var size := Signed32(g.value.value);
      var p := g.c.argPtr.value;
      if p + Round32(size) > c.msgEnd then Got(OSC_ERROR, None, g.c)
      else Got(OSC_OK, Some(Span(p, size)), g.c.(argPtr := Some(p + Round32(size))))
  }

  // ---------- One argument ----------

  function WordArg(tag: int, g: Got<Word32>): Got<Arg> {
    if g.value.None? then Got(g.code, None, g.c)
    else
      var w := g.value.value;
      Got(g.code, Some(if tag == 'i' as int then I32(Signed32(w)) else F32(w)), g.c)
  }

  function DoubleWordArg(tag: int, g: Got<Word64>): Got<Arg> {
    if g.value.None? then Got(g.code, None, g.c)
    else
      var w := g.value.value;
      var a := if tag == 'h' as int then I64(Signed64(w)) else if tag == 't' as int then Timetag(w) else F64(w);
      Got(g.code, Some(a), g.c)
  }

  /** The bytes a span denotes, where it lies in memory. */
  function BytesAt(mem: seq<Byte>, s: Span): seq<Byte> {
    if 0 <= s.at && 0 <= s.len && s.at + s.len <= |mem| then mem[s.at..s.at + s.len] else []
  }

  /** A string or a blob as an argument. A blob is read with osc_msg_reader_get_arg_blob and two
      separate outputs; what becomes of it in osc_arg_t, where they share their storage, is in
      OscRecord. */
  function SpanArg(mem: seq<Byte>, tag: int, g: Got<Span>): Got<Arg> {
    if g.value.None? then Got(g.code, None, g.c)
    else
      var b := BytesAt(mem, g.value.value);
      var a := if tag == 's' as int then Text('s', b) else if tag == 'S' as int then Text('S', b)
               else if tag == 'k' as int then Text('k', b) else Blob(b);
      Got(g.code, Some(a), g.c)
  }

  /** The getter that a tag calls for, as osc_msg_reader_get_arg chooses it, and its value. */
  function GetTagged(mem: seq<Byte>, c: Cursor, tag: int): Got<Arg>
    requires Open(mem, c)
  {
    if tag == 'T' as int then Got(OSC_OK, Some(True), c)
    else if tag == 'F' as int then Got(OSC_OK, Some(False), c)
    else if tag == 'N' as int then Got(OSC_OK, Some(Nil), c)
    else if tag == 'I' as int then Got(OSC_OK, Some(Infinitum), c)
    else if tag == 'i' as int || tag == 'f' as int then WordArg(tag, GetWord32(mem, c))
    else if tag == 'h' as int || tag == 't' as int || tag == 'd' as int then DoubleWordArg(tag, GetWord64(mem, c))
    else if tag == 'k' as int || tag == 's' as int || tag == 'S' as int then SpanArg(mem, tag, GetString(mem, c))
    else if tag == 'b' as int then SpanArg(mem, tag, GetBlob(mem, c))
    else Got(OSC_ERROR, None, c)
  }

  /** One argument: its tag and then its getter. Tags that are negative as a char end the
      arguments like a code. */
  function GetArg(mem: seq<Byte>, c: Cursor): Got<Arg>
    requires Typed(mem, c)
  {
    var (t, c') := NextTag(mem, c);
    if t < 0 then Got(t, None, c') else GetTagged(mem, c', t)
  }

  // ---------- All arguments ----------

  /** Not a code of the program: a getter succeeded but left the argument pointer outside
      the message, and what further getters would read is undefined. */
  const STRAYED := -3

  lemma GetArgMoves(mem: seq<Byte>, c: Cursor)
    requires Typed(mem, c)
    ensures var g := GetArg(mem, c);
            && g.c.msgPtr == c.msgPtr && g.c.msgEnd == c.msgEnd && g.c.typePtr.Some? && g.c.argPtr.Some?
            && g.c.typePtr.value < |mem|
            && (g.code == OSC_OK ==> g.value.Some? && g.c.typePtr.value == c.typePtr.value + 1)
  {
  }

  /** Reading all arguments with osc_msg_reader_next_arg and the getter that each tag calls
      for, a blob with two separate outputs: the arguments, the code that ended it and the
      cursor. */
  datatype Args = Args(args: seq<Arg>, code: int, c: Cursor)

  function ReadArgs(mem: seq<Byte>, c: Cursor): Args
    requires Typed(mem, c)
    decreases |mem| - c.typePtr.value
  {
    GetArgMoves(mem, c);
    var g := GetArg(mem, c);
    if g.code != OSC_OK then Args([], g.code, g.c)
    else if !Typed(mem, g.c) then Args([g.value.value], STRAYED, g.c)
    else
      var rest := ReadArgs(mem, g.c);
      rest.(args := [g.value.value] + rest.args)
  }

  // ---------- The message reader in memory ----------

  /** osc_msg_reader_t. */
  class MsgReader {
    const h: Host
    const mem: seq<Byte>
    var msgPtr: nat
    var msgEnd: nat
    var typePtr: Option<nat>
    var argPtr: Option<int>

    constructor (h: Host, mem: seq<Byte>)
      ensures this.h == h && this.mem == mem
    {
      this.h, this.mem := h, mem;
      msgPtr, msgEnd, typePtr, argPtr := 0, 0, None, None;
    }

    function Pos(): Cursor
      reads this
    {
      Cursor(msgPtr, msgEnd, typePtr, argPtr)
    }

    /** osc_msg_reader_init. On an error the pointers to tags and arguments keep their values. */
    method Init(buffer: nat, len: nat) returns (code: int)
      requires Guarded(mem) && buffer + len < |mem|
      modifies this
      ensures code == if InitMessage(mem, buffer, len).Some? then OSC_OK else OSC_ERROR
      ensures code == OSC_OK ==> Pos() == InitMessage(mem, buffer, len).value
      ensures code != OSC_OK ==> typePtr == old(typePtr) && argPtr == old(argPtr)
    {
      hide Round4, Strlen;
      msgPtr := buffer;
      msgEnd := buffer + len;
      var n := ReadStrlen(mem, msgPtr);
      var types := msgPtr + Round4(n + 1);
      if types > msgEnd {
        return OSC_ERROR;
      } else if types == msgEnd {
        typePtr, argPtr := None, None;
      } else if mem[types] == COMMA {
        n := ReadStrlen(mem, types);
        var args := types + Round4(n + 1);
        if args > msgEnd {
          return OSC_ERROR;
        }
        typePtr, argPtr := Some(types + 1), Some(args);
      } else {
        typePtr, argPtr := None, Some(types);
      }
      return OSC_OK;
    }

    /** osc_msg_reader_next_arg. */
    method NextArg() returns (t: int)
      requires Readable(mem, Pos())
      modifies this`typePtr
      ensures (t, Pos()) == NextTag(mem, old(Pos()))
    {
      if typePtr.None? {
        return OSC_ERROR;
      }
      var curr := SignedChar(mem[typePtr.value]);
      if curr == 0 {
        return OSC_END;
      }
      typePtr := Some(typePtr.value + 1);
      return curr;
    }

    /** READ_FIXED for 32 and for 64 bits. */
    method ReadFixed32() returns (code: int, w: Word32)
      requires Open(mem, Pos())
      modifies this`argPtr
      ensures var g := GetWord32(mem, old(Pos()));
              code == g.code && Pos() == g.c && (code == OSC_OK ==> Some(w) == g.value)
    {
      var p := argPtr.value;
      if msgEnd - p < 4 {
        return OSC_ERROR, 0;
      }
      LoadedWord(h, mem[p..p + 4]);
      argPtr := Some(p + 4);
      return OSC_OK, HostToNet32(h, Load(h, mem[p..p + 4]));
    }

    method ReadFixed64() returns (code: int, w: Word64)
      requires Open(mem, Pos())
      modifies this`argPtr
      ensures var g := GetWord64(mem, old(Pos()));
              code == g.code && Pos() == g.c && (code == OSC_OK ==> Some(w) == g.value)
    {
      var p := argPtr.value;
      if msgEnd - p < 8 {
        return OSC_ERROR, 0;
      }
      LoadedDoubleWord(h, mem[p..p + 8]);
      argPtr := Some(p + 8);
      return OSC_OK, HostToNet64(h, Load(h, mem[p..p + 8]));
    }

    /** osc_msg_reader_get_arg_str. */
    method ReadString() returns (code: int, s: Span)
      requires Open(mem, Pos())
      modifies this`argPtr
      ensures var g := GetString(mem, old(Pos()));
              code == g.code && Pos() == g.c && (code == OSC_OK ==> Some(s) == g.value)
    {
      var p := argPtr.value;
      var n := ReadStrlen(mem, p);
      if p + Round4(n + 1) > msgEnd {
        return OSC_ERROR, Span(0, 0);
      }
      argPtr := Some(p + Round4(n + 1));
      return OSC_OK, Span(p, n);
    }

    /** osc_msg_reader_get_arg_blob. */
    method ReadBlob() returns (code: int, s: Span)
      requires Open(mem, Pos())
      modifies this`argPtr
      ensures var g := GetBlob(mem, old(Pos()));
              code == g.code && Pos() == g.c && (code == OSC_OK ==> Some(s) == g.value)
    {
      var w;
      code, w := ReadFixed32();
      s := Span(0, 0);
      if code == OSC_OK {
        var size, p := Signed32(w), argPtr.value;
        if p + Round32(size) > msgEnd {
          return OSC_ERROR, s;
        }
        argPtr := Some(p + Round32(size));
        return OSC_OK, Span(p, size);
      }
    }

    /** osc_msg_reader_next_arg and then the getter that the tag calls for, the value as a
        tagged argument. osc_msg_reader_get_arg itself is OscRecord.ArgRecord.Get. */
    method ReadArg() returns (code: int, a: Option<Arg>)
      requires Typed(mem, Pos())
      modifies this`typePtr, this`argPtr
      ensures Got(code, a, Pos()) == GetArg(mem, old(Pos()))
    {
      a := None;
      var t := NextArg();
      if t < 0 {
        return t, None;
      }
      var s, w, d;
      if t == 'T' as int {
        return OSC_OK, Some(True);
      } else if t == 'F' as int {
        return OSC_OK, Some(False);
      } else if t == 'N' as int {
        return OSC_OK, Some(Nil);
      } else if t == 'I' as int {
        return OSC_OK, Some(Infinitum);
      } else if t == 'i' as int || t == 'f' as int {
        code, w := ReadFixed32();
        if code == OSC_OK {
          a := Some(if t == 'i' as int then I32(Signed32(w)) else F32(w));
        }
      } else if t == 'h' as int || t == 't' as int || t == 'd' as int {
        code, d := ReadFixed64();
        if code == OSC_OK {
          a := Some(if t == 'h' as int then I64(Signed64(d)) else if t == 't' as int then Timetag(d) else F64(d));
        }
      } else if t == 'k' as int || t == 's' as int || t == 'S' as int {
        code, s := ReadString();
        if code == OSC_OK {
          a := Some(Text(t as char, BytesAt(mem, s)));
        }
      } else if t == 'b' as int {
        code, s := ReadBlob();
        if code == OSC_OK {
          a := Some(Blob(BytesAt(mem, s)));
        }
      } else {
        return OSC_ERROR, None;
      }
    }
  }
}
