/** osc_msg_reader_get_arg (src/read.c:79-99) and the record it fills, osc_arg_t
    (include/little-oscar/osc.h:95-109). The length and the data pointer of a blob share their
    storage there: val_blob is a union, where a struct was surely meant. */
module OscRecord {
  import opened Options
  import opened Bytes
  import opened OscEncoding
  import opened OscReader

  /** The machine: its byte order, the size of a pointer, and the address of the first byte of
      memory. */
  datatype Machine = Machine(h: Host, pointerSize: nat, base: nat)

  predicate Fits(host: Machine, mem: seq<Byte>) {
    (host.pointerSize == 4 || host.pointerSize == 8) && host.base + |mem| <= Range(host.pointerSize)
  }

  /** What an int32 shows that shares its storage with a pointer to this address: on a
      big-endian machine with wide pointers the upper half of the address, otherwise the lower
      half. */
  function LenSeen(host: Machine, address: nat): Int32 {
    Signed32(if host.h.Big? && host.pointerSize == 8 then address / TWO_32 % TWO_32 else address % TWO_32)
  }

  // ---------- Numbers and pointers in the record ----------

  lemma LoadStore(h: Host, x: nat, n: nat)
    requires x < Range(n)
    ensures Load(h, Store(h, x, n)) == x
  {
    if h.Big? {
      BigEndianInverse(x, n);
    } else {
      LittleEndianInverse(x, n);
    }
  }

  function LoadWord(h: Host, b: seq<Byte>): Word32
    requires |b| == 4
  {
    LoadedWord(h, b);
    Load(h, b)
  }

  function LoadDoubleWord(h: Host, b: seq<Byte>): Word64
    requires |b| == 8
  {
    LoadedDoubleWord(h, b);
    Load(h, b)
  }

  lemma WideHalves(h: Host, x: Word64)
    ensures Store(h, x, 8)[..4] == Store(h, if h.Big? then x / TWO_32 else x % TWO_32, 4)
  {
    Ranges();
    var hi, lo := x / TWO_32, x % TWO_32;
    Halves(hi, lo, 4);
    assert BigEndian(hi * Range(4) + lo, 4 + 4) == BigEndian(hi, 4) + BigEndian(lo, 4);
    assert LittleEndian(hi * Range(4) + lo, 4 + 4) == LittleEndian(lo, 4) + LittleEndian(hi, 4);
  }

  /** The first four bytes of a stored pointer, read as the length of a blob. */
  lemma LenUnderPointer(host: Machine, mem: seq<Byte>, p: nat)
    requires Fits(host, mem) && p < |mem|
    ensures Signed32(LoadWord(host.h, Store(host.h, host.base + p, host.pointerSize)[..4])) ==
            LenSeen(host, host.base + p)
  {
    var h, address := host.h, host.base + p;
    Ranges();
    hide Store, Load, Range;
    if host.pointerSize == 8 {
      WideHalves(h, address);
      LoadStore(h, if h.Big? then address / TWO_32 else address % TWO_32, 4);
    } else {
      assert Store(h, address, 4)[..4] == Store(h, address, 4);
      LoadStore(h, address, 4);
    }
  }

  // ---------- Reading the record ----------

  /** What a caller finds in the record by its tag: a value, or the place and the length of a
      blob. */
  datatype Seen = Value(a: Arg) | BlobAt(at: int, len: int)

  function StringAt(mem: seq<Byte>, p: int): seq<Byte>
    requires Guarded(mem)
  {
    if 0 <= p < |mem| then mem[p..p + Strlen(mem, p)] else []
  }

  /** The members of the union, val.val_str and val.val_blob.data as positions in memory. */
  function View(host: Machine, mem: seq<Byte>, tag: int, val: seq<Byte>): Option<Seen>
    requires Guarded(mem) && Fits(host, mem) && |val| == 8
  {
    var word, wide := LoadWord(host.h, val[..4]), LoadDoubleWord(host.h, val);
    var pointer := Load(host.h, val[..host.pointerSize]) - host.base;
    if tag == 'T' as int then Some(Value(True))
    else if tag == 'F' as int then Some(Value(False))
    else if tag == 'N' as int then Some(Value(Nil))
    else if tag == 'I' as int then Some(Value(Infinitum))
    else if tag == 'i' as int then Some(Value(I32(Signed32(word))))
    else if tag == 'f' as int then Some(Value(F32(word)))
    else if tag == 'h' as int then Some(Value(I64(Signed64(wide))))
    else if tag == 't' as int then Some(Value(Timetag(wide)))
    else if tag == 'd' as int then Some(Value(F64(wide)))
    else if tag == 'k' as int || tag == 's' as int || tag == 'S' as int then
      Some(Value(Text(tag as char, StringAt(mem, pointer))))
    else if tag == 'b' as int then Some(BlobAt(pointer, Signed32(word)))
    else None
  }

  /** What get_arg leaves of an argument whose data begins at a position: of a blob, the place,
      and a length that is part of the pointer. */
  function Found(host: Machine, a: Arg, at: nat): Seen {
    if a.Blob? then BlobAt(at + 4, LenSeen(host, host.base + at + 4)) else Value(a)
  }

  /** The length of a blob is what its pointer makes it look like. */
  predicate LengthSurvives(host: Machine, a: Arg, at: nat) {
    a.Blob? ==> LenSeen(host, host.base + at + 4) == |a.data|
  }

  /** On a machine that shows the lower half: if memory does not begin within its own size of a
      multiple of 2^32, no blob in it survives, not even an empty one. */
  lemma NoLengthSurvives(host: Machine, mem: seq<Byte>, a: Arg, at: nat)
    requires a.Blob? && at + 4 + |a.data| < |mem| && (host.h.Little? || host.pointerSize == 4)
    requires |mem| <= host.base % TWO_32 <= TWO_32 - |mem|
    ensures !LengthSurvives(host, a, at)
  {
    var low := host.base % TWO_32;
    assert (host.base + at + 4) % TWO_32 == low + at + 4;
  }

  lemma WordView(host: Machine, mem: seq<Byte>, tag: int, val: seq<Byte>, w: Word32)
    requires Guarded(mem) && Fits(host, mem) && |val| == 8 && val[..4] == Store(host.h, w, 4)
    ensures tag == 'i' as int ==> View(host, mem, tag, val) == Some(Value(I32(Signed32(w))))
    ensures tag == 'f' as int ==> View(host, mem, tag, val) == Some(Value(F32(w)))
  {
    Ranges();
    LoadStore(host.h, w, 4);
    hide Store, Load, Range;
  }

  lemma DoubleWordView(host: Machine, mem: seq<Byte>, tag: int, val: seq<Byte>, w: Word64)
    requires Guarded(mem) && Fits(host, mem) && |val| == 8 && val == Store(host.h, w, 8)
    ensures tag == 'h' as int ==> View(host, mem, tag, val) == Some(Value(I64(Signed64(w))))
    ensures tag == 't' as int ==> View(host, mem, tag, val) == Some(Value(Timetag(w)))
    ensures tag == 'd' as int ==> View(host, mem, tag, val) == Some(Value(F64(w)))
  {
    Ranges();
    LoadStore(host.h, w, 8);
    hide Store, Load, Range;
  }

  lemma ViewOfText(host: Machine, mem: seq<Byte>, tag: int, val: seq<Byte>)
    requires Guarded(mem) && Fits(host, mem) && |val| == 8
    requires tag == 'k' as int || tag == 's' as int || tag == 'S' as int
    ensures var p := Load(host.h, val[..host.pointerSize]) - host.base;
            View(host, mem, tag, val) == Some(Value(Text(tag as char, StringAt(mem, p))))
  {
    hide Load, LoadWord, LoadDoubleWord, StringAt, Range;
  }

  lemma StringView(host: Machine, mem: seq<Byte>, tag: int, val: seq<Byte>, p: nat)
    requires Guarded(mem) && Fits(host, mem) && |val| == 8 && p < |mem|
    requires val[..host.pointerSize] == Store(host.h, host.base + p, host.pointerSize)
    requires tag == 'k' as int || tag == 's' as int || tag == 'S' as int
    ensures View(host, mem, tag, val) == Some(Value(Text(tag as char, StringAt(mem, p))))
  {
    LoadStore(host.h, host.base + p, host.pointerSize);
    ViewOfText(host, mem, tag, val);
    hide View, Store, Load, Range, StringAt;
  }

  lemma BlobView(host: Machine, mem: seq<Byte>, tag: int, val: seq<Byte>, p: nat)
    requires Guarded(mem) && Fits(host, mem) && |val| == 8 && p < |mem| && tag == 'b' as int
    requires val[..host.pointerSize] == Store(host.h, host.base + p, host.pointerSize)
    ensures View(host, mem, tag, val) == Some(BlobAt(p, LenSeen(host, host.base + p)))
  {
    LoadStore(host.h, host.base + p, host.pointerSize);
    LenUnderPointer(host, mem, p);
    assert val[..4] == val[..host.pointerSize][..4];
    hide Store, Load, Range, LenSeen, LoadWord, LoadDoubleWord, Strlen;
  }

  // ---------- The getters by tag ----------

  lemma TagLeavesOpen(mem: seq<Byte>, c: Cursor)
    requires Typed(mem, c)
    ensures var (t, c') := NextTag(mem, c); Open(mem, c') && c'.argPtr == c.argPtr && (t < 0 ==> t != OSC_OK)
  {
  }

  lemma PlainGet(host: Machine, mem: seq<Byte>, c: Cursor, tag: int, val: seq<Byte>)
    requires Open(mem, c) && Fits(host, mem) && |val| == 8
    requires tag == 'T' as int || tag == 'F' as int || tag == 'N' as int || tag == 'I' as int
    ensures var g := GetTagged(mem, c, tag);
            && g.code == OSC_OK && g.c == c && g.value.Some?
            && View(host, mem, tag, val) == Some(Found(host, g.value.value, c.argPtr.value))
  {
  }

  lemma TextHeld(host: Machine, mem: seq<Byte>, c: Cursor, tag: int, val: seq<Byte>)
    requires Open(mem, c) && (tag == 'k' as int || tag == 's' as int || tag == 'S' as int)
    requires Fits(host, mem) && |val| == 8 && GetTagged(mem, c, tag).code == OSC_OK
    requires val[..host.pointerSize] == Store(host.h, host.base + c.argPtr.value, host.pointerSize)
    ensures var g := GetTagged(mem, c, tag);
            g.value.Some? && View(host, mem, tag, val) == Some(Found(host, g.value.value, c.argPtr.value))
  {
    TextGet(mem, c, tag);
    StringView(host, mem, tag, val, c.argPtr.value);
    hide View, Store, Fits, Strlen, GetTagged, GetString;
  }

  lemma NoGetter(mem: seq<Byte>, c: Cursor, tag: int)
    requires Open(mem, c)
    requires !(tag == 'T' as int || tag == 'F' as int || tag == 'N' as int || tag == 'I' as int)
    requires !(tag == 'i' as int || tag == 'f' as int)
    requires !(tag == 'h' as int || tag == 't' as int || tag == 'd' as int)
    requires !(tag == 'k' as int || tag == 's' as int || tag == 'S' as int) && tag != 'b' as int
    ensures GetTagged(mem, c, tag) == Got(OSC_ERROR, None, c)
  {
  }

  lemma TextGetter(mem: seq<Byte>, c: Cursor, tag: int)
    requires Open(mem, c) && (tag == 'k' as int || tag == 's' as int || tag == 'S' as int)
    ensures GetTagged(mem, c, tag) == SpanArg(mem, tag, GetString(mem, c))
  {
    hide SpanArg, GetString, Strlen;
  }

  lemma StringRead(mem: seq<Byte>, c: Cursor)
    requires Open(mem, c)
    ensures var s, p := GetString(mem, c), c.argPtr.value;
            && p < |mem| && (s.code == OSC_OK <==> s.value.Some?)
            && (s.code == OSC_OK ==> s.value == Some(Span(p, Strlen(mem, p))))
  {
    hide Strlen, Round4;
  }

  lemma SpanOfString(mem: seq<Byte>, p: nat)
    requires Guarded(mem) && p < |mem|
    ensures BytesAt(mem, Span(p, Strlen(mem, p))) == StringAt(mem, p)
  {
    hide Strlen;
  }

  lemma SpanText(mem: seq<Byte>, tag: int, g: Got<Span>)
    requires tag == 'k' as int || tag == 's' as int || tag == 'S' as int
    ensures SpanArg(mem, tag, g).code == g.code && SpanArg(mem, tag, g).c == g.c
    ensures g.value.Some? ==> SpanArg(mem, tag, g).value == Some(Text(tag as char, BytesAt(mem, g.value.value)))
  {
    hide BytesAt;
  }

  lemma TextGet(mem: seq<Byte>, c: Cursor, tag: int)
    requires Open(mem, c) && (tag == 'k' as int || tag == 's' as int || tag == 'S' as int)
    ensures var g, s, p := GetTagged(mem, c, tag), GetString(mem, c), c.argPtr.value;
            && g.code == s.code && g.c == s.c && p < |mem|
            && (g.code == OSC_OK ==>
                  && s.value == Some(Span(p, Strlen(mem, p)))
                  && g.value == Some(Text(tag as char, StringAt(mem, p))))
  {
    TextGetter(mem, c, tag);
    StringRead(mem, c);
    SpanOfString(mem, c.argPtr.value);
    hide Strlen, GetTagged, GetString, SpanArg, BytesAt, StringAt;
    SpanText(mem, tag, GetString(mem, c));
  }

  lemma StoredWord(h: Host, w: Word32)
    ensures LoadWord(h, Store(h, w, 4)) == w
  {
    Ranges();
    LoadStore(h, w, 4);
  }

  // ---------- Filling the record ----------

  /** osc_arg_t: the tag, and the eight bytes of the union. */
  class ArgRecord {
    const host: Machine
    var tag: int
    const val: array<Byte>

    constructor (host: Machine)
      ensures this.host == host && val.Length == 8 && fresh(val)
    {
      this.host := host;
      tag := 0;
      val := new Byte[8];
    }

    /** An assignment to a member of the union. */
    method Put(b: seq<Byte>)
      requires |b| <= val.Length
      modifies val
      ensures val[..|b|] == b && val[|b|..] == old(val[|b|..])
    {
      forall i | 0 <= i < |b| {
        val[i] := b[i];
      }
    }

    /** osc_msg_reader_get_arg_blob(reader, &arg->val.val_blob.data, &arg->val.val_blob.len):
        the pointer is stored last, over the length. */
    method GetBlob(reader: MsgReader) returns (code: int)
      requires Open(reader.mem, reader.Pos()) && reader.h == host.h && Fits(host, reader.mem) && val.Length == 8
      modifies val, reader`argPtr
      ensures var g := OscReader.GetBlob(reader.mem, old(reader.Pos())); code == g.code && reader.Pos() == g.c
      ensures var p: nat := old(reader.argPtr.value) + 4;
              code == OSC_OK ==>
                p < |reader.mem| && val[..host.pointerSize] == Store(host.h, host.base + p, host.pointerSize)
    {
      hide Store, Load, Range, WordAt;
      var w;
      code, w := reader.ReadFixed32();
      if code == OSC_OK {
        Put(Store(host.h, w, 4));
        StoredWord(host.h, w);
        var size, p := Signed32(LoadWord(host.h, val[..4])), reader.argPtr.value;
        if p + Round32(size) > reader.msgEnd {
          return OSC_ERROR;
        }
        Put(Store(host.h, host.base + p, host.pointerSize));
        reader.argPtr := Some(p + Round32(size));
      }
    }

    /** The record holds what a getter read for tag t at a cursor c. */
    ghost predicate Reports(mem: seq<Byte>, c: Cursor, g: Got<Arg>, t: int)
      requires Guarded(mem) && Fits(host, mem) && val.Length == 8 && Open(mem, c)
      reads val
    {
      g.code == OSC_OK ==>
        g.value.Some? && View(host, mem, t, val[..]) == Some(Found(host, g.value.value, c.argPtr.value))
    }

    /** The getters for the members of the union. */
    method GetFixed32(reader: MsgReader, t: int) returns (code: int)
      requires Open(reader.mem, reader.Pos()) && reader.h == host.h && Fits(host, reader.mem) && val.Length == 8
      requires t == 'i' as int || t == 'f' as int
      modifies val, reader`argPtr
      ensures var g := GetTagged(reader.mem, old(reader.Pos()), t);
              code == g.code && reader.Pos() == g.c && Reports(reader.mem, old(reader.Pos()), g, t)
    {
      hide View, Store, Fits, WordAt;
      var w;
      code, w := reader.ReadFixed32();
      if code == OSC_OK {
        Put(Store(host.h, w, 4));
        WordView(host, reader.mem, t, val[..], w);
      }
    }

    method GetFixed64(reader: MsgReader, t: int) returns (code: int)
      requires Open(reader.mem, reader.Pos()) && reader.h == host.h && Fits(host, reader.mem) && val.Length == 8
      requires t == 'h' as int || t == 't' as int || t == 'd' as int
      modifies val, reader`argPtr
      ensures var g := GetTagged(reader.mem, old(reader.Pos()), t);
              code == g.code && reader.Pos() == g.c && Reports(reader.mem, old(reader.Pos()), g, t)
    {
      hide View, Store, Fits, DoubleWordAt;
      var w;
      code, w := reader.ReadFixed64();
      if code == OSC_OK {
        Put(Store(host.h, w, 8));
        DoubleWordView(host, reader.mem, t, val[..], w);
      }
    }

    method GetText(reader: MsgReader, t: int) returns (code: int)
      requires Open(reader.mem, reader.Pos()) && reader.h == host.h && Fits(host, reader.mem) && val.Length == 8
      requires t == 'k' as int || t == 's' as int || t == 'S' as int
      modifies val, reader`argPtr
      ensures var g := GetTagged(reader.mem, old(reader.Pos()), t);
              code == g.code && reader.Pos() == g.c && Reports(reader.mem, old(reader.Pos()), g, t)
    {
      assert host.pointerSize <= 8;
      TextGet(reader.mem, reader.Pos(), t);
      hide View, Store, Fits, Strlen, GetTagged, GetString, Found;
      ghost var c := reader.Pos();
      var s;
      code, s := reader.ReadString();
      if code == OSC_OK {
        Put(Store(host.h, host.base + s.at, host.pointerSize));
        TextHeld(host, reader.mem, c, t, val[..]);
      }
    }

    method GetData(reader: MsgReader, t: int) returns (code: int)
      requires Open(reader.mem, reader.Pos()) && reader.h == host.h && Fits(host, reader.mem) && val.Length == 8
      requires t == 'b' as int
      modifies val, reader`argPtr
      ensures var g := GetTagged(reader.mem, old(reader.Pos()), t);
              code == g.code && reader.Pos() == g.c && Reports(reader.mem, old(reader.Pos()), g, t)
    {
      hide View, Store, Fits, Round32, WordAt, LenSeen;
      ghost var p := reader.argPtr.value + 4;
      code := GetBlob(reader);
      if code == OSC_OK {
        BlobView(host, reader.mem, t, val[..], p);
      }
    }

    /** osc_msg_reader_get_arg. Code and cursor are those of the tag's own getter; what the
        record then holds is what Found says. */
    method Get(reader: MsgReader) returns (code: int)
      requires Typed(reader.mem, reader.Pos()) && reader.h == host.h && Fits(host, reader.mem) && val.Length == 8
      modifies this`tag, val, reader`typePtr, reader`argPtr
      ensures var g := GetArg(reader.mem, old(reader.Pos()));
              code == g.code && reader.Pos() == g.c && Reports(reader.mem, old(reader.Pos()), g, tag)
    {
      TagLeavesOpen(reader.mem, reader.Pos());
      hide View, Fits, Found, GetTagged, NextTag, Readable;
      var t := reader.NextArg();
      if t < 0 {
        return t;
      }
      tag := t;
      if t == 'T' as int || t == 'F' as int || t == 'N' as int || t == 'I' as int {
        PlainGet(host, reader.mem, reader.Pos(), t, val[..]);
        return OSC_OK;
      } else if t == 'i' as int || t == 'f' as int {
        code := GetFixed32(reader, t);
      } else if t == 'h' as int || t == 't' as int || t == 'd' as int {
        code := GetFixed64(reader, t);
      } else if t == 'k' as int || t == 's' as int || t == 'S' as int {
        code := GetText(reader, t);
      } else if t == 'b' as int {
        code := GetData(reader, t);
      } else {
        NoGetter(reader.mem, reader.Pos(), t);
        return OSC_ERROR;
      }
    }
  }
}
