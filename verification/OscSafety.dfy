/** What any sequence of calls of the message reader's functions keeps, on arbitrary bytes
    (src/read.c:42-162). */
module OscSafety {
  import opened Options
  import opened Bytes
  import opened OscEncoding
  import opened OscReader

  /** A call of next_arg or of one of the typed getters. */
  datatype Call = CallTag | CallWord32 | CallWord64 | CallString | CallBlob

  /** A getter must not be called while the argument pointer is NULL: the bound test of
      READ_FIXED passes there, and the read goes through NULL. */
  predicate MayCall(c: Cursor, call: Call) {
    call.CallTag? || c.argPtr.Some?
  }

  function After(mem: seq<Byte>, c: Cursor, call: Call): Cursor
    requires Readable(mem, c) && MayCall(c, call)
  {
    match call
    case CallTag => NextTag(mem, c).1
    case CallWord32 => GetWord32(mem, c).c
    case CallWord64 => GetWord64(mem, c).c
    case CallString => GetString(mem, c).c
    case CallBlob => GetBlob(mem, c).c
  }

  /** The position of the NUL that ends the type tags of the message just opened by first. */
  function TagEnd(mem: seq<Byte>, first: Cursor): nat
    requires Typed(mem, first)
  {
    first.typePtr.value + Strlen(mem, first.typePtr.value)
  }

  /** The tag pointer of c is at or before the terminator of the tags, which lie in front of
      the arguments; it is NULL in a message without tags. */
  ghost predicate OnTags(mem: seq<Byte>, first: Cursor, c: Cursor)
    requires Open(mem, first)
  {
    if first.typePtr.Some? then
      && c.typePtr.Some?
      && first.msgPtr < first.typePtr.value <= c.typePtr.value <= TagEnd(mem, first) < first.argPtr.value
    else c.typePtr.None? && first.msgPtr < first.argPtr.value
  }

  /** c is a cursor on the message that first was opened on: its tag pointer is on the tags,
      its argument pointer between the first argument and the end, and aligned. */
  ghost predicate OnMessage(mem: seq<Byte>, first: Cursor, c: Cursor) {
    && Open(mem, first) && Open(mem, c)
    && c.msgPtr == first.msgPtr && c.msgEnd == first.msgEnd && OnTags(mem, first, c)
    && first.argPtr.value <= c.argPtr.value <= c.msgEnd
    && (c.argPtr.value - c.msgPtr) % 4 == 0
  }

  /** The cursor of a message without arguments does not move; any other stays on its message. */
  ghost predicate Kept(mem: seq<Byte>, first: Cursor, c: Cursor) {
    if first.argPtr.None? then c == first && Readable(mem, first) && first.typePtr.None?
    else OnMessage(mem, first, c)
  }

  lemma OpenedParts(mem: seq<Byte>, start: nat, len: nat) returns (a: nat, n: nat)
    requires Guarded(mem) && start + len < |mem|
    requires InitMessage(mem, start, len).Some? && InitMessage(mem, start, len).value.typePtr.Some?
    ensures var types := start + Round4(a);
            && a == Strlen(mem, start) + 1 && types < start + len && mem[types] == COMMA && n == Strlen(mem, types)
            && types + Round4(n + 1) <= start + len
            && InitMessage(mem, start, len).value ==
               Cursor(start, start + len, Some(types + 1), Some(types + Round4(n + 1)))
  {
    a := Strlen(mem, start) + 1;
    n := Strlen(mem, start + Round4(a));
  }

  /** osc_msg_reader_init puts the cursor on its message. */
  lemma OpenedOnMessage(mem: seq<Byte>, start: nat, len: nat)
    requires Guarded(mem) && start + len < |mem|
    requires InitMessage(mem, start, len).Some? && InitMessage(mem, start, len).value.argPtr.Some?
    ensures var c := InitMessage(mem, start, len).value;
            OnMessage(mem, c, c) && c.msgPtr == start && c.msgEnd == start + len
  {
    if InitMessage(mem, start, len).value.typePtr.Some? {
      OpenedOnTags(mem, start, len);
    } else {
      Round4Whole(Strlen(mem, start) + 1);
    }
  }

  lemma OpenedOnTags(mem: seq<Byte>, start: nat, len: nat)
    requires Guarded(mem) && start + len < |mem|
    requires InitMessage(mem, start, len).Some? && InitMessage(mem, start, len).value.typePtr.Some?
    ensures var c := InitMessage(mem, start, len).value;
            OnMessage(mem, c, c) && c.msgPtr == start && c.msgEnd == start + len
  {
    var a, n := OpenedParts(mem, start, len);
    hide InitMessage, Round4, Strlen;
    TagsBehindComma(mem, start + Round4(a), n);
    Round4Whole(a);
    Round4Whole(n + 1);
    WholeWords(Round4(a), Round4(n + 1));
  }

  lemma TagsBehindComma(mem: seq<Byte>, types: nat, n: nat)
    requires Guarded(mem) && types < |mem| && mem[types] == COMMA && n == Strlen(mem, types)
    ensures n > 0 && types + 1 < |mem| && Strlen(mem, types + 1) == n - 1
  {
  }

  /** The size field of a blob, if the getter can read it. */
  function BlobSize(mem: seq<Byte>, c: Cursor): Option<Int32>
    requires Open(mem, c)
  {
    if c.msgEnd - c.argPtr.value < 4 then None else Some(Signed32(WordAt(mem, c.argPtr.value)))
  }

  /** A size that rounding up to a whole word leaves a non-negative int32. */
  predicate SaneSize(size: int) {
    0 <= size <= TWO_31 - 4
  }

  predicate SaneCall(mem: seq<Byte>, c: Cursor, call: Call)
    requires Readable(mem, c)
  {
    MayCall(c, call) && (call == CallBlob && BlobSize(mem, c).Some? ==> SaneSize(BlobSize(mem, c).value))
  }

  lemma Round32OfSane(size: Int32)
    requires SaneSize(size)
    ensures Round32(size) == Round4(size) >= size && Round32(size) % 4 == 0
  {
    Round4Whole(size);
  }

  /** Moving the argument pointer forward inside the message by whole words. */
  lemma Advance(mem: seq<Byte>, first: Cursor, c: Cursor, step: nat)
    requires OnMessage(mem, first, c) && step % 4 == 0 && c.argPtr.value + step <= c.msgEnd
    ensures OnMessage(mem, first, c.(argPtr := Some(c.argPtr.value + step)))
  {
    WholeWords(c.argPtr.value - c.msgPtr, step);
  }

  lemma TagCallKeeps(mem: seq<Byte>, first: Cursor, c: Cursor)
    requires OnMessage(mem, first, c)
    ensures OnMessage(mem, first, NextTag(mem, c).1)
  {
    if c.typePtr.Some? && c.typePtr.value == TagEnd(mem, first) {
      assert mem[c.typePtr.value] == 0;
    }
  }

  /** A blob read: on success the blob is inside the message. */
  lemma BlobCallKeeps(mem: seq<Byte>, first: Cursor, c: Cursor)
    requires OnMessage(mem, first, c) && SaneCall(mem, c, CallBlob)
    ensures OnMessage(mem, first, GetBlob(mem, c).c) && c.argPtr.value <= GetBlob(mem, c).c.argPtr.value
    ensures var g := GetBlob(mem, c); g.code == OSC_OK ==> g.value.Some? && Inside(c, g.value.value, 0)
  {
    var g := GetWord32(mem, c);
    if g.code == OSC_OK {
      Advance(mem, first, c, 4);
      var size := BlobSize(mem, c).value;
      Round32OfSane(size);
      if g.c.argPtr.value + Round32(size) <= c.msgEnd {
        Advance(mem, first, g.c, Round32(size));
      }
    }
  }

  /** A span lies between the argument pointer and the end of the message, with so many
      bytes to spare behind it. */
  predicate Inside(c: Cursor, s: Span, spare: nat)
    requires c.argPtr.Some?
  {
    c.argPtr.value <= s.at && 0 <= s.len && s.at + s.len + spare <= c.msgEnd
  }

  /** A string read: on success the string and its NUL are inside the message. */
  lemma StringCallKeeps(mem: seq<Byte>, first: Cursor, c: Cursor)
    requires OnMessage(mem, first, c)
    ensures OnMessage(mem, first, GetString(mem, c).c) && c.argPtr.value <= GetString(mem, c).c.argPtr.value
    ensures var g := GetString(mem, c); g.code == OSC_OK ==> g.value.Some? && Inside(c, g.value.value, 1)
  {
    var n := Strlen(mem, c.argPtr.value) + 1;
    Round4Whole(n);
    if c.argPtr.value + Round4(n) <= c.msgEnd {
      Advance(mem, first, c, Round4(n));
    }
  }

  lemma CallOnMessageKeeps(mem: seq<Byte>, first: Cursor, c: Cursor, call: Call)
    requires OnMessage(mem, first, c) && SaneCall(mem, c, call)
    ensures OnMessage(mem, first, After(mem, c, call)) && c.argPtr.value <= After(mem, c, call).argPtr.value
  {
    match call
    case CallTag => TagCallKeeps(mem, first, c);
    case CallWord32 =>
      if c.msgEnd - c.argPtr.value >= 4 {
        Advance(mem, first, c, 4);
      }
    case CallWord64 =>
      if c.msgEnd - c.argPtr.value >= 8 {
        Advance(mem, first, c, 8);
      }
    case CallString => StringCallKeeps(mem, first, c);
    case CallBlob => BlobCallKeeps(mem, first, c);
  }

  /** The argument pointer has not moved back. */
  predicate NotBack(c: Cursor, c': Cursor) {
    c.argPtr.Some? ==> c'.argPtr.Some? && c.argPtr.value <= c'.argPtr.value
  }

  lemma CallKeeps(mem: seq<Byte>, first: Cursor, c: Cursor, call: Call)
    requires Kept(mem, first, c) && SaneCall(mem, c, call)
    ensures Kept(mem, first, After(mem, c, call)) && NotBack(c, After(mem, c, call))
  {
    hide GetWord32, GetWord64, GetString, GetBlob, OnMessage;
    if first.argPtr.Some? {
      CallOnMessageKeeps(mem, first, c, call);
      OnMessageIsOpen(mem, first, c);
      OnMessageIsOpen(mem, first, After(mem, c, call));
    }
  }

  lemma OnMessageIsOpen(mem: seq<Byte>, first: Cursor, c: Cursor)
    requires OnMessage(mem, first, c)
    ensures Open(mem, c)
  {
  }

  /** The cursors of a sequence of calls, none through NULL, in which every blob size read is
      sane. */
  ghost predicate SaneRun(mem: seq<Byte>, cs: seq<Cursor>, calls: seq<Call>) {
    && |cs| == |calls| + 1
    && forall i | 0 <= i < |calls| ::
         Readable(mem, cs[i]) ==> SaneCall(mem, cs[i], calls[i]) && cs[i + 1] == After(mem, cs[i], calls[i])
  }

  /** A successful init leaves the argument pointer NULL exactly if nothing follows the address;
      the tag pointer is NULL then too. */
  lemma NoArgumentsIff(mem: seq<Byte>, start: nat, len: nat)
    requires Guarded(mem) && start + len < |mem| && InitMessage(mem, start, len).Some?
    ensures var c := InitMessage(mem, start, len).value;
            && Readable(mem, c) && (c.argPtr.None? ==> c.typePtr.None?)
            && (c.argPtr.None? <==> Round4(Strlen(mem, start) + 1) == len)
  {
    Round4Whole(Strlen(mem, start) + 1);
  }

  /** The message "/a" without anything behind it. */
  lemma AddressOnly()
    ensures var mem: seq<Byte> := [47, 97, 0, 0, 0];
            Guarded(mem) && InitMessage(mem, 0, 4) == Some(Cursor(0, 4, None, None))
  {
    hide Strlen;
    var mem: seq<Byte> := [47, 97, 0, 0, 0];
    assert mem[0..2] == [47, 97];
    StrlenUnique(mem, 0, 2);
  }

  lemma OpenedKept(mem: seq<Byte>, start: nat, len: nat)
    requires Guarded(mem) && start + len < |mem| && InitMessage(mem, start, len).Some?
    ensures var c := InitMessage(mem, start, len).value;
            Kept(mem, c, c) && c.msgPtr == start && c.msgEnd == start + len
  {
    NoArgumentsIff(mem, start, len);
    if InitMessage(mem, start, len).value.argPtr.Some? {
      OpenedOnMessage(mem, start, len);
    }
  }

  /** After a successful init on arbitrary bytes, any sequence of calls keeps the cursor on its
      message and never moves the argument pointer back. */
  lemma {:induction false} AnyCallsKeepCursor(mem: seq<Byte>, start: nat, len: nat,
                                              cs: seq<Cursor>, calls: seq<Call>, i: nat)
    requires Guarded(mem) && start + len < |mem| && InitMessage(mem, start, len).Some?
    requires SaneRun(mem, cs, calls) && cs[0] == InitMessage(mem, start, len).value && i < |cs|
    ensures Kept(mem, cs[0], cs[i]) && (i > 0 ==> NotBack(cs[i - 1], cs[i]))
  {
    if i == 0 {
      OpenedKept(mem, start, len);
    } else {
      AnyCallsKeepCursor(mem, start, len, cs, calls, i - 1);
      CallKeeps(mem, cs[0], cs[i - 1], calls[i - 1]);
    }
  }

  // ---------- Blobs, exactly ----------

  /** The outcome of a blob read that a caller can rely on. */
  predicate BlobReadSound(mem: seq<Byte>, c: Cursor)
    requires Open(mem, c)
  {
    var g := GetBlob(mem, c);
    g.code == OSC_OK ==> g.value.Some? && Inside(c, g.value.value, 0) && c.argPtr.value <= g.c.argPtr.value <= c.msgEnd
  }

  /** A blob read is refused or sound exactly if the size field is sane: the getter checks
      neither the sign of the size nor the overflow of its rounding. */
  lemma BlobReadSoundIff(mem: seq<Byte>, c: Cursor)
    requires Open(mem, c) && c.msgEnd < TWO_31 && BlobSize(mem, c).Some?
    ensures BlobReadSound(mem, c) <==> SaneSize(BlobSize(mem, c).value)
  {
    var size := BlobSize(mem, c).value;
    if SaneSize(size) {
      Round32OfSane(size);
    } else {
      assert Round32(size) <= 0;
    }
  }

  /** The message "/a" with the tag b, this size field and no data. */
  function BlobMessage(size: Int32): (mem: seq<Byte>)
    ensures |mem| == 13
  {
    [47, 97, 0, 0, 44, 98, 0, 0] + BigEndian(Unsigned32(size), 4) + [0]
  }

  const BLOB_CURSOR := Cursor(0, 12, Some(5), Some(8))

  lemma BlobMessageOpens(size: Int32)
    ensures Guarded(BlobMessage(size)) && InitMessage(BlobMessage(size), 0, 12) == Some(BLOB_CURSOR)
    ensures Open(BlobMessage(size), BLOB_CURSOR) && BlobSize(BlobMessage(size), BLOB_CURSOR) == Some(size)
    ensures NextTag(BlobMessage(size), BLOB_CURSOR) == ('b' as int, BLOB_CURSOR.(typePtr := Some(6)))
  {
    hide BigEndian, FromBigEndian;
    var mem, b := BlobMessage(size), BigEndian(Unsigned32(size), 4);
    assert mem[0..2] == [47, 97] && mem[4..6] == [44, 98];
    StrlenUnique(mem, 0, 2);
    StrlenUnique(mem, 4, 2);
    assert mem[8..12] == b;
    Ranges();
    BigEndianInverse(Unsigned32(size), 4);
  }

  /** In a real message, opened by osc_msg_reader_init, every insane size is accepted although
      no data follows. The argument pointer then moves by the wrapped rounding, which is never
      forward. */
  lemma InsaneBlobIsAccepted(size: Int32)
    ensures var mem := BlobMessage(size);
            && Typed(mem, BLOB_CURSOR) && InitMessage(mem, 0, 12) == Some(BLOB_CURSOR)
            && (GetArg(mem, BLOB_CURSOR).code == OSC_OK <==> size == 0 || !SaneSize(size))
            && (!SaneSize(size) ==> GetArg(mem, BLOB_CURSOR).c == Cursor(0, 12, Some(6), Some(12 + Round32(size))))
            && (!SaneSize(size) ==> Round32(size) <= 0)
  {
    hide InitMessage, NextTag, WordAt, BlobMessage;
    BlobMessageOpens(size);
  }

  /** A size field of -4 leaves the argument pointer where it was. */
  lemma NegativeBlobIsAccepted()
    ensures var mem: seq<Byte> := [47, 97, 0, 0, 44, 98, 0, 0, 255, 255, 255, 252, 0];
            && Typed(mem, BLOB_CURSOR) && InitMessage(mem, 0, 12) == Some(BLOB_CURSOR)
            && GetArg(mem, BLOB_CURSOR).code == OSC_OK
            && GetArg(mem, BLOB_CURSOR).c.argPtr == Some(8) == BLOB_CURSOR.argPtr
  {
    hide InitMessage, GetArg, Typed, BigEndian;
    WordImages(255, 255, 255, 252);
    assert BlobMessage(-4) == [47, 97, 0, 0, 44, 98, 0, 0, 255, 255, 255, 252, 0];
    InsaneBlobIsAccepted(-4);
  }

  /** A size field of 2^31 - 3, whose rounding wraps, takes it 2 GiB back. */
  lemma HugeBlobIsAccepted()
    ensures var mem: seq<Byte> := [47, 97, 0, 0, 44, 98, 0, 0, 127, 255, 255, 253, 0];
            && Typed(mem, BLOB_CURSOR) && InitMessage(mem, 0, 12) == Some(BLOB_CURSOR)
            && GetArg(mem, BLOB_CURSOR).code == OSC_OK
            && GetArg(mem, BLOB_CURSOR).c.argPtr == Some(12 - TWO_31)
  {
    hide InitMessage, GetArg, Typed, BigEndian;
    WordImages(127, 255, 255, 253);
    assert BlobMessage(TWO_31 - 3) == [47, 97, 0, 0, 44, 98, 0, 0, 127, 255, 255, 253, 0];
    InsaneBlobIsAccepted(TWO_31 - 3);
  }
}
