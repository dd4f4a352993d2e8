/** The packet writer of ideas/osc.c:15-162, filling a byte array in place. */
module OscWriter {
  import opened Options
  import opened Bytes
  import opened OscEncoding

  /** From lo on the bytes are x; all others are as they were. */
  ghost predicate Wrote(now: seq<Byte>, was: seq<Byte>, lo: nat, x: seq<Byte>) {
    lo + |x| <= |was| && now == was[..lo] + x + was[lo + |x|..]
  }

  /** Everything outside [lo, hi) is as it was. */
  ghost predicate SameOutside(now: seq<Byte>, was: seq<Byte>, lo: nat, hi: nat) {
    lo <= hi <= |was| && |now| == |was| && now[..lo] == was[..lo] && now[hi..] == was[hi..]
  }

  lemma WroteMore(now: seq<Byte>, mid: seq<Byte>, was: seq<Byte>, lo: nat, x: seq<Byte>, y: seq<Byte>)
    requires Wrote(mid, was, lo, x) && Wrote(now, mid, lo + |x|, y)
    ensures Wrote(now, was, lo, x + y)
  {
    assert mid[..lo + |x|] == was[..lo] + x;
    assert mid[lo + |x| + |y|..] == was[lo + |x| + |y|..];
  }

  lemma WroteNothing(was: seq<Byte>, lo: nat)
    requires lo <= |was|
    ensures Wrote(was, was, lo, [])
  {
    assert was == was[..lo] + [] + was[lo..];
  }

  lemma NothingChanged(was: seq<Byte>, lo: nat, hi: nat)
    requires lo <= hi <= |was|
    ensures SameOutside(was, was, lo, hi)
  {
  }

  lemma WroteWithin(now: seq<Byte>, was: seq<Byte>, lo: nat, x: seq<Byte>, hi: nat)
    requires Wrote(now, was, lo, x) && lo + |x| <= hi <= |was|
    ensures SameOutside(now, was, lo, hi)
  {
    assert now[hi..] == was[hi..];
  }

  /** A failure after x was written changes nothing beyond the end of the buffer. */
  lemma FailedAfter(now: seq<Byte>, mid: seq<Byte>, was: seq<Byte>, lo: nat, x: seq<Byte>, hi: nat)
    requires Wrote(mid, was, lo, x) && SameOutside(now, mid, lo + |x|, hi)
    ensures SameOutside(now, was, lo, hi)
  {
    assert now[..lo] == now[..lo + |x|][..lo] == mid[..lo] == was[..lo];
    assert mid[hi..] == was[hi..];
  }

  /** memcpy. */
  method Copy(buffer: array<Byte>, pos: nat, source: seq<Byte>)
    requires pos + |source| <= buffer.Length
    modifies buffer
    ensures Wrote(buffer[..], old(buffer[..]), pos, source)
  {
    forall i | 0 <= i < |source| {
      buffer[pos + i] := source[i];
    }
  }

  function Padded(source: seq<Byte>, already: nat): (r: seq<Byte>)
    ensures |r| == Round4(|source| + already) - already
  {
    source + Zeros(Round4(|source| + already) - |source| - already)
  }

  /** osc_write_aligned: source and zeros up to a multiple of four bytes, counting the bytes
      already written before. None is a NULL result. */
  method WriteAligned(buffer: array<Byte>, pos: nat, remain: nat, source: seq<Byte>, already: nat)
     returns (r: Option<nat>)
    requires pos + remain <= buffer.Length
    modifies buffer
    ensures r.Some? <==> |Padded(source, already)| <= remain
    ensures r.Some? ==> r.value == pos + |Padded(source, already)|
    ensures r.Some? ==> Wrote(buffer[..], old(buffer[..]), pos, Padded(source, already))
    ensures r.None? ==> buffer[..] == old(buffer[..])
  {
    hide Wrote, Round4, Zeros;
    var unrounded := |source| + already;
    var rounded := Round4(unrounded);
    if rounded - already > remain {
      return None;
    }
    ghost var was := buffer[..];
    Copy(buffer, pos, source);
    ghost var mid := buffer[..];
    var zeros := Zeros(rounded - unrounded);
    Copy(buffer, pos + |source|, zeros);
    WroteMore(buffer[..], mid, was, pos, source, zeros);
    return Some(pos + |source| + |zeros|);
  }

  /** WRITE_FIXED for 32 and for 64 bits. */
  method WriteWord32(h: Host, buffer: array<Byte>, pos: nat, end: nat, w: Word32) returns (r: Option<nat>)
    requires pos <= end <= buffer.Length
    modifies buffer
    ensures r == if 4 <= end - pos then Some(pos + 4) else None
    ensures r.Some? ==> Wrote(buffer[..], old(buffer[..]), pos, BigEndian(w, 4))
    ensures r.None? ==> buffer[..] == old(buffer[..])
  {
    if end - pos < 4 {
      return None;
    }
    StoredWordIsBigEndian(h, w);
    Copy(buffer, pos, Store(h, HostToNet32(h, w), 4));
    return Some(pos + 4);
  }

  method WriteWord64(h: Host, buffer: array<Byte>, pos: nat, end: nat, w: Word64) returns (r: Option<nat>)
    requires pos <= end <= buffer.Length
    modifies buffer
    ensures r == if 8 <= end - pos then Some(pos + 8) else None
    ensures r.Some? ==> Wrote(buffer[..], old(buffer[..]), pos, BigEndian(w, 8))
    ensures r.None? ==> buffer[..] == old(buffer[..])
  {
    if end - pos < 8 {
      return None;
    }
    StoredDoubleWordIsBigEndian(h, w);
    Copy(buffer, pos, Store(h, HostToNet64(h, w), 8));
    return Some(pos + 8);
  }

  /** The format characters that osc_writev has a case for; k is not one of them. */
  predicate Writable(a: Arg) {
    !a.Unknown? && (a.Text? ==> a.kind != 'k')
  }

  predicate AllWritable(args: seq<Arg>) {
    forall a | a in args :: Writable(a)
  }

  /** The format strings of which every character has a case in osc_writev. */
  predicate LegalFormat(format: seq<Byte>) {
    forall b | b in format :: b as char in "TFNIihtfdsSb"
  }

  lemma WritableTag(a: Arg)
    requires ValidArg(a)
    ensures Writable(a) <==> Tag(a) as char in "TFNIihtfdsSb"
  {
    if a.Unknown? {
      assert forall k | k in "TFNIihtfdsSb" :: k in KNOWN_TAGS;
    }
  }

  lemma LegalCons(b: Byte, format: seq<Byte>)
    ensures LegalFormat([b] + format) <==> b as char in "TFNIihtfdsSb" && LegalFormat(format)
  {
    assert b in [b] + format;
    assert forall c | c in format :: c in [b] + format;
  }

  lemma NothingIsLegal()
    ensures LegalFormat([]) && AllWritable([])
  {
  }

  lemma WritableCons(args: seq<Arg>)
    requires args != []
    ensures AllWritable(args) <==> Writable(args[0]) && AllWritable(args[1..])
  {
    assert args == [args[0]] + args[1..];
  }

  lemma {:induction false} LegalFormatIff(args: seq<Arg>)
    requires ValidArgs(args)
    ensures AllWritable(args) <==> LegalFormat(Tags(args))
  {
    hide Writable, LegalFormat, AllWritable, Tag;
    if args == [] {
      NothingIsLegal();
    } else {
      assert ValidArg(args[0]);
      WritableTag(args[0]);
      LegalFormatIff(args[1..]);
      WritableCons(args);
      LegalCons(Tag(args[0]), Tags(args[1..]));
    }
  }

  /** The outcome of writing x, of at most end - pos bytes, if it is allowed at all. */
  ghost predicate Outcome(r: Option<nat>, now: seq<Byte>, was: seq<Byte>, pos: nat, end: nat,
                          x: seq<Byte>, allowed: bool) {
    && pos <= end <= |was|
    && (r == if allowed && |x| <= end - pos then Some(pos + |x|) else None)
    && (r.Some? ==> Wrote(now, was, pos, x))
    && (r.None? ==> SameOutside(now, was, pos, end))
  }

  lemma BlobParts(d: seq<Byte>)
    ensures EncBlob(d) == BigEndian(|d|, 4) + Padded(d, 0)
  {
  }

  /** The size field of a blob and its data. */
  method WriteBlob(h: Host, buffer: array<Byte>, pos: nat, end: nat, d: seq<Byte>) returns (r: Option<nat>)
    requires pos <= end <= buffer.Length && |d| < TWO_31
    modifies buffer
    ensures Outcome(r, buffer[..], old(buffer[..]), pos, end, EncBlob(d), true)
  {
    ghost var was := buffer[..];
    BlobParts(d);
    NothingChanged(was, pos, end);
    hide EncBlob, Padded, BigEndian, Round4, Wrote, SameOutside;
    r := WriteWord32(h, buffer, pos, end, |d|);
    if r.Some? {
      ghost var mid := buffer[..];
      r := WriteAligned(buffer, pos + 4, end - (pos + 4), d, 0);
      if r.Some? {
        WroteMore(buffer[..], mid, was, pos, BigEndian(|d|, 4), Padded(d, 0));
      } else {
        WroteWithin(mid, was, pos, BigEndian(|d|, 4), end);
      }
    }
  }

  lemma PaddedString(s: seq<Byte>)
    ensures Padded(s + [0], 0) == EncString(s)
  {
  }

  /** One pass of the loop over the format string. */
  method WriteArg(h: Host, buffer: array<Byte>, pos: nat, end: nat, a: Arg) returns (r: Option<nat>)
    requires pos <= end <= buffer.Length && ValidArg(a)
    modifies buffer
    ensures Outcome(r, buffer[..], old(buffer[..]), pos, end, EncArg(a), Writable(a))
  {
    WroteNothing(buffer[..], pos);
    if a.Text? {
      PaddedString(a.s);
    }
    hide EncString, EncBlob, BigEndian, Padded, Wrote;
    match a {
      case True =>
        r := Some(pos);
      case False =>
        r := Some(pos);
      case Nil =>
        r := Some(pos);
      case Infinitum =>
        r := Some(pos);
      case I32(i) =>
        r := WriteWord32(h, buffer, pos, end, Unsigned32(i));
      case I64(i) =>
        r := WriteWord64(h, buffer, pos, end, Unsigned64(i));
      case Timetag(t) =>
        r := WriteWord64(h, buffer, pos, end, t);
      case F32(f) =>
        r := WriteWord32(h, buffer, pos, end, f);
      case F64(d) =>
        r := WriteWord64(h, buffer, pos, end, d);
      case Text(kind, s) =>
        if kind == 'k' {
          return None;
        }
        r := WriteAligned(buffer, pos, end - pos, s + [0], 0);
      case Blob(d) =>
        r := WriteBlob(h, buffer, pos, end, d);
      case Unknown(_) =>
        r := None;
    }
  }

  /** The comma counts for the alignment of the type tag string. */
  lemma TagString(format: seq<Byte>)
    ensures EncString([COMMA] + format) == [COMMA] + Padded(format + [0], 1)
  {
  }

  /** The comma and the format string. */
  method WriteTags(buffer: array<Byte>, pos: nat, end: nat, format: seq<Byte>) returns (r: Option<nat>)
    requires pos <= end <= buffer.Length && CString(format)
    modifies buffer
    ensures Outcome(r, buffer[..], old(buffer[..]), pos, end, EncString([COMMA] + format), true)
  {
    ghost var was := buffer[..];
    TagString(format);
    hide EncString, Padded;
    if end - pos < 1 {
      return None;
    }
    buffer[pos] := COMMA;
    ghost var mid := buffer[..];
    assert Wrote(mid, was, pos, [COMMA]);
    r := WriteAligned(buffer, pos + 1, end - (pos + 1), format + [0], 1);
    if r.Some? {
      WroteMore(buffer[..], mid, was, pos, [COMMA], Padded(format + [0], 1));
    } else {
      WroteWithin(mid, was, pos, [COMMA], end);
    }
  }

  lemma HeadParts(address: seq<Byte>, format: seq<Byte>)
    ensures EncHead(address, format) == EncString(address) + EncString([COMMA] + format)
  {
  }

  /** The address and the type tag string. */
  method WriteHead(buffer: array<Byte>, start: nat, end: nat, address: seq<Byte>, format: seq<Byte>)
     returns (r: Option<nat>)
    requires start <= end <= buffer.Length && CString(address) && CString(format)
    modifies buffer
    ensures Outcome(r, buffer[..], old(buffer[..]), start, end, EncHead(address, format), true)
  {
    ghost var was := buffer[..];
    ghost var first := EncString(address);
    PaddedString(address);
    HeadParts(address, format);
    NothingChanged(was, start, end);
    hide EncString, EncHead, Padded, Wrote, SameOutside;
    r := WriteAligned(buffer, start, end - start, address + [0], 0);
    if r.Some? {
      ghost var mid := buffer[..];
      r := WriteTags(buffer, r.value, end, format);
      if r.Some? {
        WroteMore(buffer[..], mid, was, start, first, EncString([COMMA] + format));
      } else {
        FailedAfter(buffer[..], mid, was, start, first, end);
      }
    }
  }

  /** The loop over the format string. */
  method WriteArgs(h: Host, buffer: array<Byte>, start: nat, end: nat, args: seq<Arg>) returns (r: Option<nat>)
    requires start <= end <= buffer.Length && ValidArgs(args)
    modifies buffer
    ensures Outcome(r, buffer[..], old(buffer[..]), start, end, EncArgs(args), AllWritable(args))
  {
    hide EncArg, Writable;
    ghost var was := buffer[..];
    WroteNothing(was, start);
    var pos := start;
    ghost var written: seq<Byte> := [];
    var curr := 0;
    assert args[0..] == args;
    while curr < |args|
      invariant 0 <= curr <= |args| && pos == start + |written| <= end
      invariant Wrote(buffer[..], was, start, written)
      invariant written + EncArgs(args[curr..]) == EncArgs(args)
      invariant AllWritable(args[..curr])
    {
      EncArgsFrom(args, curr);
      WritableSoFar(args, curr);
      ghost var x := EncArg(args[curr]);
      TakeNext(written, x, EncArgs(args[curr + 1..]), EncArgs(args));
      ghost var mid := buffer[..];
      r := WriteArg(h, buffer, pos, end, args[curr]);
      if r.None? {
        FailedAfter(buffer[..], mid, was, start, written, end);
        return None;
      }
      WroteMore(buffer[..], mid, was, start, written, x);
      written := written + x;
      pos := r.value;
      curr := curr + 1;
    }
    assert args[curr..] == [] && args[..curr] == args;
    r := Some(pos);
  }

  lemma EncArgsFrom(args: seq<Arg>, k: nat)
    requires k < |args|
    ensures EncArgs(args[k..]) == EncArg(args[k]) + EncArgs(args[k + 1..])
  {
    assert args[k..][1..] == args[k + 1..];
  }

  lemma WritableSoFar(args: seq<Arg>, k: nat)
    requires k < |args|
    ensures AllWritable(args) ==> Writable(args[k])
    ensures AllWritable(args[..k]) && Writable(args[k]) ==> AllWritable(args[..k + 1])
  {
    assert args[..k + 1] == args[..k] + [args[k]];
  }

  lemma TakeNext(written: seq<Byte>, x: seq<Byte>, rest: seq<Byte>, whole: seq<Byte>)
    requires written + (x + rest) == whole
    ensures (written + x) + rest == whole && |written| + |x| <= |whole|
  {
  }

  /** The cast of a size to int: it keeps the low 32 bits. */
  function Truncated(n: nat): Int32 {
    Signed32(n % TWO_32)
  }

  lemma TruncatedExact(n: nat)
    ensures n < TWO_31 ==> Truncated(n) == n
    ensures (n - Truncated(n)) % TWO_32 == 0
  {
  }

  lemma HeadThenArgs(m: Message)
    requires ValidArgs(m.args)
    ensures EncMessage(m) == EncHead(m.address, Tags(m.args)) + EncArgs(m.args)
  {
  }

  /** osc_writev on buffer[start..start + len). The format string and the variable arguments
      come as one typed list: its tags are the format. If the format is legal and the encoding
      fits, that is what is written, and the result is its size as an int; otherwise it is -1,
      and nothing outside the len bytes has changed. Below 2^31 the size is exact. */
  method WriteMessage(h: Host, buffer: array<Byte>, start: nat, len: nat, m: Message) returns (r: int)
    requires start + len <= buffer.Length && CString(m.address) && ValidArgs(m.args)
    modifies buffer
    ensures var fits := LegalFormat(Tags(m.args)) && |EncMessage(m)| <= len;
            && r == (if fits then Truncated(|EncMessage(m)|) else -1)
            && (fits ==> Wrote(buffer[..], old(buffer[..]), start, EncMessage(m)))
            && (fits && len < TWO_31 ==> r == |EncMessage(m)|)
    ensures SameOutside(buffer[..], old(buffer[..]), start, start + len)
  {
    hide EncMessage, EncHead, EncArgs, Tags, AllWritable, LegalFormat, Wrote, SameOutside;
    LegalFormatIff(m.args);
    HeadThenArgs(m);
    var end := start + len;
    ghost var was := buffer[..];
    ghost var head := EncHead(m.address, Tags(m.args));
    var p := WriteHead(buffer, start, end, m.address, Tags(m.args));
    if p.None? {
      return -1;
    }
    ghost var mid := buffer[..];
    p := WriteArgs(h, buffer, p.value, end, m.args);
    if p.None? {
      FailedAfter(buffer[..], mid, was, start, head, end);
      return -1;
    }
    WroteMore(buffer[..], mid, was, start, head, EncArgs(m.args));
    WroteWithin(buffer[..], was, start, EncMessage(m), end);
    r := Truncated(p.value - start);
  }

  // ---------- Bundles ----------

  lemma NarrowerFailure(now: seq<Byte>, was: seq<Byte>, lo: nat, lo': nat, hi: nat)
    requires lo <= lo' && SameOutside(now, was, lo', hi)
    ensures SameOutside(now, was, lo, hi)
  {
    assert now[..lo] == now[..lo'][..lo] == was[..lo];
  }

  lemma SizeThenMessage(now: seq<Byte>, mid: seq<Byte>, was: seq<Byte>, lo: nat, x: seq<Byte>, y: seq<Byte>)
    requires |x| == 4 && Wrote(mid, was, lo + 4, y) && Wrote(now, mid, lo, x)
    ensures Wrote(now, was, lo, x + y)
  {
    var rest := was[lo + 4 + |y|..];
    assert mid[..lo] == was[..lo + 4][..lo] == was[..lo];
    assert mid[lo + 4..] == y + rest;
    Regroup(was[..lo], x, y, rest);
    assert was[lo + |x + y|..] == rest;
  }

  lemma Regroup(a: seq<Byte>, b: seq<Byte>, c: seq<Byte>, d: seq<Byte>)
    ensures a + b + (c + d) == a + (b + c) + d
  {
  }

  /** The part of osc_bundle_writev that touches the buffer: the message, and then its size in
      the four bytes in front of it. */
  method WriteSized(h: Host, buffer: array<Byte>, pos: nat, m: Message) returns (written: int)
    requires pos + 4 <= buffer.Length && CString(m.address) && ValidArgs(m.args)
    modifies buffer
    ensures var fits := LegalFormat(Tags(m.args)) && 4 + |EncMessage(m)| <= buffer.Length - pos;
            written == if fits then Truncated(|EncMessage(m)|) else -1
    ensures written >= 0 ==>
              written < TWO_31 && Wrote(buffer[..], old(buffer[..]), pos, BigEndian(written, 4) + EncMessage(m))
    ensures written < 0 ==> SameOutside(buffer[..], old(buffer[..]), pos, buffer.Length)
  {
    hide EncMessage, LegalFormat, Tags, BigEndian, Wrote, SameOutside, Truncated;
    ghost var was := buffer[..];
    written := WriteMessage(h, buffer, pos + 4, buffer.Length - (pos + 4), m);
    ghost var mid := buffer[..];
    if written < 0 {
      NarrowerFailure(mid, was, pos, pos + 4, buffer.Length);
      return;
    }
    StoredWordIsBigEndian(h, written);
    Copy(buffer, pos, Store(h, HostToNet32(h, written), 4));
    SizeThenMessage(buffer[..], mid, was, pos, BigEndian(written, 4), EncMessage(m));
  }

  /** osc_bundle_t. None is the NULL that a failed start leaves in buffer_pos; buffer_end is
      the end of the array. */
  class BundleWriter {
    const h: Host
    const buffer: array<Byte>
    var bufferPos: Option<nat>
    var len: nat

    /** osc_bundle_init. */
    constructor (h: Host, buffer: array<Byte>)
      ensures this.buffer == buffer && this.h == h && bufferPos == Some(0) && len == 0
    {
      this.h, this.buffer := h, buffer;
      bufferPos, len := Some(0), 0;
    }

    /** The buffer holds exactly the encoding of the bundle of these messages, and the next
        write goes behind it. */
    ghost predicate HoldsBundle(when: Word64, ms: seq<Message>)
      reads this, buffer
    {
      var es := AsPackets(ms);
      && ValidElements(es) && ValidPacket(Bundle(when, es))
      && len == |EncPacket(Bundle(when, es))| && bufferPos == Some(len) && len <= buffer.Length
      && buffer[..len] == EncPacket(Bundle(when, es))
    }

    /** The next write goes where the bundle ends. */
    predicate InStep()
      reads this
    {
      bufferPos == Some(len)
    }

    /** osc_bundle_start. */
    method Start(when: Word64) returns (ok: bool)
      modifies this, buffer
      ensures ok <==> 16 <= buffer.Length
      ensures ok ==> HoldsBundle(when, []) && len == 16
      ensures !ok ==> len == 0 && bufferPos == if buffer.Length < 8 then None else Some(8)
    {
      hide EncPacket, ValidPacket, ValidElements;
      bufferPos, len := Some(0), 0;
      ghost var was := buffer[..];
      var p := WriteAligned(buffer, 0, buffer.Length, BUNDLE_TAG, 0);
      bufferPos := p;
      if p.None? {
        return false;
      }
      assert Padded(BUNDLE_TAG, 0) == BUNDLE_TAG;
      ghost var mid := buffer[..];
      p := WriteWord64(h, buffer, p.value, buffer.Length, when);
      if p.None? {
        return false;
      }
      WroteMore(buffer[..], mid, was, 0, BUNDLE_TAG, BigEndian(when, 8));
      bufferPos, len := p, p.value;
      EmptyBundle(when);
      return true;
    }

    /** osc_bundle_writev. A success appends one element and changes no earlier byte. A
        failure leaves len and everything before the old position alone, but it moves the
        position by 4 if the size field still fitted. Sizes go through an int, so that one of
        2^31 or more fails or comes out modulo 2^32; below that they are exact. */
    method Write(m: Message) returns (ok: bool)
      requires bufferPos.Some? && bufferPos.value <= buffer.Length
      requires CString(m.address) && ValidArgs(m.args)
      modifies this, buffer
      ensures var pos, size := old(bufferPos.value), |EncMessage(m)|;
              var fits, n := LegalFormat(Tags(m.args)) && 4 + size <= buffer.Length - pos, Truncated(size);
              && (ok <==> fits && n >= 0)
              && (ok ==> bufferPos == Some(pos + 4 + n) && len == old(len) + 4 + n)
              && (ok ==> Wrote(buffer[..], old(buffer[..]), pos, BigEndian(n, 4) + EncMessage(m)))
              && (!ok ==> len == old(len) && SameOutside(buffer[..], old(buffer[..]), pos, buffer.Length))
              && (!ok ==> bufferPos == Some(if buffer.Length - pos < 4 then pos else pos + 4))
              && (size < TWO_31 ==> n == size)
      ensures old(InStep()) ==> (InStep() <==> ok || buffer.Length - old(len) < 4)
    {
      TruncatedExact(|EncMessage(m)|);
      hide EncMessage, LegalFormat, Tags, BigEndian, Wrote, SameOutside, Truncated;
      var before := bufferPos.value;
      NothingChanged(buffer[..], before, buffer.Length);
      if buffer.Length - before < 4 {
        return false;
      }
      bufferPos := Some(before + 4);
      var written := WriteSized(h, buffer, before, m);
      if written < 0 {
        return false;
      }
      bufferPos := Some(before + 4 + written);
      len := len + written + 4;
      return true;
    }

    /** After a successful start and only successful writes, a write of a message that a
        reader takes for a message extends the bundle by that message. */
    method WriteElement(ghost when: Word64, ghost ms: seq<Message>, m: Message) returns (ok: bool)
      requires HoldsBundle(when, ms) && buffer.Length < TWO_31
      requires CString(m.address) && ValidArgs(m.args) && (m.address != [] ==> m.address[0] != HASH)
      modifies this, buffer
      ensures ok <==> LegalFormat(Tags(m.args)) && 4 + |EncMessage(m)| <= buffer.Length - old(len)
      ensures ok ==> HoldsBundle(when, ms + [m]) && len % 4 == 0 && len == old(len) + 4 + |EncMessage(m)|
      ensures buffer[..old(len)] == old(buffer[..len]) && (!ok ==> len == old(len))
    {
      ghost var was := buffer[..];
      ghost var pos := len;
      ok := Write(m);
      if ok {
        LegalFormatIff(m.args);
        MessageIsPacket(m);
        SingleElement(m);
        Appended(when, AsPackets(ms), Msg(m));
        AsPacketsAppended(ms, m);
        EncPacketSize(Bundle(when, AsPackets(ms) + [Msg(m)]));
        hide EncPacket, ValidPacket, ValidElements, EncElements, EncMessage, AsPackets;
        assert buffer[..len] == was[..pos] + (BigEndian(|EncMessage(m)|, 4) + EncMessage(m));
      } else {
        assert buffer[..][..pos] == was[..pos];
      }
    }
  }

  lemma SingleElement(m: Message)
    requires ValidPacket(Msg(m))
    ensures ValidElements([Msg(m)]) && EncElements([Msg(m)]) == BigEndian(|EncMessage(m)|, 4) + EncMessage(m)
  {
    var p := Msg(m);
    assert EncPacket(p) == EncMessage(m);
    assert [p][1..] == [];
    var x := BigEndian(|EncMessage(m)|, 4) + EncMessage(m);
    assert x + [] == x;
  }

  lemma MessageIsPacket(m: Message)
    requires CString(m.address) && ValidArgs(m.args) && (m.address != [] ==> m.address[0] != HASH)
    requires AllWritable(m.args) && |EncMessage(m)| < TWO_31
    ensures ValidPacket(Msg(m))
  {
  }

  lemma Appended(when: Word64, es: seq<Packet>, p: Packet)
    requires ValidElements(es) && ValidPacket(Bundle(when, es)) && ValidElements([p])
    requires |EncPacket(Bundle(when, es))| + |EncElements([p])| < TWO_31
    ensures ValidElements(es + [p]) && ValidPacket(Bundle(when, es + [p]))
    ensures EncPacket(Bundle(when, es + [p])) == EncPacket(Bundle(when, es)) + EncElements([p])
  {
    hide EncPacket, EncElements, ValidElements;
    EncElementsConcat(es, [p]);
    BundleParts(when, es);
    BundleParts(when, es + [p]);
  }

  lemma EmptyBundle(when: Word64)
    ensures ValidElements([]) && ValidPacket(Bundle(when, []))
    ensures EncPacket(Bundle(when, [])) == BUNDLE_TAG + BigEndian(when, 8)
  {
    assert EncElements([]) == [];
    BundleParts(when, []);
  }

  lemma BundleParts(when: Word64, es: seq<Packet>)
    requires ValidElements(es) && 16 + |EncElements(es)| < TWO_31
    ensures ValidPacket(Bundle(when, es))
    ensures EncPacket(Bundle(when, es)) == BUNDLE_TAG + BigEndian(when, 8) + EncElements(es)
    ensures |EncPacket(Bundle(when, es))| == 16 + |EncElements(es)|
  {
  }

  // ---------- Out of step ----------

  /** A message of 24 bytes and one of 8. */
  const LONG := Message([47, 97], [I64(0), I64(0)])
  const SHORT := Message([47, 97], [])

  lemma LongSize()
    ensures CString(LONG.address) && ValidArgs(LONG.args) && |EncMessage(LONG)| == 24
  {
    hide BigEndian, EncString;
    assert LONG.args[1..] == [I64(0)] && LONG.args[1..][1..] == [];
    assert |EncArgs(LONG.args[1..])| == 8 && |EncArgs(LONG.args)| == 16;
  }

  lemma ShortImage()
    ensures CString(SHORT.address) && ValidArgs(SHORT.args) && LegalFormat(Tags(SHORT.args))
    ensures EncMessage(SHORT) == [47, 97, 0, 0, 44, 0, 0, 0]
  {
    assert Tags(SHORT.args) == [] && EncArgs(SHORT.args) == [];
    assert EncString([47, 97]) == [47, 97, 0, 0] && EncString([COMMA]) == [44, 0, 0, 0];
    assert [COMMA] + [] == [COMMA];
  }

  /** What the bundle of the short message should be. */
  lemma ShortBundle(when: Word64)
    ensures ValidElements([Msg(SHORT)]) && ValidPacket(Bundle(when, [Msg(SHORT)]))
    ensures var b := EncPacket(Bundle(when, [Msg(SHORT)])); |b| == 28 && b[20] == 47
  {
    ShortImage();
    MessageIsPacket(SHORT);
    SingleElement(SHORT);
    BundleParts(when, [Msg(SHORT)]);
  }

  /** In a buffer of 32 bytes, a write that does not fit and then one that does. The second one
      succeeds behind a gap of four bytes that belongs to nothing, so that the len bytes which
      the bundle says it has are not the bundle of the message written: its size field stands
      where the message should. */
  method FailedWriteLeavesGap(h: Host, buffer: array<Byte>, when: Word64) returns (w: BundleWriter)
    requires buffer.Length == 32
    modifies buffer
    ensures w.buffer == buffer && w.len == 28 && w.bufferPos == Some(32)
    ensures buffer[20..32] == BigEndian(8, 4) + EncMessage(SHORT)
    ensures ValidElements([Msg(SHORT)]) && ValidPacket(Bundle(when, [Msg(SHORT)]))
    ensures buffer[..w.len] != EncPacket(Bundle(when, [Msg(SHORT)]))
  {
    LongSize();
    ShortImage();
    ShortBundle(when);
    hide EncMessage, EncPacket, ValidPacket, ValidElements;
    w := new BundleWriter(h, buffer);
    var started := w.Start(when);
    var first := w.Write(LONG);
    assert started && !first && w.bufferPos == Some(20) && w.len == 16;
    ghost var was := buffer[..];
    var second := w.Write(SHORT);
    assert second;
    BigEndianEight();
    assert buffer[20] == (BigEndian(8, 4) + EncMessage(SHORT))[0] == 0;
  }

  lemma BigEndianEight()
    ensures BigEndian(8, 4) == [0, 0, 0, 8]
  {
    WordImages(0, 0, 0, 8);
  }
}
