/** What the getters refuse, and messages that end inside their arguments (src/read.c:115-162). */
module OscCutShort {
  import opened Options
  import opened Bytes
  import opened OscEncoding
  import opened OscReader
  import opened OscRoundTrip

  /** The tags are all there, but of the data of the arguments only a proper front part is. */
  ghost predicate CutShort(mem: seq<Byte>, c: Cursor, args: seq<Arg>) {
    && TagsAhead(mem, c, args) && c.argPtr.value + |EncArgs(args)| < TWO_31
    && c.msgEnd - c.argPtr.value < |EncArgs(args)|
    && BytesAre(mem, c.argPtr.value, c.msgEnd, EncArgs(args)[..c.msgEnd - c.argPtr.value])
  }

  lemma NoNulBefore(mem: seq<Byte>, p: nat, end: nat, s: seq<Byte>, i: nat)
    requires CString(s) && p <= end && end - p < |EncString(s)| && BytesAre(mem, p, end, EncString(s)[..end - p])
    requires i < |s| && i < end - p
    ensures mem[p + i] != 0
  {
    var b := EncString(s);
    assert b[..end - p][i] == b[i] == s[i] && s[i] in s;
  }

  lemma CutString(mem: seq<Byte>, p: nat, end: nat, s: seq<Byte>)
    requires CString(s) && p <= end && end - p < |EncString(s)| && BytesAre(mem, p, end, EncString(s)[..end - p])
    ensures p + Round4(Strlen(mem, p) + 1) > end
  {
    var n := Strlen(mem, p);
    if n < |s| && n < end - p {
      NoNulBefore(mem, p, end, s, n);
    }
    RoundGrows(|s| + 1, n + 1);
  }

  lemma RoundGrows(a: nat, b: nat)
    ensures a <= b ==> Round4(a) <= Round4(b)
    ensures b <= Round4(b)
  {
  }

  lemma CutBlob(mem: seq<Byte>, c: Cursor, d: seq<Byte>)
    requires Open(mem, c) && c.msgEnd - c.argPtr.value < |EncBlob(d)| && |d| <= TWO_31 - 4
    requires BytesAre(mem, c.argPtr.value, c.msgEnd, EncBlob(d)[..c.msgEnd - c.argPtr.value])
    ensures GetBlob(mem, c).code == OSC_ERROR
  {
    var p, r := c.argPtr.value, c.msgEnd - c.argPtr.value;
    if r >= 4 {
      var size := BigEndian(|d|, 4);
      assert EncBlob(d)[..r] == size + Aligned(d)[..r - 4];
      BytesAreParts(mem, p, c.msgEnd, size, Aligned(d)[..r - 4]);
      WordBack(mem, p, |d|);
      assert Round32(|d|) == Round4(|d|);
    }
  }

  lemma CutTextArg(mem: seq<Byte>, c: Cursor, a: Arg)
    requires Open(mem, c) && ValidArg(a) && a.Text? && c.msgEnd - c.argPtr.value < |EncString(a.s)|
    requires BytesAre(mem, c.argPtr.value, c.msgEnd, EncString(a.s)[..c.msgEnd - c.argPtr.value])
    ensures GetTagged(mem, c, Tag(a)).code == OSC_ERROR
  {
    CutString(mem, c.argPtr.value, c.msgEnd, a.s);
    hide EncString, BytesAre, Strlen, Round4;
  }

  lemma CutBlobArg(mem: seq<Byte>, c: Cursor, a: Arg)
    requires Open(mem, c) && a.Blob? && c.msgEnd - c.argPtr.value < |EncBlob(a.data)| < TWO_31
    requires BytesAre(mem, c.argPtr.value, c.msgEnd, EncBlob(a.data)[..c.msgEnd - c.argPtr.value])
    ensures GetTagged(mem, c, Tag(a)).code == OSC_ERROR
  {
    CutBlob(mem, c, a.data);
    hide EncBlob, BytesAre, GetBlob;
  }

  lemma CutWordArg(mem: seq<Byte>, c: Cursor, a: Arg)
    requires Open(mem, c) && ValidArg(a) && !a.Unknown? && !a.Text? && !a.Blob?
    requires c.msgEnd - c.argPtr.value < |EncArg(a)|
    ensures GetTagged(mem, c, Tag(a)).code == OSC_ERROR
  {
    hide BigEndian;
  }

  /** A getter whose argument is not all there answers OSC_ERROR. */
  lemma CutArg(mem: seq<Byte>, c: Cursor, a: Arg)
    requires Open(mem, c) && ValidArg(a) && !a.Unknown? && |EncArg(a)| < TWO_31
    requires c.msgEnd - c.argPtr.value < |EncArg(a)|
    requires BytesAre(mem, c.argPtr.value, c.msgEnd, EncArg(a)[..c.msgEnd - c.argPtr.value])
    ensures GetTagged(mem, c, Tag(a)).code == OSC_ERROR
  {
    hide GetTagged, BytesAre, EncString, EncBlob;
    if a.Text? {
      CutTextArg(mem, c, a);
    } else if a.Blob? {
      CutBlobArg(mem, c, a);
    } else {
      CutWordArg(mem, c, a);
    }
  }

  lemma NextCut(mem: seq<Byte>, c: Cursor, args: seq<Arg>)
    requires CutShort(mem, c, args)
    ensures args != []
    ensures c.msgEnd - c.argPtr.value < |EncArg(args[0])| ==> GetArg(mem, c).code == OSC_ERROR
    ensures c.msgEnd - c.argPtr.value >= |EncArg(args[0])| ==>
              var c' := Past(c.(typePtr := Some(c.typePtr.value + 1)), |EncArg(args[0])|);
              GetArg(mem, c) == Got(OSC_OK, Some(args[0]), c') && CutShort(mem, c', args[1..])
  {
    hide GetTagged, NextTag, EncArg;
    TagBack(mem, c, args);
    var a, rest, p, r := args[0], EncArgs(args[1..]), c.argPtr.value, c.msgEnd - c.argPtr.value;
    var n, c1 := |EncArg(a)|, c.(typePtr := Some(c.typePtr.value + 1));
    if r < n {
      assert EncArgs(args)[..r] == EncArg(a)[..r];
      CutArg(mem, c1, a);
    } else {
      assert EncArgs(args)[..r] == EncArg(a) + rest[..r - n];
      BytesAreParts(mem, p, c.msgEnd, EncArg(a), rest[..r - n]);
      BlobFits(a, rest[..r - n], r);
      ArgBack(mem, c1, a, rest[..r - n]);
    }
  }

  lemma ReadArgsFails(mem: seq<Byte>, c: Cursor)
    requires Typed(mem, c) && GetArg(mem, c).code == OSC_ERROR
    ensures ReadArgs(mem, c).code == OSC_ERROR && ReadArgs(mem, c).args == []
  {
  }

  /** Reading such a message gives some of the arguments, as they were written, and then
      OSC_ERROR: never all of them, and never OSC_END. */
  lemma {:induction false} CutShortEndsInError(mem: seq<Byte>, c: Cursor, args: seq<Arg>)
    requires CutShort(mem, c, args)
    ensures ReadArgs(mem, c).code == OSC_ERROR && ReadArgs(mem, c).args < args
    decreases |args|
  {
    hide GetArg, EncArg, ReadArgs, CutShort;
    CutIsTyped(mem, c, args);
    NextCut(mem, c, args);
    if c.msgEnd - c.argPtr.value < |EncArg(args[0])| {
      ReadArgsFails(mem, c);
    } else {
      var c' := Past(c.(typePtr := Some(c.typePtr.value + 1)), |EncArg(args[0])|);
      CutIsTyped(mem, c', args[1..]);
      CutShortEndsInError(mem, c', args[1..]);
      ReadArgsStep(mem, c, args[0], c', ReadArgs(mem, c'));
      assert args == [args[0]] + args[1..];
    }
  }

  lemma CutIsTyped(mem: seq<Byte>, c: Cursor, args: seq<Arg>)
    requires CutShort(mem, c, args)
    ensures Typed(mem, c)
  {
  }

  /** The getters for words and strings fail exactly if the argument would end beyond the message,
      and then move nothing; otherwise the pointer moves to the end of the argument. */
  lemma GettersFailIff(mem: seq<Byte>, c: Cursor)
    requires Open(mem, c)
    ensures var g, p := GetWord32(mem, c), c.argPtr.value;
            if p + 4 > c.msgEnd then g == Got(OSC_ERROR, None, c) else g.code == OSC_OK && g.c == Past(c, 4)
    ensures var g, p := GetWord64(mem, c), c.argPtr.value;
            if p + 8 > c.msgEnd then g == Got(OSC_ERROR, None, c) else g.code == OSC_OK && g.c == Past(c, 8)
    ensures var g, p := GetString(mem, c), c.argPtr.value;
            var n := Round4(Strlen(mem, p) + 1);
            if p + n > c.msgEnd then g == Got(OSC_ERROR, None, c) else g.code == OSC_OK && g.c == Past(c, n)
  {
    hide Strlen, Round4, WordAt, DoubleWordAt;
  }

  /** The getter for blobs fails exactly if the size field, or the data by the wrapped rounding of
      its size, would end beyond the message. In the first case nothing moves, in the second the
      size field is behind the pointer. */
  lemma BlobFailsIff(mem: seq<Byte>, c: Cursor)
    requires Open(mem, c)
    ensures var g, p := GetBlob(mem, c), c.argPtr.value;
            if p + 4 > c.msgEnd then g == Got(OSC_ERROR, None, c)
            else
              var n := Round32(Signed32(WordAt(mem, p)));
              if p + 4 + n > c.msgEnd then g == Got(OSC_ERROR, None, Past(c, 4))
              else g.code == OSC_OK && g.c == c.(argPtr := Some(p + 4 + n))
  {
    hide WordAt, Round32, Signed32;
  }

  /** The codes of osc_msg_reader_get_arg: OSC_END exactly at the terminator of the tags, or at a
      tag byte of 254, which is OSC_END as a char; other tags from 128 up are their own codes. */
  lemma EndOfTagsIff(mem: seq<Byte>, c: Cursor)
    requires Typed(mem, c)
    ensures var g, tag := GetArg(mem, c), mem[c.typePtr.value];
            && (g.code == OSC_END <==> tag == 0 || tag == 254)
            && (0 < tag < 128 ==> g.code == OSC_OK || g.code == OSC_ERROR)
            && (tag >= 128 ==> g.code + 256 == tag)
  {
  }

  /** With room for any argument, the tags that have a getter are exactly these. */
  lemma TagsWithGetter(mem: seq<Byte>, c: Cursor, tag: Byte)
    requires Open(mem, c) && c.msgEnd - c.argPtr.value >= 8
    requires GetString(mem, c).code == OSC_OK && GetBlob(mem, c).code == OSC_OK
    ensures GetTagged(mem, c, tag).code == OSC_OK <==> tag as char in "TFNIihtfdsSkb"
    ensures GetTagged(mem, c, tag).code == OSC_ERROR <==> tag as char !in "TFNIihtfdsSkb"
  {
  }
}
