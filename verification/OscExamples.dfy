/** Encodings byte by byte: an example of OSC 1.0, one argument of every kind, and the head of a
    bundle. */
module OscExamples {
  import opened Bytes
  import opened OscEncoding
  import opened OscWriter

  /** The parts one behind the other. */
  function Flat(parts: seq<seq<Byte>>): seq<Byte> {
    if parts == [] then [] else parts[0] + Flat(parts[1..])
  }

  lemma {:induction false} ArgsAreParts(args: seq<Arg>, parts: seq<seq<Byte>>)
    requires |args| == |parts| && forall i | 0 <= i < |args| :: EncArg(args[i]) == parts[i]
    ensures EncArgs(args) == Flat(parts)
    decreases |args|
  {
    hide EncArg;
    if args != [] {
      assert EncArg(args[0]) == parts[0];
      forall i | 0 <= i < |args| - 1
        ensures EncArg(args[1..][i]) == parts[1..][i]
      {
        assert EncArg(args[i + 1]) == parts[i + 1];
      }
      ArgsAreParts(args[1..], parts[1..]);
    }
  }

  predicate HasTag(a: Arg, c: char) {
    ValidArg(a) && Tag(a) == c as int
  }

  /** The kinds of argument and the characters that OSC 1.0 has for them. */
  lemma KindTags(i: Int32, h: Int64, t: Word64, f: Word32, d: Word64, s: seq<Byte>, b: seq<Byte>)
    requires CString(s) && |b| < TWO_31
    ensures HasTag(True, 'T') && HasTag(False, 'F') && HasTag(Nil, 'N') && HasTag(Infinitum, 'I')
    ensures HasTag(I32(i), 'i') && HasTag(I64(h), 'h') && HasTag(Timetag(t), 't')
    ensures HasTag(F32(f), 'f') && HasTag(F64(d), 'd')
    ensures HasTag(Text('s', s), 's') && HasTag(Text('S', s), 'S') && HasTag(Blob(b), 'b')
  {
  }

  /** The tags of arguments, from those of each; all of them are legal in a format. */
  lemma {:induction false} TagsAre(args: seq<Arg>, tags: string)
    requires |args| == |tags| && forall k | 0 <= k < |args| :: HasTag(args[k], tags[k])
    ensures ValidArgs(args) && |Tags(args)| == |tags|
    ensures forall k | 0 <= k < |tags| :: Tags(args)[k] == tags[k] as int
    decreases |args|
  {
    if args != [] {
      assert HasTag(args[0], tags[0]);
      forall k | 0 <= k < |args| - 1
        ensures HasTag(args[1..][k], tags[1..][k])
      {
        assert HasTag(args[k + 1], tags[k + 1]);
      }
      hide HasTag;
      TagsAre(args[1..], tags[1..]);
      ValidCons(args);
      forall k | 0 <= k < |tags|
        ensures Tags(args)[k] == tags[k] as int
      {
        if k > 0 {
          assert Tags(args)[k] == Tags(args[1..])[k - 1] && tags[k] == tags[1..][k - 1];
        }
      }
    }
  }

  lemma ValidCons(args: seq<Arg>)
    requires args != [] && ValidArg(args[0]) && ValidArgs(args[1..])
    ensures ValidArgs(args)
  {
    assert args == [args[0]] + args[1..];
  }

  lemma LegalByIndex(format: seq<Byte>, tags: string)
    requires |format| == |tags| && forall k | 0 <= k < |tags| :: format[k] == tags[k] as int
    requires forall c | c in tags :: c in "TFNIihtfdsSb"
    ensures LegalFormat(format)
  {
    forall b | b in format
      ensures b as char in "TFNIihtfdsSb"
    {
      var k :| 0 <= k < |format| && format[k] == b;
      assert b as char == tags[k] && tags[k] in tags;
    }
  }

  lemma ImageOf(m: Message, address: seq<Byte>, tags: seq<Byte>, parts: seq<seq<Byte>>)
    requires ValidArgs(m.args) && EncString(m.address) == address && EncString([COMMA] + Tags(m.args)) == tags
    requires EncArgs(m.args) == Flat(parts)
    ensures EncMessage(m) == Flat([address, tags] + parts)
  {
    hide EncString, EncArgs;
    var all := [address, tags] + parts;
    assert all[1..] == [tags] + parts && all[1..][1..] == parts;
    assert Flat(all) == address + (tags + Flat(parts));
    assert address + (tags + Flat(parts)) == address + tags + Flat(parts);
  }

  lemma FlatSize(parts: seq<seq<Byte>>)
    ensures parts != [] ==> |Flat(parts)| == |parts[0]| + |Flat(parts[1..])|
    ensures |Flat([])| == 0
  {
  }

  // ---------- The example of OSC 1.0 ----------

  /** The message /foo with 1000, -1, hello, 1.234 and 5.678 ("OSC Message Examples"). */
  const FOO := Message([47, 102, 111, 111],
    [I32(1000), I32(-1), Text('s', [104, 101, 108, 108, 111]), F32(0x3F9D_F3B6), F32(0x40B5_B22D)])

  const FOO_PARTS: seq<seq<Byte>> :=
    [[0, 0, 3, 0xE8], [255, 255, 255, 255], [104, 101, 108, 108, 111, 0, 0, 0],
     [0x3F, 0x9D, 0xF3, 0xB6], [0x40, 0xB5, 0xB2, 0x2D]]

  lemma FooImage()
    ensures ValidArgs(FOO.args) && CString(FOO.address) && LegalFormat(Tags(FOO.args))
    ensures EncMessage(FOO) ==
            Flat([[47, 102, 111, 111, 0, 0, 0, 0], [44, 105, 105, 115, 102, 102, 0, 0]] + FOO_PARTS)
  {
    FooFormat();
    FooArgs();
    FooStrings();
    hide EncString, Flat, EncArgs, LegalFormat;
    ImageOf(FOO, [47, 102, 111, 111, 0, 0, 0, 0], [44, 105, 105, 115, 102, 102, 0, 0], FOO_PARTS);
  }

  lemma FooTagged()
    ensures forall k | 0 <= k < 5 :: HasTag(FOO.args[k], "iisff"[k])
  {
    hide HasTag;
    FooFirstTagged();
    FooLastTagged();
  }

  lemma FooFirstTagged()
    ensures forall k | 0 <= k < 2 :: HasTag(FOO.args[k], "iisff"[k])
  {
    KindTags(1000, 0, 0, 0, 0, [], []);
    KindTags(-1, 0, 0, 0, 0, [], []);
    hide HasTag;
  }

  lemma FooLastTagged()
    ensures forall k | 2 <= k < 5 :: HasTag(FOO.args[k], "iisff"[k])
  {
    KindTags(0, 0, 0, 0x3F9D_F3B6, 0, [104, 101, 108, 108, 111], []);
    KindTags(0, 0, 0, 0x40B5_B22D, 0, [], []);
    hide HasTag;
  }

  lemma FooLegal(tags: seq<Byte>)
    requires |tags| == 5 && forall k | 0 <= k < 5 :: tags[k] == "iisff"[k] as int
    ensures tags == [105, 105, 115, 102, 102] && LegalFormat(tags)
  {
    LegalByIndex(tags, "iisff");
  }

  lemma FooFormat()
    ensures ValidArgs(FOO.args) && CString(FOO.address)
    ensures Tags(FOO.args) == [105, 105, 115, 102, 102] && LegalFormat(Tags(FOO.args))
  {
    FooTagged();
    hide HasTag, Tags, ValidArgs, LegalFormat;
    TagsAre(FOO.args, "iisff");
    FooLegal(Tags(FOO.args));
  }

  lemma FooStrings()
    ensures EncString([47, 102, 111, 111]) == [47, 102, 111, 111, 0, 0, 0, 0]
    ensures EncString([COMMA] + [105, 105, 115, 102, 102]) == [44, 105, 105, 115, 102, 102, 0, 0]
  {
    assert [COMMA] + [105, 105, 115, 102, 102] == [44, 105, 105, 115, 102, 102];
  }

  lemma FooArgs()
    ensures EncArgs(FOO.args) == Flat(FOO_PARTS)
  {
    WordImages(0, 0, 3, 0xE8);
    WordImages(255, 255, 255, 255);
    WordImages(0x3F, 0x9D, 0xF3, 0xB6);
    WordImages(0x40, 0xB5, 0xB2, 0x2D);
    assert EncString([104, 101, 108, 108, 111]) == [104, 101, 108, 108, 111, 0, 0, 0];
    hide BigEndian, EncString, EncArgs, Flat;
    ArgsAreParts(FOO.args, FOO_PARTS);
  }

  // ---------- Every kind ----------

  /** The message /a with one argument for each format character. */
  const EVERY := Message([47, 97],
    [True, False, Nil, Infinitum, I32(1), I64(-2), Timetag(3), F32(0x3F80_0000), F64(0x3FF0_0000_0000_0000),
     Text('s', [104, 105]), Text('S', []), Blob([7, 8, 9])])

  const EVERY_PARTS: seq<seq<Byte>> :=
    [[], [], [], [],
     [0, 0, 0, 1],
     [255, 255, 255, 255, 255, 255, 255, 254],
     [0, 0, 0, 0, 0, 0, 0, 3],
     [0x3F, 0x80, 0, 0],
     [0x3F, 0xF0, 0, 0, 0, 0, 0, 0],
     [104, 105, 0, 0],
     [0, 0, 0, 0],
     [0, 0, 0, 3, 7, 8, 9, 0]]

  /** ",TFNIihtfdsSb" */
  const EVERY_TAGS: seq<Byte> := [84, 70, 78, 73, 105, 104, 116, 102, 100, 115, 83, 98]

  lemma EveryImage()
    ensures ValidArgs(EVERY.args) && CString(EVERY.address)
    ensures Tags(EVERY.args) == EVERY_TAGS && LegalFormat(EVERY_TAGS)
    ensures EncMessage(EVERY) == Flat([[47, 97, 0, 0], [44] + EVERY_TAGS + [0, 0, 0]] + EVERY_PARTS)
  {
    EveryFormat();
    EveryArgs();
    EveryStrings();
    hide EncString, Flat, EncArgs, LegalFormat, Tags, ValidArgs;
    ImageOf(EVERY, [47, 97, 0, 0], [44] + EVERY_TAGS + [0, 0, 0], EVERY_PARTS);
  }

  lemma EveryTagged()
    ensures forall k | 0 <= k < 12 :: HasTag(EVERY.args[k], "TFNIihtfdsSb"[k])
  {
    hide HasTag;
    FirstTagged();
    MiddleTagged();
    LastTagged();
  }

  lemma FirstTagged()
    ensures forall k | 0 <= k < 4 :: HasTag(EVERY.args[k], "TFNIihtfdsSb"[k])
  {
    KindTags(0, 0, 0, 0, 0, [], []);
    hide HasTag;
  }

  lemma MiddleTagged()
    ensures forall k | 4 <= k < 9 :: HasTag(EVERY.args[k], "TFNIihtfdsSb"[k])
  {
    KindTags(1, -2, 3, 0x3F80_0000, 0x3FF0_0000_0000_0000, [], []);
    hide HasTag;
  }

  lemma LastTagged()
    ensures forall k | 9 <= k < 12 :: HasTag(EVERY.args[k], "TFNIihtfdsSb"[k])
  {
    KindTags(0, 0, 0, 0, 0, [104, 105], [7, 8, 9]);
    KindTags(0, 0, 0, 0, 0, [], []);
    hide HasTag;
  }

  lemma EveryLegal(tags: seq<Byte>)
    requires |tags| == 12 && forall k | 0 <= k < 12 :: tags[k] == "TFNIihtfdsSb"[k] as int
    ensures tags == EVERY_TAGS && LegalFormat(tags)
  {
    LegalByIndex(tags, "TFNIihtfdsSb");
  }

  lemma EveryFormat()
    ensures ValidArgs(EVERY.args) && CString(EVERY.address)
    ensures Tags(EVERY.args) == EVERY_TAGS && LegalFormat(EVERY_TAGS)
  {
    EveryTagged();
    hide HasTag, Tags, ValidArgs, LegalFormat;
    TagsAre(EVERY.args, "TFNIihtfdsSb");
    EveryLegal(Tags(EVERY.args));
  }

  lemma EveryStrings()
    ensures EncString([47, 97]) == [47, 97, 0, 0]
    ensures EncString([COMMA] + EVERY_TAGS) == [44] + EVERY_TAGS + [0, 0, 0]
  {
  }

  lemma EveryWords()
    ensures BigEndian(1, 4) == [0, 0, 0, 1] && BigEndian(3, 4) == [0, 0, 0, 3]
    ensures BigEndian(0x3F80_0000, 4) == [0x3F, 0x80, 0, 0]
  {
    WordImages(0, 0, 0, 1);
    WordImages(0, 0, 0, 3);
    WordImages(0x3F, 0x80, 0, 0);
  }

  lemma DoubleWordImage(hi: Word32, lo: Word32)
    ensures BigEndian(hi * TWO_32 + lo, 8) == BigEndian(hi, 4) + BigEndian(lo, 4)
  {
    Ranges();
    Halves(hi, lo, 4);
    assert BigEndian(hi * Range(4) + lo, 4 + 4) == BigEndian(hi, 4) + BigEndian(lo, 4);
  }

  lemma MinusTwoImage()
    ensures BigEndian(TWO_64 - 2, 8) == [255, 255, 255, 255, 255, 255, 255, 254]
  {
    WordImages(255, 255, 255, 255);
    WordImages(255, 255, 255, 254);
    hide BigEndian;
    DoubleWordImage(0xFFFF_FFFF, 0xFFFF_FFFE);
  }

  lemma OneImage()
    ensures BigEndian(0x3FF0_0000_0000_0000, 8) == [0x3F, 0xF0, 0, 0, 0, 0, 0, 0]
  {
    WordImages(0, 0, 0, 0);
    WordImages(0x3F, 0xF0, 0, 0);
    hide BigEndian;
    DoubleWordImage(0x3FF0_0000, 0);
  }

  lemma SmallImage(b: Byte)
    ensures BigEndian(b, 8) == [0, 0, 0, 0, 0, 0, 0, b] && BigEndian(b, 4) == [0, 0, 0, b]
  {
    WordImages(0, 0, 0, 0);
    WordImages(0, 0, 0, b);
    hide BigEndian;
    DoubleWordImage(0, b);
  }

  lemma EveryText()
    ensures EncString([104, 105]) == [104, 105, 0, 0] && EncString([]) == [0, 0, 0, 0]
    ensures EncBlob([7, 8, 9]) == [0, 0, 0, 3, 7, 8, 9, 0]
  {
    EveryWords();
    hide BigEndian;
  }

  lemma EveryArgs()
    ensures EncArgs(EVERY.args) == Flat(EVERY_PARTS)
  {
    EveryWords();
    MinusTwoImage();
    SmallImage(3);
    OneImage();
    EveryText();
    hide BigEndian, EncString, EncBlob, EncArgs, Flat;
    ArgsAreParts(EVERY.args, EVERY_PARTS);
  }

  // ---------- A bundle ----------

  lemma FooIsPacket()
    ensures |EncMessage(FOO)| == 40 && ValidPacket(Msg(FOO))
  {
    FooImage();
    FooSize();
  }

  lemma FooSize()
    ensures |Flat([[47, 102, 111, 111, 0, 0, 0, 0], [44, 105, 105, 115, 102, 102, 0, 0]] + FOO_PARTS)| == 40
  {
    var parts: seq<seq<Byte>> := [[47, 102, 111, 111, 0, 0, 0, 0], [44, 105, 105, 115, 102, 102, 0, 0]] + FOO_PARTS;
    FlatSize(parts);
    FlatSize(parts[1..]);
    FlatSize(parts[1..][1..]);
    FlatSize(parts[1..][1..][1..]);
    FlatSize(parts[1..][1..][1..][1..]);
    FlatSize(parts[1..][1..][1..][1..][1..]);
    FlatSize(parts[1..][1..][1..][1..][1..][1..]);
    assert parts[1..][1..][1..][1..][1..][1..][1..] == [];
  }

  lemma BundleHead()
    ensures BUNDLE_TAG + BigEndian(1, 8) == [35, 98, 117, 110, 100, 108, 101, 0, 0, 0, 0, 0, 0, 0, 0, 1]
    ensures BigEndian(40, 4) == [0, 0, 0, 40]
  {
    SmallImage(1);
    SmallImage(40);
    hide BigEndian;
  }

  /** A bundle for now, with one element: "#bundle", the timetag 1, the size of /foo and /foo. */
  lemma BundleImage()
    ensures ValidPacket(Bundle(1, [Msg(FOO)]))
    ensures ValidArgs(FOO.args) && EncPacket(Bundle(1, [Msg(FOO)])) ==
            [35, 98, 117, 110, 100, 108, 101, 0, 0, 0, 0, 0, 0, 0, 0, 1] + ([0, 0, 0, 40] + EncMessage(FOO))
  {
    BundleHead();
    FooIsPacket();
    hide BigEndian, EncMessage, EncPacket, ValidPacket;
    SingleElement(FOO);
    BundleParts(1, [Msg(FOO)]);
  }
}
