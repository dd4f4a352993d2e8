/** The OSC 1.0 encoding of messages and bundles ("OSC Type Tag String", "OSC Bundles"). */
module OscEncoding {
  import opened Bytes

  /** An argument. Floats are their raw words. Text has tag s, S or k; an Unknown tag is a
      format character that the program has no case for. */
  datatype Arg =
    | True | False | Nil | Infinitum
    | I32(i: Int32) | I64(h: Int64) | Timetag(t: Word64) | F32(f: Word32) | F64(d: Word64)
    | Text(kind: char, s: seq<Byte>)
    | Blob(data: seq<Byte>)
    | Unknown(tag: Byte)

  datatype Message = Message(address: seq<Byte>, args: seq<Arg>)

  /** A packet: a message, a message without a type tag string (its address and perhaps data), or
      a bundle. */
  datatype Packet =
    | Msg(m: Message)
    | Untagged(address: seq<Byte>, data: seq<Byte>)
    | Bundle(when: Word64, elements: seq<Packet>)

  const COMMA: Byte := ',' as int
  const HASH: Byte := '#' as int

  /** "#bundle" and its NUL. */
  const BUNDLE_TAG: seq<Byte> := [35, 98, 117, 110, 100, 108, 101, 0]

  const KNOWN_TAGS := "TFNIihtfdsSkb"

  function Tag(a: Arg): Byte
    requires a.Text? ==> a.kind in "sSk"
  {
    match a
    case True => 'T' as int
    case False => 'F' as int
    case Nil => 'N' as int
    case Infinitum => 'I' as int
    case I32(_) => 'i' as int
    case I64(_) => 'h' as int
    case Timetag(_) => 't' as int
    case F32(_) => 'f' as int
    case F64(_) => 'd' as int
    case Text(k, _) => k as int
    case Blob(_) => 'b' as int
    case Unknown(b) => b
  }

  /** A C string: no NUL inside. */
  predicate CString(s: seq<Byte>) {
    0 !in s
  }

  predicate ValidArg(a: Arg) {
    match a
    case Text(k, s) => k in "sSk" && CString(s)
    case Blob(d) => |d| < TWO_31
    case Unknown(b) => b != 0 && forall c | c in KNOWN_TAGS :: b != c as int
    case _ => true
  }

  predicate ValidArgs(args: seq<Arg>) {
    forall a | a in args :: ValidArg(a)
  }

  function Tags(args: seq<Arg>): (s: seq<Byte>)
    requires ValidArgs(args)
    ensures |s| == |args| && CString(s)
  {
    if args == [] then [] else
      assert ValidArg(args[0]);
      [Tag(args[0])] + Tags(args[1..])
  }

  // ---------- Alignment ----------

  /** ROUND32. */
  function Round4(n: nat): (r: nat)
    ensures n <= r < n + 4
  {
    (n + 3) / 4 * 4
  }

  lemma Round4Whole(n: nat)
    ensures Round4(n) % 4 == 0 && (n % 4 == 0 ==> Round4(n) == n)
  {
  }

  function Zeros(n: nat): (z: seq<Byte>)
    ensures |z| == n && forall k | 0 <= k < n :: z[k] == 0
  {
    seq(n, _ => 0)
  }

  /** Followed by zeros up to a multiple of four bytes. */
  function Aligned(b: seq<Byte>): (r: seq<Byte>)
    ensures |r| == Round4(|b|) && r[..|b|] == b
  {
    b + Zeros(Round4(|b|) - |b|)
  }

  // ---------- Encoding ----------

  function EncString(s: seq<Byte>): (r: seq<Byte>)
    ensures |r| == Round4(|s| + 1)
  {
    Aligned(s + [0])
  }

  function EncBlob(d: seq<Byte>): (r: seq<Byte>)
    ensures |r| == 4 + Round4(|d|)
  {
    BigEndian(|d|, 4) + Aligned(d)
  }

  function EncArg(a: Arg): seq<Byte> {
    match a
    case I32(i) => BigEndian(Unsigned32(i), 4)
    case I64(h) => BigEndian(Unsigned64(h), 8)
    case Timetag(t) => BigEndian(t, 8)
    case F32(f) => BigEndian(f, 4)
    case F64(d) => BigEndian(d, 8)
    case Text(_, s) => EncString(s)
    case Blob(d) => EncBlob(d)
    case _ => []
  }

  function EncArgs(args: seq<Arg>): seq<Byte> {
    if args == [] then [] else EncArg(args[0]) + EncArgs(args[1..])
  }

  function EncHead(address: seq<Byte>, tags: seq<Byte>): (r: seq<Byte>)
    ensures |r| == Round4(|address| + 1) + Round4(|tags| + 2)
  {
    EncString(address) + EncString([COMMA] + tags)
  }

  function EncMessage(m: Message): seq<Byte>
    requires ValidArgs(m.args)
  {
    EncHead(m.address, Tags(m.args)) + EncArgs(m.args)
  }

  ghost predicate ValidMessage(m: Message) {
    CString(m.address) && ValidArgs(m.args) && (forall a | a in m.args :: !a.Unknown?) && |EncMessage(m)| < TWO_31
  }

  /** What follows the address cannot be taken for a type tag string. */
  predicate ValidUntagged(address: seq<Byte>, data: seq<Byte>) {
    && CString(address) && |data| % 4 == 0 && (data != [] ==> data[0] != COMMA)
    && |EncString(address) + data| < TWO_31
  }

  /** A packet that can be told apart from a bundle by its first byte, with sizes that fit. */
  ghost predicate ValidPacket(p: Packet)
    decreases p, 0
  {
    match p
    case Msg(m) => ValidMessage(m) && (m.address != [] ==> m.address[0] != HASH)
    case Untagged(a, d) => ValidUntagged(a, d) && (a != [] ==> a[0] != HASH)
    case Bundle(_, es) => ValidElements(es) && 16 + |EncElements(es)| < TWO_31
  }

  ghost predicate ValidElements(es: seq<Packet>)
    decreases es, 0
  {
    es != [] ==> ValidPacket(es[0]) && ValidElements(es[1..])
  }

  ghost function EncPacket(p: Packet): seq<Byte>
    requires ValidPacket(p)
    decreases p, 1
  {
    match p
    case Msg(m) => EncMessage(m)
    case Untagged(a, d) => EncString(a) + d
    case Bundle(t, es) => BUNDLE_TAG + BigEndian(t, 8) + EncElements(es)
  }

  ghost function EncElements(es: seq<Packet>): seq<Byte>
    requires ValidElements(es)
    decreases es, 1
  {
    if es == [] then []
    else BigEndian(|EncPacket(es[0])|, 4) + EncPacket(es[0]) + EncElements(es[1..])
  }

  lemma WholeWords(a: nat, b: nat)
    requires a % 4 == 0 && b % 4 == 0
    ensures (a + b) % 4 == 0
  {
  }

  lemma EncArgAligned(a: Arg)
    ensures |EncArg(a)| % 4 == 0
  {
    hide Round4;
    if a.Text? {
      Round4Whole(|a.s| + 1);
    } else if a.Blob? {
      Round4Whole(|a.data|);
    }
  }

  lemma {:induction false} EncArgsAligned(args: seq<Arg>)
    ensures |EncArgs(args)| % 4 == 0
  {
    if args != [] {
      EncArgAligned(args[0]);
      EncArgsAligned(args[1..]);
      WholeWords(|EncArg(args[0])|, |EncArgs(args[1..])|);
    }
  }

  lemma EncMessageSize(m: Message)
    requires ValidArgs(m.args)
    ensures |EncMessage(m)| % 4 == 0 && |EncMessage(m)| >= 8
  {
    hide EncHead, EncArgs, Round4, Tags;
    var a, b := |m.address| + 1, |Tags(m.args)| + 2;
    Round4Whole(a);
    Round4Whole(b);
    EncArgsAligned(m.args);
    WholeWords(Round4(a), Round4(b));
    WholeWords(Round4(a) + Round4(b), |EncArgs(m.args)|);
  }

  /** Packets come in whole words, and fit their size fields. */
  lemma {:induction false} EncPacketSize(p: Packet)
    requires ValidPacket(p)
    ensures |EncPacket(p)| % 4 == 0 && 4 <= |EncPacket(p)| < TWO_31
    decreases p, 0
  {
    match p
    case Msg(m) => EncMessageSize(m);
    case Untagged(a, d) =>
      Round4Whole(|a| + 1);
      WholeWords(Round4(|a| + 1), |d|);
    case Bundle(t, es) =>
      EncElementsAligned(es);
      WholeWords(16, |EncElements(es)|);
  }

  lemma {:induction false} EncElementsAligned(es: seq<Packet>)
    requires ValidElements(es)
    ensures |EncElements(es)| % 4 == 0
    decreases es, 0
  {
    if es != [] {
      EncPacketSize(es[0]);
      EncElementsAligned(es[1..]);
      WholeWords(4, |EncPacket(es[0])|);
      WholeWords(4 + |EncPacket(es[0])|, |EncElements(es[1..])|);
    }
  }

  /** Messages as the elements of a bundle. */
  function AsPackets(ms: seq<Message>): seq<Packet> {
    if ms == [] then [] else [Msg(ms[0])] + AsPackets(ms[1..])
  }

  lemma {:induction false} AsPacketsAppended(ms: seq<Message>, m: Message)
    ensures AsPackets(ms + [m]) == AsPackets(ms) + [Msg(m)]
  {
    if ms == [] {
      assert AsPackets([m]) == [Msg(m)];
    } else {
      AsPacketsAppended(ms[1..], m);
      assert (ms + [m])[1..] == ms[1..] + [m];
    }
  }

  lemma {:induction false} EncElementsConcat(a: seq<Packet>, b: seq<Packet>)
    requires ValidElements(a) && ValidElements(b)
    ensures ValidElements(a + b) && EncElements(a + b) == EncElements(a) + EncElements(b)
    decreases |a|
  {
    hide EncPacket, ValidPacket, BigEndian;
    if a == [] {
      assert a + b == b;
    } else {
      EncElementsConcat(a[1..], b);
      assert (a + b)[1..] == a[1..] + b;
    }
  }
}
