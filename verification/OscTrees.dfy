/** The tree of messages that a caller recovers from the walk of test/udp_dump.c on an encoded
    packet. */
module OscTrees {
  import opened Options
  import opened Bytes
  import opened OscEncoding
  import opened OscReader
  import opened OscRecord
  import opened OscWalk
  import opened OscRoundTrip

  /** A packet without its timetags. */
  datatype Tree = Leaf(m: Message) | Plain(address: seq<Byte>, data: seq<Byte>) | Branch(children: seq<Tree>)

  function TreeOf(p: Packet): Tree
    decreases p, 1
  {
    match p
    case Msg(m) => Leaf(m)
    case Untagged(a, d) => Plain(a, d)
    case Bundle(_, es) => Branch(TreesOf(es))
  }

  function TreesOf(es: seq<Packet>): seq<Tree>
    decreases es, 0
  {
    if es == [] then [] else [TreeOf(es[0])] + TreesOf(es[1..])
  }

  /** How a caller gets at the arguments of a message that the walk has found: through the
      record, as the program does, or with the getter that each tag calls for. */
  datatype Way = ByRecord | ByGetters

  /** What follows the address of a message without type tags. */
  function DataAt(mem: seq<Byte>, n: Node): Option<seq<Byte>> {
    if !Guarded(mem) || n.start + n.len >= |mem| || InitMessage(mem, n.start, n.len).None? then None
    else
      var c := InitMessage(mem, n.start, n.len).value;
      if c.argPtr.None? then Some([])
      else if 0 <= c.argPtr.value <= c.msgEnd < |mem| then Some(mem[c.argPtr.value..c.msgEnd])
      else None
  }

  function ArgsAt(mem: seq<Byte>, n: Node, way: Way): Option<seq<Arg>>
    requires n.MsgNode?
  {
    if way.ByRecord? then
      if n.args.None? then None else ReportedAll(mem, n.args.value)
    else if !Guarded(mem) || n.start + n.len >= |mem| || InitMessage(mem, n.start, n.len).None? then None
    else
      var c := InitMessage(mem, n.start, n.len).value;
      if Typed(mem, c) then Some(ReadArgs(mem, c).args) else None
  }

  /** The tree that a walk recovers, if nothing in it was unreadable. */
  function Recovered(mem: seq<Byte>, n: Node, way: Way): Option<Tree>
    decreases n, 1
  {
    match n
    case MsgNode(_, _, address, None) =>
      var data := DataAt(mem, n);
      if data.None? then None else Some(Plain(address, data.value))
    case MsgNode(_, _, address, Some(_)) =>
      var args := ArgsAt(mem, n, way);
      if args.None? then None else Some(Leaf(Message(address, args.value)))
    case BundleNode(_, _, cs, ended) =>
      var ts := RecoveredAll(mem, cs, way);
      if ts.None? || !ended then None else Some(Branch(ts.value))
    case Bad(_, _) => None
  }

  function RecoveredAll(mem: seq<Byte>, cs: seq<Node>, way: Way): Option<seq<Tree>>
    decreases cs, 0
  {
    if cs == [] then Some([])
    else
      var t, ts := Recovered(mem, cs[0], way), RecoveredAll(mem, cs[1..], way);
      if t.None? || ts.None? then None else Some([t.value] + ts.value)
  }

  predicate NoEmptyBundle(p: Packet)
    decreases p, 1
  {
    p.Bundle? ==> p.elements != [] && NoEmptyBundles(p.elements)
  }

  predicate NoEmptyBundles(es: seq<Packet>)
    decreases es, 0
  {
    es != [] ==> NoEmptyBundle(es[0]) && NoEmptyBundles(es[1..])
  }

  /** Every blob of a packet at start is, by chance, as long as its pointer makes it look. */
  ghost predicate KeepsLengths(host: Machine, p: Packet, start: nat)
    requires ValidPacket(p)
    decreases p, 1
  {
    match p
    case Msg(m) => LengthsSurvive(host, m.args, ArgStart(m, start))
    case Untagged(_, _) => true
    case Bundle(_, es) => AllKeepLengths(host, es, start + 16)
  }

  ghost predicate AllKeepLengths(host: Machine, es: seq<Packet>, from: nat)
    requires ValidElements(es)
    decreases es, 0
  {
    es != [] ==>
      KeepsLengths(host, es[0], from + 4) && AllKeepLengths(host, es[1..], from + 4 + |EncPacket(es[0])|)
  }

  lemma MessageRecovered(host: Machine, mem: seq<Byte>, start: nat, m: Message, way: Way)
    requires ValidMessage(m) && start + |EncMessage(m)| < TWO_31
    requires BytesAre(mem, start, start + |EncMessage(m)|, EncMessage(m))
    ensures Recovered(mem, MessageNode(host, m, start), way) == Some(Leaf(m)) <==>
            way.ByGetters? || LengthsSurvive(host, m.args, ArgStart(m, start))
  {
    hide EncMessage, EncArgs, ShownArgs, ReadArgs, InitMessage, LengthsSurvive, ReportedAll, BytesAre, ArgStart;
    var end := start + |EncMessage(m)|;
    if way.ByGetters? {
      MessageFound(host, mem, start, m);
    } else {
      PartsBack(mem, start, end, m);
      ArgsReportedIff(host, mem, ArgStart(m, start), end, m.args);
    }
  }

  lemma UntaggedRecovered(mem: seq<Byte>, start: nat, address: seq<Byte>, data: seq<Byte>, way: Way)
    requires ValidUntagged(address, data)
    requires var b := EncString(address) + data; BytesAre(mem, start, start + |b|, b)
    ensures Recovered(mem, UntaggedNode(address, data, start), way) == Some(Plain(address, data))
  {
    hide EncString, InitMessage, Strlen;
    var end := start + |EncString(address) + data|;
    UntaggedBack(mem, start, end, address, data);
    if data != [] {
      BytesAreSlice(mem, start + |EncString(address)|, end, data);
    }
  }

  lemma {:induction false} PacketRecovered(host: Machine, mem: seq<Byte>, start: nat, p: Packet, way: Way)
    requires ValidPacket(p) && start + |EncPacket(p)| < TWO_31
    requires BytesAre(mem, start, start + |EncPacket(p)|, EncPacket(p))
    ensures Recovered(mem, Image(host, p, start), way) == Some(TreeOf(p)) <==>
            NoEmptyBundle(p) && (way.ByGetters? || KeepsLengths(host, p, start))
    decreases p, 1
  {
    hide EncMessage, EncString, BytesAre, LengthsSurvive, MessageNode, UntaggedNode, ValidUntagged;
    match p
    case Msg(m) => MessageRecovered(host, mem, start, m, way);
    case Untagged(a, d) => UntaggedRecovered(mem, start, a, d, way);
    case Bundle(t, es) =>
      var end := start + |EncPacket(p)|;
      BytesAreParts(mem, start, end, BUNDLE_TAG + BigEndian(t, 8), EncElements(es));
      if es != [] {
        ElementsRecovered(host, mem, start + 16, end, es, way);
      }
  }

  lemma {:induction false} ElementsRecovered(host: Machine, mem: seq<Byte>, from: nat, end: nat,
                                             es: seq<Packet>, way: Way)
    requires ValidElements(es) && end < TWO_31 && BytesAre(mem, from, end, EncElements(es))
    ensures RecoveredAll(mem, Images(host, es, from), way) == Some(TreesOf(es)) <==>
            NoEmptyBundles(es) && (way.ByGetters? || AllKeepLengths(host, es, from))
    decreases es, 0
  {
    hide EncPacket, EncElements, ValidPacket, BytesAre, Image, Images, NextElement, Recovered, TreeOf;
    if es == [] {
      NoImages(host, from);
    } else {
      ImagesCons(host, es, from);
      var next := from + 4 + |EncPacket(es[0])|;
      NextBackElement(mem, from, end, es[0], EncElements(es[1..]));
      PacketRecovered(host, mem, from + 4, es[0], way);
      ElementsRecovered(host, mem, next, end, es[1..], way);
      HeadAndTail(TreesOf(es));
      assert Images(host, es, from)[1..] == Images(host, es[1..], next);
    }
  }

  lemma NoImages(host: Machine, from: nat)
    ensures Images(host, [], from) == []
  {
  }

  /** The walk on the encoding of packet trees of any depth, with tagged and untagged messages.
      With typed getters it recovers the
      same tree of messages exactly if no bundle in it is empty. Through the record, as the
      program reads, it does so exactly if, moreover, every blob is as long as the pointer to
      its data makes it look. */
  lemma WalkInvertsEncoding(host: Machine, mem: seq<Byte>, start: nat, p: Packet, way: Way)
    requires ValidPacket(p) && start + |EncPacket(p)| < TWO_31
    requires BytesAre(mem, start, start + |EncPacket(p)|, EncPacket(p))
    ensures Recovered(mem, WalkPacket(host, mem, start, |EncPacket(p)|), way) == Some(TreeOf(p)) <==>
            NoEmptyBundle(p) && (way.ByGetters? || KeepsLengths(host, p, start))
  {
    WalkBack(host, mem, start, p);
    PacketRecovered(host, mem, start, p, way);
  }
}
