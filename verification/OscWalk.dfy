/** The recursive walk of test/udp_dump.c:47-120, collecting what it would print, and its
    safety on arbitrary bytes. */
module OscWalk {
  import opened Options
  import opened Bytes
  import opened OscEncoding
  import opened OscReader
  import opened OscRecord

  /** What the walk finds at a place: a message with what the record showed of each argument
      (None without type tags), a bundle with the elements it got to and whether it got to
      OSC_END, or nothing it can read. */
  datatype Node =
    | MsgNode(start: nat, len: nat, address: seq<Byte>, args: Option<seq<Seen>>)
    | BundleNode(start: nat, len: nat, children: seq<Node>, ended: bool)
    | Bad(start: nat, len: nat)

  // ---------- Messages ----------

  /** The loop of dump_osc_message, which reads through the record: what it shows of each
      argument. The program prints a value, or the length of a blob. */
  function ShowArgs(host: Machine, mem: seq<Byte>, c: Cursor): seq<Seen>
    requires Typed(mem, c)
    decreases |mem| - c.typePtr.value
  {
    GetArgMoves(mem, c);
    var g := GetArg(mem, c);
    if g.code != OSC_OK then []
    else
      [Found(host, g.value.value, c.argPtr.value)] + if Typed(mem, g.c) then ShowArgs(host, mem, g.c) else []
  }

  lemma InitIsReadable(mem: seq<Byte>, start: nat, len: nat)
    requires Guarded(mem) && start + len < |mem| && InitMessage(mem, start, len).Some?
    ensures var c := InitMessage(mem, start, len).value; Readable(mem, c) && (c.typePtr.Some? ==> Typed(mem, c))
  {
  }

  function DumpMessage(host: Machine, mem: seq<Byte>, start: nat, len: nat): (n: Node)
    requires Guarded(mem) && start + len < |mem|
    ensures n.start == start && n.len == len && !n.BundleNode?
  {
    match InitMessage(mem, start, len)
    case None => Bad(start, len)
    case Some(c) =>
      InitIsReadable(mem, start, len);
      MsgNode(start, len, mem[start..start + Strlen(mem, start)],
              if c.typePtr.Some? then Some(ShowArgs(host, mem, c)) else None)
  }

  // ---------- Packets ----------

  lemma NextElementInside(mem: seq<Byte>, p: nat, end: nat)
    requires end <= |mem| && p <= end && (end - p) % 4 == 0
    ensures p == end || p + 4 <= end
    ensures var e := NextElement(mem, p, end);
            e.code > OSC_OK ==>
              e.start == p + 4 && e.len >= 4 && e.start + e.len <= end && (end - (e.start + e.len)) % 4 == 0
  {
  }

  function WalkPacket(host: Machine, mem: seq<Byte>, start: nat, len: nat): (n: Node)
    requires Guarded(mem) && start + len < |mem|
    ensures n.start == start && n.len == len
    decreases len, 1
  {
    var t := PacketType(mem, start, len);
    if t == OSC_MESSAGE then DumpMessage(host, mem, start, len)
    else if t == OSC_BUNDLE && len >= 20 then
      var (children, ended) := WalkElements(host, mem, start + 16, start + len);
      BundleNode(start, len, children, ended)
    else Bad(start, len)
  }

  function WalkElements(host: Machine, mem: seq<Byte>, p: nat, end: nat): (seq<Node>, bool)
    requires Guarded(mem) && p <= end < |mem| && (end - p) % 4 == 0
    decreases end - p, 0
  {
    NextElementInside(mem, p, end);
    var e := NextElement(mem, p, end);
    if e.code <= OSC_OK then ([], e.code == OSC_END)
    else
      var n := if e.code == OSC_MESSAGE then DumpMessage(host, mem, e.start, e.len)
               else WalkPacket(host, mem, e.start, e.len);
      if e.code == OSC_MESSAGE && n.Bad? then ([], false)
      else
        var (rest, ended) := WalkElements(host, mem, e.start + e.len, end);
        ([n] + rest, ended)
  }

  /** What the loop does with an element. */
  function Visit(host: Machine, mem: seq<Byte>, e: Element): (n: Node)
    requires Guarded(mem) && 0 <= e.start && 0 <= e.len && e.start + e.len < |mem|
  {
    if e.code == OSC_MESSAGE then DumpMessage(host, mem, e.start, e.len) else WalkPacket(host, mem, e.start, e.len)
  }

  predicate Stops(e: Element, n: Node) {
    e.code == OSC_MESSAGE && n.Bad?
  }

  lemma ElementsStop(host: Machine, mem: seq<Byte>, p: nat, end: nat)
    requires Guarded(mem) && p <= end < |mem| && (end - p) % 4 == 0 && (p == end || p + 4 <= end)
    requires NextElement(mem, p, end).code <= OSC_OK
    ensures WalkElements(host, mem, p, end) == ([], NextElement(mem, p, end).code == OSC_END)
  {
  }

  /** One turn of the loop over elements. */
  lemma OneElement(host: Machine, mem: seq<Byte>, p: nat, end: nat) returns (n: Node, rest: (seq<Node>, bool))
    requires Guarded(mem) && p <= end < |mem| && (end - p) % 4 == 0
    requires (p == end || p + 4 <= end) && NextElement(mem, p, end).code > OSC_OK
    ensures var e := NextElement(mem, p, end);
            && e.start == p + 4 && e.len >= 4 && e.start + e.len <= end && (end - (e.start + e.len)) % 4 == 0
            && n == Visit(host, mem, e) && n.start == e.start && n.len == e.len
            && (Stops(e, n) ==> WalkElements(host, mem, p, end) == ([], false))
            && (!Stops(e, n) ==> WalkElements(host, mem, p, end) == ([n] + rest.0, rest.1))
            && rest == WalkElements(host, mem, e.start + e.len, end)
  {
    NextElementInside(mem, p, end);
    var e := NextElement(mem, p, end);
    n := Visit(host, mem, e);
    rest := WalkElements(host, mem, e.start + e.len, end);
  }

  // ---------- The walk as the program does it ----------

  method CollectMessage(host: Machine, reader: MsgReader) returns (n: Node)
    requires Readable(reader.mem, reader.Pos()) && (reader.typePtr.Some? ==> Typed(reader.mem, reader.Pos()))
    requires Guarded(reader.mem) && reader.msgPtr <= reader.msgEnd < |reader.mem|
    requires reader.h == host.h && Fits(host, reader.mem)
    modifies reader
    ensures var mem, c := reader.mem, old(reader.Pos());
            n == MsgNode(c.msgPtr, c.msgEnd - c.msgPtr, mem[c.msgPtr..c.msgPtr + Strlen(mem, c.msgPtr)],
                         if c.typePtr.Some? then Some(ShowArgs(host, mem, c)) else None)
  {
    var mem, start, len := reader.mem, reader.msgPtr, reader.msgEnd - reader.msgPtr;
    var n0 := ReadStrlen(mem, start);
    var address := mem[start..start + n0];
    if reader.typePtr.None? {
      return MsgNode(start, len, address, None);
    }
    var args := CollectArgs(host, reader);
    n := MsgNode(start, len, address, Some(args));
  }

  /** The loop of dump_osc_message over one osc_arg_t, with the switch that prints it. */
  method CollectArgs(host: Machine, reader: MsgReader) returns (args: seq<Seen>)
    requires Typed(reader.mem, reader.Pos()) && reader.h == host.h && Fits(host, reader.mem)
    modifies reader
    ensures args == ShowArgs(host, reader.mem, old(reader.Pos()))
  {
    hide GetArg, View, Found, Fits, ShowArgs;
    args := [];
    var arg := new ArgRecord(host);
    var mem := reader.mem;
    ghost var all, todo := ShowArgs(host, mem, reader.Pos()), ShowArgs(host, mem, reader.Pos());
    while true
      invariant Typed(mem, reader.Pos()) && arg.host == host && arg.val.Length == 8
      invariant todo == ShowArgs(host, mem, reader.Pos()) && args + todo == all
      decreases |mem| - reader.typePtr.value
    {
      ghost var before := reader.Pos();
      GetArgMoves(mem, before);
      ArgsEnd(host, mem, before);
      var code := arg.Get(reader);
      if code != OSC_OK {
        return;
      }
      todo := OneMoreArg(host, mem, before);
      var seen := View(host, mem, arg.tag, arg.val[..]).value;
      Shift(args, seen, todo);
      args := args + [seen];
      if reader.argPtr.value < 0 || reader.argPtr.value > reader.msgEnd {
        return;
      }
    }
  }

  lemma Shift<T>(done: seq<T>, x: T, rest: seq<T>)
    ensures done + ([x] + rest) == (done + [x]) + rest && (done + [x]) + [] == done + [x]
  {
  }

  lemma ArgsEnd(host: Machine, mem: seq<Byte>, c: Cursor)
    requires Typed(mem, c)
    ensures GetArg(mem, c).code != OSC_OK ==> ShowArgs(host, mem, c) == []
  {
  }

  lemma OneMoreArg(host: Machine, mem: seq<Byte>, c: Cursor) returns (rest: seq<Seen>)
    requires Typed(mem, c) && GetArg(mem, c).code == OSC_OK
    ensures var g := GetArg(mem, c);
            && g.value.Some? && rest == (if Typed(mem, g.c) then ShowArgs(host, mem, g.c) else [])
            && ShowArgs(host, mem, c) == [Found(host, g.value.value, c.argPtr.value)] + rest
  {
    GetArgMoves(mem, c);
    var g := GetArg(mem, c);
    rest := if Typed(mem, g.c) then ShowArgs(host, mem, g.c) else [];
  }

  /** dump_osc_packet. Arguments are shown as the record holds them, so of a blob a part of the
      pointer to its data in the place of its length. */
  method Walk(host: Machine, mem: seq<Byte>, start: nat, len: nat) returns (n: Node)
    requires Guarded(mem) && start + len < |mem| && Fits(host, mem)
    ensures n == WalkPacket(host, mem, start, len)
    decreases len, 1
  {
    var t := PacketType(mem, start, len);
    if t == OSC_MESSAGE {
      n := WalkMessage(host, mem, start, len);
    } else if t == OSC_BUNDLE {
      var br := new BundleReader(host.h, mem);
      var code := br.Init(start, len);
      if code != OSC_OK {
        return Bad(start, len);
      }
      var children, ended := WalkBundle(host, br);
      n := BundleNode(start, len, children, ended);
    } else {
      n := Bad(start, len);
    }
  }

  method WalkMessage(host: Machine, mem: seq<Byte>, start: nat, len: nat) returns (n: Node)
    requires Guarded(mem) && start + len < |mem| && Fits(host, mem)
    ensures n == DumpMessage(host, mem, start, len)
  {
    var mr := new MsgReader(host.h, mem);
    var code := mr.Init(start, len);
    if code != OSC_OK {
      return Bad(start, len);
    }
    InitIsReadable(mem, start, len);
    n := CollectMessage(host, mr);
  }

  method WalkElement(host: Machine, mem: seq<Byte>, e: Element) returns (n: Node)
    requires Fits(host, mem) && Guarded(mem) && 0 <= e.start && 0 <= e.len && e.start + e.len < |mem|
    ensures n == Visit(host, mem, e)
    decreases e.len, 2
  {
    if e.code == OSC_MESSAGE {
      n := WalkMessage(host, mem, e.start, e.len);
    } else {
      n := Walk(host, mem, e.start, e.len);
    }
  }

  /** The loop over the elements of a bundle. */
  method WalkBundle(host: Machine, br: BundleReader) returns (children: seq<Node>, ended: bool)
    requires br.h == host.h && Fits(host, br.mem)
    requires Guarded(br.mem) && 0 <= br.msgPtr <= br.bundleEnd < |br.mem| && (br.bundleEnd - br.msgPtr) % 4 == 0
    modifies br
    ensures (children, ended) == WalkElements(host, br.mem, old(br.msgPtr), old(br.bundleEnd))
    decreases br.bundleEnd - br.msgPtr, 0
  {
    hide WalkElements, NextElement, Visit, Fits;
    children := [];
    var mem, end := br.mem, br.bundleEnd;
    ghost var first := br.msgPtr;
    ghost var all := WalkElements(host, mem, br.msgPtr, end);
    ghost var n', todo := Bad(0, 0), all;
    assert [] + todo.0 == all.0;
    while true
      invariant br.bundleEnd == end && first <= br.msgPtr <= end && (end - br.msgPtr) % 4 == 0
      invariant WalkElements(host, mem, br.msgPtr, end) == todo && all == (children + todo.0, todo.1)
      decreases end - br.msgPtr
    {
      NextElementInside(mem, br.msgPtr, end);
      ghost var p := br.msgPtr;
      var e := br.Next();
      if e.code <= OSC_OK {
        ElementsStop(host, mem, p, end);
        assert children + [] == children;
        return children, e.code == OSC_END;
      }
      n', todo := OneElement(host, mem, p, end);
      var n := WalkElement(host, mem, e);
      if e.code == OSC_MESSAGE && n.Bad? {
        assert children + [] == children;
        return children, false;
      }
      Shift(children, n, todo.0);
      children := children + [n];
      assert br.msgPtr == e.start + e.len;
    }
  }

  // ---------- Structure, on arbitrary bytes ----------

  /** The elements lie one behind the other between from and end, each behind its four-byte
      size field; if the reader saw the end, they fill the space. */
  predicate Tiles(cs: seq<Node>, from: nat, end: nat, ended: bool) {
    if cs == [] then from <= end && (ended ==> from == end)
    else cs[0].start == from + 4 && Tiles(cs[1..], cs[0].start + cs[0].len, end, ended)
  }

  predicate WellNested(n: Node)
    decreases n
  {
    n.BundleNode? ==>
      && n.len >= 20 && Tiles(n.children, n.start + 16, n.start + n.len, n.ended)
      && forall c | c in n.children :: WellNested(c)
  }

  /** How deep bundles are nested. */
  function Depth(n: Node): nat
    decreases n, 1
  {
    if n.BundleNode? then 1 + MaxDepth(n.children) else 0
  }

  function MaxDepth(cs: seq<Node>): nat
    decreases cs, 0
  {
    if cs == [] then 0
    else if Depth(cs[0]) > MaxDepth(cs[1..]) then Depth(cs[0]) else MaxDepth(cs[1..])
  }

  /** On any bytes: elements are contained in their parents, siblings are disjoint and
      increasing, and bundles nest at most length / 20 deep. */
  lemma {:induction false} WalkIsWellNested(host: Machine, mem: seq<Byte>, start: nat, len: nat)
    requires Guarded(mem) && start + len < |mem|
    ensures WellNested(WalkPacket(host, mem, start, len)) && 20 * Depth(WalkPacket(host, mem, start, len)) <= len
    decreases len, 1
  {
    if PacketType(mem, start, len) == OSC_BUNDLE && len >= 20 {
      ElementsAreWellNested(host, mem, start + 16, start + len);
    }
  }

  lemma {:induction false} ElementsAreWellNested(host: Machine, mem: seq<Byte>, p: nat, end: nat)
    requires Guarded(mem) && p <= end < |mem| && (end - p) % 4 == 0
    ensures var (cs, ended) := WalkElements(host, mem, p, end);
            && Tiles(cs, p, end, ended) && (forall c | c in cs :: WellNested(c))
            && (cs != [] ==> p + 4 + 20 * MaxDepth(cs) <= end)
    decreases end - p, 0
  {
    hide WalkElements, NextElement, WalkPacket, DumpMessage, WellNested, Depth;
    NextElementInside(mem, p, end);
    var e := NextElement(mem, p, end);
    if e.code <= OSC_OK {
      EndsAtEnd(mem, p, end);
      ElementsStop(host, mem, p, end);
    } else {
      var n, rest := OneElement(host, mem, p, end);
      if e.code == OSC_MESSAGE {
        LeafIsNested(n);
      } else {
        WalkIsWellNested(host, mem, e.start, e.len);
      }
      if !Stops(e, n) {
        ElementsAreWellNested(host, mem, e.start + e.len, end);
        NestedCons(n, rest.0, p, end, rest.1);
      }
    }
  }

  lemma LeafIsNested(n: Node)
    requires !n.BundleNode?
    ensures WellNested(n) && Depth(n) == 0
  {
  }

  lemma EndsAtEnd(mem: seq<Byte>, p: nat, end: nat)
    requires end <= |mem| && (p == end || p + 4 <= end)
    ensures NextElement(mem, p, end).code == OSC_END <==> p == end
  {
  }

  lemma NestedCons(n: Node, rest: seq<Node>, p: nat, end: nat, ended: bool)
    requires n.start == p + 4 && WellNested(n) && 20 * Depth(n) <= n.len && n.start + n.len <= end
    requires Tiles(rest, n.start + n.len, end, ended) && forall c | c in rest :: WellNested(c)
    requires rest != [] ==> n.start + n.len + 4 + 20 * MaxDepth(rest) <= end
    ensures Tiles([n] + rest, p, end, ended) && forall c | c in [n] + rest :: WellNested(c)
    ensures p + 4 + 20 * MaxDepth([n] + rest) <= end
  {
    assert ([n] + rest)[1..] == rest;
  }

  function SizeWithFields(cs: seq<Node>): nat {
    if cs == [] then 0 else 4 + cs[0].len + SizeWithFields(cs[1..])
  }

  /** Any two siblings: the later one begins behind the earlier one. */
  lemma {:induction false} TilesAreDisjoint(cs: seq<Node>, from: nat, end: nat, ended: bool, i: nat, j: nat)
    requires Tiles(cs, from, end, ended) && i < |cs| && j < |cs|
    ensures from + 4 <= cs[i].start && cs[i].start + cs[i].len <= end
    ensures i < j ==> cs[i].start + cs[i].len + 4 <= cs[j].start
    decreases |cs|
  {
    TilesInside(cs[1..], cs[0].start + cs[0].len, end, ended);
    if i > 0 && j > 0 {
      TilesAreDisjoint(cs[1..], cs[0].start + cs[0].len, end, ended, i - 1, j - 1);
    } else if i > 0 {
      TilesAreDisjoint(cs[1..], cs[0].start + cs[0].len, end, ended, i - 1, i - 1);
    } else if j > 0 {
      TilesAreDisjoint(cs[1..], cs[0].start + cs[0].len, end, ended, j - 1, j - 1);
    }
  }

  lemma {:induction false} TilesInside(cs: seq<Node>, from: nat, end: nat, ended: bool)
    requires Tiles(cs, from, end, ended)
    ensures from + SizeWithFields(cs) <= end && (ended ==> from + SizeWithFields(cs) == end)
    decreases |cs|
  {
    if cs != [] {
      TilesInside(cs[1..], cs[0].start + cs[0].len, end, ended);
    }
  }

  /** The main result on arbitrary bytes, for a bundle that the walk descends into. */
  lemma BundleLayout(host: Machine, mem: seq<Byte>, start: nat, len: nat)
    requires Guarded(mem) && start + len < |mem| && WalkPacket(host, mem, start, len).BundleNode?
    ensures var n := WalkPacket(host, mem, start, len);
            && 20 * Depth(n) <= len
            && (forall i | 0 <= i < |n.children| ::
                  start + 20 <= n.children[i].start && n.children[i].start + n.children[i].len <= start + len)
            && (forall i, j | 0 <= i < j < |n.children| ::
                  n.children[i].start + n.children[i].len + 4 <= n.children[j].start)
            && (n.ended ==> 16 + SizeWithFields(n.children) == len)
  {
    WalkIsWellNested(host, mem, start, len);
    var n := WalkPacket(host, mem, start, len);
    TilesInside(n.children, start + 16, start + len, n.ended);
    forall i, j | 0 <= i < |n.children| && 0 <= j < |n.children|
      ensures start + 20 <= n.children[i].start && n.children[i].start + n.children[i].len <= start + len
      ensures i < j ==> n.children[i].start + n.children[i].len + 4 <= n.children[j].start
    {
      TilesAreDisjoint(n.children, start + 16, start + len, n.ended, i, j);
    }
  }
}
