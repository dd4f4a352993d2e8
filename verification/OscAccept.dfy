/** Exactly which bytes the reader of src/read.c and the walk of test/udp_dump.c accept. */
module OscAccept {
  import opened Options
  import opened Bytes
  import opened OscEncoding
  import opened OscReader
  import opened OscRecord
  import opened OscWalk

  /** The address does not fit, or what follows it begins with a comma and does not fit. */
  predicate Refused(mem: seq<Byte>, start: nat, len: nat)
    requires Guarded(mem) && start + len < |mem|
  {
    var a := Round4(Strlen(mem, start) + 1);
    a > len || (a < len && mem[start + a] == ',' as int && a + Round4(Strlen(mem, start + a) + 1) > len)
  }

  /** Init refuses exactly these messages. Of the others, it finds type tags exactly in those
      whose padded address is followed by a comma, and arguments exactly in those whose padded
      address is followed by anything. */
  lemma InitRefusesIff(mem: seq<Byte>, start: nat, len: nat)
    requires Guarded(mem) && start + len < |mem|
    ensures var r, a := InitMessage(mem, start, len), Round4(Strlen(mem, start) + 1);
            && (r.None? <==> Refused(mem, start, len))
            && (r.Some? ==>
                  && r.value.msgPtr == start && r.value.msgEnd == start + len && a <= len
                  && (r.value.typePtr.Some? <==> a < len && mem[start + a] == ',' as int)
                  && (r.value.argPtr.Some? <==> a < len))
  {
    hide Strlen, Round4;
  }

  /** A packet is a bundle or a message exactly if its length is a positive multiple of 4. */
  lemma PacketTypeIff(mem: seq<Byte>, start: nat, len: int)
    requires len >= 4 ==> start < |mem|
    ensures PacketType(mem, start, len) > OSC_OK <==> len > 0 && len % 4 == 0
    ensures PacketType(mem, start, len) == OSC_ERROR <==> !(len > 0 && len % 4 == 0)
    ensures len > 0 && len % 4 == 0 ==>
              PacketType(mem, start, len) == if mem[start] == '#' as int then OSC_BUNDLE else OSC_MESSAGE
  {
  }

  /** The size field at p. */
  function SizeAt(mem: seq<Byte>, p: nat): int
    requires p + 4 <= |mem|
  {
    Signed32(WordAt(mem, p))
  }

  /** An element can lie at p: its size is a positive multiple of 4 and stays inside. */
  predicate ElementFits(mem: seq<Byte>, p: nat, end: nat)
    requires p + 4 <= |mem|
  {
    SizeAt(mem, p) > 0 && SizeAt(mem, p) % 4 == 0 && p + 4 + SizeAt(mem, p) <= end
  }

  /** osc_bundle_reader_next answers OSC_END exactly at the end, a positive code exactly if an
      element can lie there, and OSC_ERROR otherwise. */
  lemma ElementCodeIff(mem: seq<Byte>, p: nat, end: nat)
    requires end <= |mem| && (p == end || p + 4 <= end)
    ensures var e := NextElement(mem, p, end);
            && (e.code == OSC_END <==> p == end)
            && (p != end ==> (e.code > OSC_OK <==> ElementFits(mem, p, end)))
            && (p != end ==> (e.code == OSC_ERROR <==> !ElementFits(mem, p, end)))
            && (e.code > OSC_OK ==> e.start == p + 4 && e.len == SizeAt(mem, p))
            && (e.code > OSC_OK ==> e.code == if mem[p + 4] == '#' as int then OSC_BUNDLE else OSC_MESSAGE)
  {
    hide WordAt;
    if p != end && p + 4 + SizeAt(mem, p) <= end {
      PacketTypeIff(mem, p + 4, SizeAt(mem, p));
    }
  }

  /** From p to the end, elements of these sizes lie one behind the other, and every one of them
      that is a message can be opened. */
  predicate Chain(mem: seq<Byte>, p: nat, end: nat, sizes: seq<nat>)
    requires Guarded(mem) && end < |mem|
    decreases |sizes|
  {
    if sizes == [] then p == end
    else
      && p + 4 <= end && SizeAt(mem, p) == sizes[0] && ElementFits(mem, p, end)
      && (mem[p + 4] != '#' as int ==> !Refused(mem, p + 4, sizes[0]))
      && Chain(mem, p + 4 + sizes[0], end, sizes[1..])
  }

  /** The lengths of the elements that the walk got to. */
  function Lengths(cs: seq<Node>): seq<nat> {
    if cs == [] then [] else [cs[0].len] + Lengths(cs[1..])
  }

  lemma DumpReadsIff(host: Machine, mem: seq<Byte>, start: nat, len: nat)
    requires Guarded(mem) && start + len < |mem|
    ensures DumpMessage(host, mem, start, len).Bad? <==> Refused(mem, start, len)
  {
    InitRefusesIff(mem, start, len);
    hide Refused, InitMessage, ShowArgs;
  }

  /** The walk reads a packet exactly if its length is a positive multiple of 4 and it is a bundle
      of at least 20 bytes or a message that init does not refuse. */
  lemma PacketReadIff(host: Machine, mem: seq<Byte>, start: nat, len: nat)
    requires Guarded(mem) && start + len < |mem|
    ensures !WalkPacket(host, mem, start, len).Bad? <==>
            && len > 0 && len % 4 == 0
            && if mem[start] == '#' as int then len >= 20 else !Refused(mem, start, len)
  {
    hide DumpMessage, Refused;
    PacketTypeIff(mem, start, len);
    DumpReadsIff(host, mem, start, len);
  }

  /** On arbitrary bytes the walk of a bundle gets to OSC_END exactly if elements that fit fill it
      and each message among them can be opened; an inner bundle that cannot be read does not
      end the walk. The elements it has found are then those. */
  lemma {:induction false} WalkEndsIff(host: Machine, mem: seq<Byte>, p: nat, end: nat)
    requires Guarded(mem) && p <= end < |mem| && (end - p) % 4 == 0
    ensures var (cs, ended) := WalkElements(host, mem, p, end);
            && (ended <==> exists sizes: seq<nat> :: Chain(mem, p, end, sizes))
            && (ended ==> Chain(mem, p, end, Lengths(cs)))
    decreases end - p
  {
    hide WalkElements, NextElement, Visit, Refused, SizeAt;
    NextElementInside(mem, p, end);
    ElementCodeIff(mem, p, end);
    var e := NextElement(mem, p, end);
    var cs, ended := WalkElements(host, mem, p, end).0, WalkElements(host, mem, p, end).1;
    if e.code <= OSC_OK {
      ElementsStop(host, mem, p, end);
      NoElementHere(mem, p, end);
    } else {
      var n, rest := OneElement(host, mem, p, end);
      VisitStops(host, mem, e);
      var next := e.start + e.len;
      if Stops(e, n) {
        StoppedHere(mem, p, end);
      } else {
        WalkEndsIff(host, mem, next, end);
        LengthsCons(n, rest.0);
        if ended {
          ChainHead(mem, p, end, e.len, Lengths(rest.0));
        }
        if sizes: seq<nat> :| Chain(mem, p, end, sizes) {
          ChainTail(mem, p, end, sizes);
        }
      }
    }
  }

  lemma LengthsCons(n: Node, rest: seq<Node>)
    ensures Lengths([n] + rest) == [n.len] + Lengths(rest)
  {
    assert ([n] + rest)[1..] == rest;
  }

  lemma VisitStops(host: Machine, mem: seq<Byte>, e: Element)
    requires Guarded(mem) && 0 <= e.start && 0 <= e.len && e.start + e.len < |mem|
    ensures Stops(e, Visit(host, mem, e)) <==> e.code == OSC_MESSAGE && Refused(mem, e.start, e.len)
  {
    hide DumpMessage, WalkPacket, Refused;
    DumpReadsIff(host, mem, e.start, e.len);
  }

  /** Where no element fits, only the empty chain can begin. */
  lemma NoElementHere(mem: seq<Byte>, p: nat, end: nat)
    requires Guarded(mem) && p <= end < |mem| && (p == end || p + 4 <= end)
    requires p == end || !ElementFits(mem, p, end)
    ensures (exists sizes: seq<nat> :: Chain(mem, p, end, sizes)) <==> p == end
    ensures p == end ==> Chain(mem, p, end, [])
  {
    hide ElementFits, SizeAt, Refused;
    assert p == end ==> Chain(mem, p, end, []);
  }

  lemma StoppedHere(mem: seq<Byte>, p: nat, end: nat)
    requires Guarded(mem) && p + 4 <= end < |mem| && ElementFits(mem, p, end)
    requires mem[p + 4] != '#' as int && Refused(mem, p + 4, SizeAt(mem, p))
    ensures !exists sizes: seq<nat> :: Chain(mem, p, end, sizes)
  {
    hide Refused, SizeAt;
  }

  lemma ChainHead(mem: seq<Byte>, p: nat, end: nat, size: nat, sizes: seq<nat>)
    requires Guarded(mem) && p + 4 <= end < |mem| && ElementFits(mem, p, end) && SizeAt(mem, p) == size
    requires mem[p + 4] != '#' as int ==> !Refused(mem, p + 4, size)
    requires Chain(mem, p + 4 + size, end, sizes)
    ensures Chain(mem, p, end, [size] + sizes)
  {
    hide Refused, SizeAt;
    assert ([size] + sizes)[1..] == sizes;
  }

  lemma ChainTail(mem: seq<Byte>, p: nat, end: nat, sizes: seq<nat>)
    requires Guarded(mem) && p + 4 <= end < |mem| && Chain(mem, p, end, sizes)
    ensures sizes != [] && SizeAt(mem, p) == sizes[0] && Chain(mem, p + 4 + sizes[0], end, sizes[1..])
  {
    hide Refused, SizeAt;
  }
}
