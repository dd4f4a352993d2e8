/** Writer and reader together: what ideas/osc.c leaves in a buffer, walked as in
    test/udp_dump.c. */
module OscEndToEnd {
  import opened Options
  import opened Bytes
  import opened OscEncoding
  import opened OscWriter
  import opened OscReader
  import opened OscRecord
  import opened OscWalk
  import opened OscRoundTrip

  /** A message that a caller may hand to the bundle writer and a reader takes for one. */
  predicate Sendable(m: Message) {
    CString(m.address) && ValidArgs(m.args) && (m.address != [] ==> m.address[0] != HASH)
  }

  /** The elements of a bundle with their size fields. */
  function ElementSizes(ms: seq<Message>): nat
    requires forall m | m in ms :: Sendable(m)
  {
    if ms == [] then 0 else
      assert Sendable(ms[0]);
      4 + |EncMessage(ms[0])| + ElementSizes(ms[1..])
  }

  /** osc_bundle_init, osc_bundle_start, an osc_bundle_write for each message, and, behind a
      closing NUL as in the receiver's buffer, the walk. Writing succeeds exactly if every
      format is legal and the bundle fits; then the walk finds exactly the messages written, in
      order, each at its place with its address, and typed getters read back its arguments up
      to the end of its element. */
  method SendAndWalk(host: Machine, buffer: array<Byte>, when: Word64, ms: seq<Message>)
     returns (ok: bool, mem: seq<Byte>, n: Node)
    requires buffer.Length < TWO_31 && forall m | m in ms :: Sendable(m)
    requires host.pointerSize == 4 || host.pointerSize == 8
    requires host.base + buffer.Length + 1 <= Range(host.pointerSize)
    modifies buffer
    ensures ok <==>
              && (forall m | m in ms :: ValidArgs(m.args) && LegalFormat(Tags(m.args)))
              && 16 + ElementSizes(ms) <= buffer.Length
    ensures ok ==> |mem| == 16 + ElementSizes(ms) + 1 && mem[..|mem| - 1] == buffer[..|mem| - 1]
    ensures ok && ms == [] ==> n.Bad?
    ensures ok && ms != [] ==>
              && n.BundleNode? && n.ended && n.len == 16 + ElementSizes(ms) && |n.children| == |ms|
              && forall i | 0 <= i < |ms| :: Sendable(ms[i]) && FoundAs(host, mem, n.children[i], ms[i])
  {
    hide EncMessage, LegalFormat, FoundAs, Sendable, AsPackets, WalkPacket, Range;
    hide EncPacket, ValidPacket, ValidElements;
    mem, n := [], Bad(0, 0);
    var w := new BundleWriter(host.h, buffer);
    ok := w.Start(when);
    if !ok {
      return;
    }
    var i := 0;
    assert ms[0..] == ms && ms[..0] == [];
    while i < |ms|
      invariant 0 <= i <= |ms| && w.buffer == buffer && w.HoldsBundle(when, ms[..i])
      invariant w.len + ElementSizes(ms[i..]) == 16 + ElementSizes(ms)
      invariant forall j | 0 <= j < i :: ValidArgs(ms[j].args) && LegalFormat(Tags(ms[j].args))
    {
      SizesFrom(ms, i);
      ok := w.WriteElement(when, ms[..i], ms[i]);
      if !ok {
        return;
      }
      assert ms[..i] + [ms[i]] == ms[..i + 1];
      i := i + 1;
    }
    assert ms[..i] == ms && ms[i..] == [];
    mem := buffer[..w.len] + [0];
    WalkedBack(host, mem, when, ms);
    n := Walk(host, mem, 0, w.len);
  }

  lemma SizesFrom(ms: seq<Message>, i: nat)
    requires i < |ms| && forall m | m in ms :: Sendable(m)
    ensures Sendable(ms[i]) && CString(ms[i].address) && ValidArgs(ms[i].args)
    ensures ms[i].address != [] ==> ms[i].address[0] != HASH
    ensures ElementSizes(ms[i..]) == 4 + |EncMessage(ms[i])| + ElementSizes(ms[i + 1..])
  {
    assert ms[i..][1..] == ms[i + 1..];
  }

  lemma WalkedBack(host: Machine, mem: seq<Byte>, when: Word64, ms: seq<Message>)
    requires ValidPacket(Bundle(when, AsPackets(ms)))
    requires var b := EncPacket(Bundle(when, AsPackets(ms))); mem == b + [0] && |b| < TWO_31
    ensures Guarded(mem)
    ensures var n := WalkPacket(host, mem, 0, |mem| - 1);
            if ms == [] then n.Bad?
            else
              && n.BundleNode? && n.ended && |n.children| == |ms|
              && forall i | 0 <= i < |ms| :: ValidArgs(ms[i].args) && FoundAs(host, mem, n.children[i], ms[i])
  {
    hide EncPacket, ValidPacket, WalkPacket, FoundAs, ValidArgs;
    var b := EncPacket(Bundle(when, AsPackets(ms)));
    assert mem[0..|b|] == b;
    BytesAreSlice(mem, 0, |b|, b);
    BundleRoundTrip(host, mem, 0, when, ms);
  }
}
