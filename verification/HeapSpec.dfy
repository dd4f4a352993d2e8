/** The binary min-heap of ideas/queue/queue.c on sequences: what add and remove leave in
    the array, and what that means. */
module HeapSpec {
  import opened Times

  /** A message as the queue sees it: ptr is the pointer the array stores, due and value
      are the fields behind it, which the queue only reads. */
  datatype Msg = Msg(ptr: nat, due: Time, value: int)

  function Parent(ix: nat): (p: nat)
    requires ix > 0
    ensures p < ix && (ix == 2 * p + 1 || ix == 2 * p + 2)
  {
    (ix - 1) / 2
  }

  predicate Ordered(h: seq<Msg>, i: nat)
    requires i < |h|
  {
    i > 0 ==> !Before(h[i].due, h[Parent(i)].due)
  }

  predicate IsHeap(h: seq<Msg>) {
    forall i: nat | i < |h| :: Ordered(h, i)
  }

  function Swap(h: seq<Msg>, i: nat, j: nat): (r: seq<Msg>)
    requires i < |h| && j < |h|
    ensures |r| == |h| && r[i] == h[j] && r[j] == h[i]
    ensures forall k | 0 <= k < |h| && k != i && k != j :: r[k] == h[k]
    ensures multiset(r) == multiset(h)
  {
    h[i := h[j]][j := h[i]]
  }

  // ---------- Sift up ----------

  function SiftUp(h: seq<Msg>, ix: nat): seq<Msg>
    requires ix < |h|
    decreases ix
  {
    if ix > 0 && Before(h[ix].due, h[Parent(ix)].due) then
      SiftUp(Swap(h, ix, Parent(ix)), Parent(ix))
    else h
  }

  /** A heap except that the message at ix may be due before its parent. */
  predicate HeapExceptAbove(h: seq<Msg>, ix: nat)
    requires ix < |h|
  {
    && (forall i: nat | i < |h| && i != ix :: Ordered(h, i))
    && (ix > 0 ==> forall i: nat | 0 < i < |h| && Parent(i) == ix :: !Before(h[i].due, h[Parent(ix)].due))
  }

  lemma {:induction false} SiftUpRestores(h: seq<Msg>, ix: nat)
    requires ix < |h| && HeapExceptAbove(h, ix)
    ensures IsHeap(SiftUp(h, ix)) && multiset(SiftUp(h, ix)) == multiset(h)
    decreases ix
  {
    if ix > 0 && Before(h[ix].due, h[Parent(ix)].due) {
      var p := Parent(ix);
      var s := Swap(h, ix, p);
      assert Ordered(h, p);
      forall i: nat | i < |s| && i != p
        ensures Ordered(s, i)
      {
        assert i != ix ==> Ordered(h, i);
      }
      if p > 0 {
        forall i: nat | 0 < i < |s| && Parent(i) == p
          ensures !Before(s[i].due, s[Parent(p)].due)
        {
          assert i != ix ==> Ordered(h, i);
        }
      }
      SiftUpRestores(s, p);
    } else {
      assert Ordered(h, ix);
    }
  }

  /** Where the message at ix goes: every message that moves for it is due strictly later and
      goes to a child of its old place, and the one it stops below is not. */
  lemma {:induction false} SiftUpPath(h: seq<Msg>, ix: nat) returns (p: nat)
    requires ix < |h|
    ensures var r := SiftUp(h, ix);
            && |r| == |h| && p <= ix && r[p] == h[ix]
            && (p > 0 ==> !Before(h[ix].due, r[Parent(p)].due))
            && forall i | 0 <= i < |h| && i != p ::
                 || (r[i] == h[i] && i != ix)
                 || (0 < i <= ix && r[i] == h[Parent(i)] && Before(h[ix].due, r[i].due))
    decreases ix
  {
    hide Before;
    if ix > 0 && Before(h[ix].due, h[Parent(ix)].due) {
      p := SiftUpPath(Swap(h, ix, Parent(ix)), Parent(ix));
    } else {
      p := ix;
    }
  }

  // ---------- Sift down ----------

  /** The index among ix and its children whose message is due first; ix wins ties, then
      the left child. */
  function Smallest(h: seq<Msg>, ix: nat): (r: nat)
    requires ix < |h|
    ensures r < |h| && (r == ix || r == 2 * ix + 1 || r == 2 * ix + 2)
  {
    var left, right := 2 * ix + 1, 2 * ix + 2;
    var s := if left < |h| && Before(h[left].due, h[ix].due) then left else ix;
    if right < |h| && Before(h[right].due, h[s].due) then right else s
  }

  /** Neither the node nor a child is due before it, and of the lower indices each is due strictly
      later. */
  lemma SmallestIsFirstDue(h: seq<Msg>, ix: nat, i: nat)
    requires ix < |h| && i < |h| && (i == ix || i == 2 * ix + 1 || i == 2 * ix + 2)
    ensures !Before(h[i].due, h[Smallest(h, ix)].due)
    ensures i < Smallest(h, ix) ==> Before(h[Smallest(h, ix)].due, h[i].due)
  {
  }

  function SiftDown(h: seq<Msg>, ix: nat): seq<Msg>
    requires ix < |h|
    decreases |h| - ix
  {
    var s := Smallest(h, ix);
    if s != ix then SiftDown(Swap(h, ix, s), s) else h
  }

  /** A heap except that the message at ix may be due after its children. */
  predicate HeapExceptBelow(h: seq<Msg>, ix: nat)
    requires ix < |h|
  {
    && (forall i: nat | 0 < i < |h| && Parent(i) != ix :: Ordered(h, i))
    && (ix > 0 ==> forall i: nat | 0 < i < |h| && Parent(i) == ix :: !Before(h[i].due, h[Parent(ix)].due))
  }

  lemma SiftDownStep(h: seq<Msg>, ix: nat)
    requires ix < |h| && HeapExceptBelow(h, ix) && Smallest(h, ix) != ix
    ensures HeapExceptBelow(Swap(h, ix, Smallest(h, ix)), Smallest(h, ix))
  {
    var s := Smallest(h, ix);
    var g := Swap(h, ix, s);
    assert Parent(s) == ix;
    forall i: nat | 0 < i < |g| && Parent(i) != s
      ensures Ordered(g, i)
    {
      if Parent(i) != ix {
        assert Ordered(h, i);
      }
    }
    forall i: nat | 0 < i < |g| && Parent(i) == s
      ensures !Before(g[i].due, g[ix].due)
    {
      assert Ordered(h, i);
    }
  }

  lemma SiftDownDone(h: seq<Msg>, ix: nat)
    requires ix < |h| && HeapExceptBelow(h, ix) && Smallest(h, ix) == ix
    ensures IsHeap(h)
  {
    forall i: nat | i < |h|
      ensures Ordered(h, i)
    {
      if i > 0 && Parent(i) == ix {
        assert i == 2 * ix + 1 || i == 2 * ix + 2;
      }
    }
  }

  lemma {:induction false} SiftDownRestores(h: seq<Msg>, ix: nat)
    requires ix < |h| && HeapExceptBelow(h, ix)
    ensures IsHeap(SiftDown(h, ix)) && multiset(SiftDown(h, ix)) == multiset(h)
    decreases |h| - ix
  {
    var s := Smallest(h, ix);
    if s != ix {
      SiftDownStep(h, ix);
      SiftDownRestores(Swap(h, ix, s), s);
    } else {
      SiftDownDone(h, ix);
    }
  }

  // ---------- Add and remove ----------

  function AddHeap(h: seq<Msg>, m: Msg): seq<Msg> {
    SiftUp(h + [m], |h|)
  }

  /** What is left after the root is taken out. */
  function RemoveHeap(h: seq<Msg>): seq<Msg>
    requires h != []
  {
    if |h| == 1 then [] else SiftDown(Hoisted(h), 0)
  }

  lemma AddHeapCorrect(h: seq<Msg>, m: Msg)
    requires IsHeap(h)
    ensures IsHeap(AddHeap(h, m)) && multiset(AddHeap(h, m)) == multiset(h) + multiset{m}
    ensures |AddHeap(h, m)| == |h| + 1
  {
    var g := h + [m];
    forall i: nat | i < |g| && i != |h|
      ensures Ordered(g, i)
    {
      assert Ordered(h, i);
    }
    SiftUpRestores(g, |h|);
    SameSize(AddHeap(h, m), g);
  }

  /** No message in a heap is due before the root. */
  lemma {:induction false} RootIsMinimal(h: seq<Msg>, i: nat)
    requires IsHeap(h) && i < |h|
    ensures !Before(h[i].due, h[0].due)
    decreases i
  {
    if i > 0 {
      RootIsMinimal(h, Parent(i));
      assert Ordered(h, i);
    }
  }

  predicate Earliest(m: Msg, h: seq<Msg>) {
    m in h && forall o | o in h :: !Before(o.due, m.due)
  }

  lemma RootIsEarliest(h: seq<Msg>)
    requires IsHeap(h) && h != []
    ensures Earliest(h[0], h)
  {
    forall o | o in h
      ensures !Before(o.due, h[0].due)
    {
      var i :| 0 <= i < |h| && h[i] == o;
      RootIsMinimal(h, i);
    }
  }

  /** The root removed and the last message put in its place, before sifting. */
  function Hoisted(h: seq<Msg>): seq<Msg>
    requires |h| > 1
  {
    h[0 := h[|h| - 1]][..|h| - 1]
  }

  lemma HoistedContents(h: seq<Msg>)
    requires |h| > 1
    ensures multiset(h) == multiset(Hoisted(h)) + multiset{h[0]}
  {
    var last := |h| - 1;
    assert h == [h[0]] + h[1..last] + [h[last]];
    assert Hoisted(h) == [h[last]] + h[1..last];
  }

  lemma RemoveHeapCorrect(h: seq<Msg>)
    requires IsHeap(h) && h != []
    ensures IsHeap(RemoveHeap(h)) && multiset(h) == multiset(RemoveHeap(h)) + multiset{h[0]}
    ensures |RemoveHeap(h)| == |h| - 1
    ensures Earliest(h[0], h)
  {
    RootIsEarliest(h);
    if |h| == 1 {
      assert h == [h[0]];
    } else {
      var g := Hoisted(h);
      forall i: nat | 0 < i < |g| && Parent(i) != 0
        ensures Ordered(g, i)
      {
        assert Ordered(h, i);
      }
      SiftDownRestores(g, 0);
      SameSize(SiftDown(g, 0), g);
      HoistedContents(h);
    }
  }

  lemma SameSize(a: seq<Msg>, b: seq<Msg>)
    requires multiset(a) == multiset(b)
    ensures |a| == |b|
  {
    assert |multiset(a)| == |a| && |multiset(b)| == |b|;
  }

  // ---------- How many swaps ----------

  function Pow2(n: nat): nat {
    if n == 0 then 1 else 2 * Pow2(n - 1)
  }

  function SiftUpSwaps(h: seq<Msg>, ix: nat): nat
    requires ix < |h|
    decreases ix
  {
    if ix > 0 && Before(h[ix].due, h[Parent(ix)].due) then
      1 + SiftUpSwaps(Swap(h, ix, Parent(ix)), Parent(ix))
    else 0
  }

  function SiftDownSwaps(h: seq<Msg>, ix: nat): nat
    requires ix < |h|
    decreases |h| - ix
  {
    var s := Smallest(h, ix);
    if s != ix then 1 + SiftDownSwaps(Swap(h, ix, s), s) else 0
  }

  lemma SiftUpUnfolds(h: seq<Msg>, ix: nat)
    requires 0 < ix < |h| && Before(h[ix].due, h[Parent(ix)].due)
    ensures SiftUp(h, ix) == SiftUp(Swap(h, ix, Parent(ix)), Parent(ix))
    ensures SiftUpSwaps(h, ix) == 1 + SiftUpSwaps(Swap(h, ix, Parent(ix)), Parent(ix))
  {
  }

  lemma SiftUpStops(h: seq<Msg>, ix: nat)
    requires ix < |h| && (ix > 0 ==> !Before(h[ix].due, h[Parent(ix)].due))
    ensures SiftUp(h, ix) == h && SiftUpSwaps(h, ix) == 0
  {
  }

  lemma SiftDownUnfolds(h: seq<Msg>, ix: nat)
    requires ix < |h| && Smallest(h, ix) != ix
    ensures SiftDown(h, ix) == SiftDown(Swap(h, ix, Smallest(h, ix)), Smallest(h, ix))
    ensures SiftDownSwaps(h, ix) == 1 + SiftDownSwaps(Swap(h, ix, Smallest(h, ix)), Smallest(h, ix))
  {
  }

  lemma SiftDownStops(h: seq<Msg>, ix: nat)
    requires ix < |h| && Smallest(h, ix) == ix
    ensures SiftDown(h, ix) == h && SiftDownSwaps(h, ix) == 0
  {
  }

  /** 2^swaps is at most the size after insertion, so swaps is at most its binary logarithm. */
  lemma {:induction false} SiftUpIsLogarithmic(h: seq<Msg>, ix: nat)
    requires ix < |h|
    ensures Pow2(SiftUpSwaps(h, ix)) <= ix + 1
    decreases ix
  {
    hide Swap, Before;
    if ix > 0 && Before(h[ix].due, h[Parent(ix)].due) {
      SiftUpIsLogarithmic(Swap(h, ix, Parent(ix)), Parent(ix));
    }
  }

  lemma Doubling(p: nat, x: nat, y: nat)
    requires 2 * x <= y
    ensures (2 * p) * x <= p * y
  {
    assert p * (2 * x) <= p * y;
  }

  /** From the root, ix = 0: 2^swaps is at most the size left after the removal. */
  lemma {:induction false} SiftDownIsLogarithmic(h: seq<Msg>, ix: nat)
    requires ix < |h|
    ensures Pow2(SiftDownSwaps(h, ix)) * (ix + 1) <= |h|
    decreases |h| - ix
  {
    hide Swap, Smallest;
    var s := Smallest(h, ix);
    if s != ix {
      SiftDownIsLogarithmic(Swap(h, ix, s), s);
      Doubling(Pow2(SiftDownSwaps(Swap(h, ix, s), s)), ix + 1, s + 1);
    }
  }
}
