/** The queue in memory: an array of message pointers changed in place
    (ideas/queue/queue.c:20-115 and the critical section of remove_due_s). */
module MsgQueues {
  import opened Options
  import opened Times
  import opened HeapSpec
  import opened QueueRuns

  class MsgQueue {
    var heap: array<Msg>
    var nItems: nat
    var cItems: nat
    const growable: bool

    ghost predicate WellFormed()
      reads this, heap
    {
      heap.Length == nItems && cItems <= nItems
    }

    ghost function Abs(): Queue
      reads this, heap
      requires WellFormed()
    {
      Queue(heap[..cItems], nItems, growable)
    }

    /** osc_msg_queue_init. Growing doubles the capacity, so a growable queue is of use only
        if it starts with room for a message. */
    constructor (initialCapacity: nat, growable: bool)
      ensures WellFormed() && fresh(heap)
      ensures Abs() == Queue([], initialCapacity, growable)
      ensures QueueRuns.Valid(Abs()) <==> growable ==> initialCapacity >= 1
    {
      heap := new Msg[initialCapacity];
      nItems := initialCapacity;
      cItems := 0;
      this.growable := growable;
    }

    method SwapSlots(i: nat, j: nat)
      requires WellFormed() && i < cItems && j < cItems
      modifies heap
      ensures WellFormed() && heap[..cItems] == Swap(old(heap[..cItems]), i, j)
    {
      var tmp := heap[i];
      heap[i] := heap[j];
      heap[j] := tmp;
    }

    /** The doubling of a full queue. */
    method Grow()
      requires WellFormed() && growable
      modifies this
      ensures WellFormed() && fresh(heap) && cItems == old(cItems)
      ensures nItems == 2 * old(nItems) && heap[..cItems] == old(heap[..cItems])
    {
      nItems := nItems * 2;
      var bigger := new Msg[nItems];
      forall i | 0 <= i < cItems {
        bigger[i] := heap[i];
      }
      heap := bigger;
    }

    /** osc_msg_queue_add. swaps counts the exchanges of the sift. Doubling 0 gives 0, and the
        source then writes behind the array. */
    method Add(msg: Msg) returns (ok: bool, ghost swaps: nat)
      requires WellFormed() && (growable ==> nItems >= 1)
      modifies this, heap
      ensures WellFormed() && (heap == old(heap) || fresh(heap))
      ensures (Abs(), ok) == QueueRuns.Add(old(Abs()), msg)
      ensures ok ==> Pow2(swaps) <= cItems
    {
      hide SiftUp;
      swaps := 0;
      if cItems == nItems {
        if !growable {
          return false, 0;
        }
        Grow();
      }
      var ix := cItems;
      cItems := cItems + 1;
      heap[ix] := msg;
      assert heap[..cItems] == old(heap[..cItems]) + [msg];
      swaps := SiftLast(msg);
      ok := true;
    }

    /** The sift-up loop of osc_msg_queue_add: msg is in the last slot. */
    method SiftLast(msg: Msg) returns (ghost swaps: nat)
      requires WellFormed() && cItems > 0 && heap[cItems - 1] == msg
      modifies heap
      ensures WellFormed() && heap[..cItems] == old(SiftUp(heap[..cItems], cItems - 1))
      ensures Pow2(swaps) <= cItems
    {
      hide SiftUp, SiftUpSwaps, Pow2, Before;
      swaps := 0;
      var ix: nat := cItems - 1;
      ghost var h := heap[..cItems];
      ghost var sifted, total := SiftUp(h, ix), SiftUpSwaps(h, ix);
      SiftUpIsLogarithmic(h, ix);
      assert Pow2(total) <= cItems;
      while ix > 0 && Before(msg.due, heap[Parent(ix)].due)
        invariant WellFormed() && ix < cItems && heap[ix] == msg && h == heap[..cItems]
        invariant SiftUp(h, ix) == sifted && swaps + SiftUpSwaps(h, ix) == total
        decreases ix
      {
        var parent := Parent(ix);
        SiftUpUnfolds(h, ix);
        SwapSlots(ix, parent);
        h := Swap(h, ix, parent);
        ix := parent;
        swaps := swaps + 1;
      }
      SiftUpStops(h, ix);
      assert swaps == total;
      assert h == sifted;
    }

    /** osc_msg_queue_remove. None is the NULL of an empty queue. */
    method Remove() returns (out: Option<Msg>, ghost swaps: nat)
      requires WellFormed()
      modifies this, heap
      ensures WellFormed() && heap == old(heap)
      ensures (Abs(), out) == QueueRuns.Remove(old(Abs()))
      ensures cItems > 0 ==> Pow2(swaps) <= cItems
      ensures cItems == 0 ==> swaps == 0
    {
      swaps := 0;
      if cItems == 0 {
        return None, 0;
      }
      out := Some(heap[0]);
      cItems := cItems - 1;
      heap[0] := heap[cItems];
      if cItems == 0 {
        assert heap[..cItems] == [];
      } else {
        assert heap[..cItems] == Hoisted(old(heap[..cItems]));
        swaps := SiftRoot();
      }
    }

    /** The sift-down loop of osc_msg_queue_remove. */
    method SiftRoot() returns (ghost swaps: nat)
      requires WellFormed() && cItems > 0
      modifies heap
      ensures WellFormed() && heap[..cItems] == old(SiftDown(heap[..cItems], 0))
      ensures Pow2(swaps) <= cItems
    {
      hide SiftDown, SiftDownSwaps, Smallest, Pow2, Before;
      swaps := 0;
      var ix: nat := 0;
      ghost var start := heap[..cItems];
      SiftDownIsLogarithmic(start, 0);
      while true
        invariant WellFormed() && ix < cItems
        invariant SiftDown(heap[..cItems], ix) == SiftDown(start, 0)
        invariant swaps + SiftDownSwaps(heap[..cItems], ix) == SiftDownSwaps(start, 0)
        decreases cItems - ix
      {
        var smallest := SmallestOfThree(ix);
        if smallest == ix {
          SiftDownStops(heap[..cItems], ix);
          break;
        }
        SiftDownUnfolds(heap[..cItems], ix);
        SwapSlots(ix, smallest);
        ix := smallest;
        swaps := swaps + 1;
      }
    }

    /** The two comparisons at the head of the sift-down loop. */
    method SmallestOfThree(ix: nat) returns (smallest: nat)
      requires WellFormed() && ix < cItems
      ensures smallest == Smallest(heap[..cItems], ix)
    {
      var left, right := 2 * ix + 1, 2 * ix + 2;
      smallest := ix;
      if left < cItems && Before(heap[left].due, heap[smallest].due) {
        smallest := left;
      }
      if right < cItems && Before(heap[right].due, heap[smallest].due) {
        smallest := right;
      }
    }

    /** What osc_msg_queue_remove_due_s does while it holds the lock. */
    method RemoveDue(threshold: Timeval?, now: Time) returns (msg: Option<Msg>)
      requires WellFormed()
      modifies this, heap
      ensures WellFormed() && heap == old(heap)
      ensures (Abs(), msg) ==
              QueueRuns.RemoveDue(old(Abs()), now, if threshold == null then None else Some(old(threshold.Value())))
    {
      msg := None;
      if cItems > 0 {
        var diff := new Timeval(Time(0, 0));
        var due := IsMsgDue(heap[0].due, threshold, diff, now);
        if due {
          ghost var swaps;
          msg, swaps := Remove();
        }
      }
    }
  }
}
