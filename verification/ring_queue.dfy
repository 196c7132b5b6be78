/** Sequential model of the fixed-capacity single-producer/single-consumer ring
    queue. The queue has `Size` slots, each a ready flag plus a payload, a write
    cursor and a read cursor; a cursor selects its slot through
    `cursor & (Size - 1)`. Memory orderings are not modelled: every history here
    is one sequential interleaving of producer and consumer calls.

    `Items` is the abstract contents (the payloads of the slots between the two
    cursors, oldest first) and `Valid` is the representation invariant. */
module RingQueue {
  import Bits

  datatype Slot<T> = Slot(ready: bool, data: T)

  /** `w` and `r` are the write and read cursors (`size_t` in the source; they
      only ever grow, and 64-bit wrap-around is not modelled). */
  datatype Queue<T> = Queue(slots: seq<Slot<T>>, w: nat, r: nat)

  /** An operation of a sequential producer/consumer history. */
  datatype Op<T> = PushOp(item: T) | PopOp

  /** The template's two compile-time checks on `Size`. */
  predicate SizeAccepted(size: nat)
  {
    size >= 2 && Bits.BitAnd(size, size - 1) == 0
  }

  /** The compile-time checks admit exactly the powers of two from 2 up. */
  lemma SizeAcceptedIsPow2(size: nat)
    ensures SizeAccepted(size) <==> size >= 2 && Bits.IsPow2(size)
  {
    if size >= 1 {
      Bits.PowerOfTwoTest(size);
    }
  }

  /** `cursor & MASK` with `MASK = Size - 1`: the slot a cursor designates. */
  function SlotIndex(size: nat, cursor: nat): (i: nat)
    requires SizeAccepted(size)
    ensures i < size && i == cursor % size
  {
    SizeAcceptedIsPow2(size);
    Bits.MaskIsMod(cursor, size);
    Bits.BitAnd(cursor, size - 1)
  }

  /** The slot `i` places after the read cursor. */
  function At<T>(q: Queue<T>, i: nat): Slot<T>
    requires |q.slots| > 0
  {
    q.slots[(q.r + i) % |q.slots|]
  }

  /** Representation invariant: the ready slots are exactly the ones at
      positions r, r+1, ..., w-1 (modulo Size), and at most Size are in use. */
  ghost predicate Valid<T>(q: Queue<T>)
  {
    && SizeAccepted(|q.slots|)
    && q.r <= q.w <= q.r + |q.slots|
    && forall i: nat :: i < |q.slots| ==> (At(q, i).ready <==> i < q.w - q.r)
  }

  /** The queued payloads, oldest first. */
  function Items<T>(q: Queue<T>): seq<T>
    requires |q.slots| > 0 && q.r <= q.w
  {
    seq(q.w - q.r, i requires 0 <= i < q.w - q.r => At(q, i).data)
  }

  /** Two distinct offsets below the modulus land on distinct slots. */
  lemma ModDistinct(a: nat, i: nat, j: nat, size: nat)
    requires i < j < size
    ensures (a + i) % size != (a + j) % size
  {
    var qi, qj := (a + i) / size, (a + j) / size;
    Bits.ModOfDecomposition(a + i, size, qi, (a + i) % size);
    Bits.ModOfDecomposition(a + j, size, qj, (a + j) % size);
    if (a + i) % size == (a + j) % size {
      assert size * (qj - qi) == j - i;
      Bits.MulAwayFromZero(size, qj - qi);
    }
  }

  /** Advancing a cursor by a whole lap returns to the same slot. */
  lemma ModLap(a: nat, size: nat)
    requires size > 0
    ensures (a + size) % size == a % size
  {
    Bits.ModOfDecomposition(a + size, size, a / size + 1, a % size);
  }

  /** A fresh queue: every slot not ready, both cursors at 0. */
  function Create<T>(size: nat, init: T): (q: Queue<T>)
    requires SizeAccepted(size)
    ensures Valid(q) && Capacity(q) == size
    ensures |Items(q)| == 0
    ensures forall k :: 0 <= k < size ==> !q.slots[k].ready
  {
    Queue(seq(size, _ => Slot(false, init)), 0, 0)
  }

  /** Total number of slots. */
  function Capacity<T>(q: Queue<T>): (c: nat)
    ensures Valid(q) ==> c >= 2 && Bits.IsPow2(c)
  {
    SizeAcceptedIsPow2(|q.slots|);
    |q.slots|
  }

  lemma PushKeepsValid<T>(q: Queue<T>, item: T, k: nat)
    requires Valid(q) && q.w - q.r < |q.slots| && k == q.w % |q.slots|
    ensures var q' := q.(slots := q.slots[k := Slot(true, item)], w := q.w + 1);
      && Valid(q')
      && Items(q') == Items(q) + [item]
  {
    var n := |q.slots|;
    var q' := q.(slots := q.slots[k := Slot(true, item)], w := q.w + 1);
    assert k == (q.r + (q.w - q.r)) % n;
    forall i: nat | i < n
      ensures At(q', i).ready <==> i < q'.w - q'.r
      ensures i != q.w - q.r ==> At(q', i) == At(q, i)
    {
      if i == q.w - q.r {
        assert At(q', i) == Slot(true, item);
      } else {
        if i < q.w - q.r {
          ModDistinct(q.r, i, q.w - q.r, n);
        } else {
          ModDistinct(q.r, q.w - q.r, i, n);
        }
        assert At(q', i) == At(q, i);
        assert At(q, i).ready <==> i < q.w - q.r;
      }
    }
    assert Items(q') == Items(q) + [item];
  }

  /** The slot under the write cursor is ready exactly when the queue is full. */
  lemma WriteSlotReady<T>(q: Queue<T>)
    requires Valid(q)
    ensures q.slots[q.w % |q.slots|].ready <==> q.w - q.r == |q.slots|
  {
    var n := |q.slots|;
    if q.w - q.r < n {
      assert q.slots[q.w % n] == At(q, q.w - q.r);
    } else {
      ModLap(q.r, n);
      assert q.slots[q.w % n] == At(q, 0);
    }
  }

  /** The slot under the read cursor is ready exactly when the queue is not empty. */
  lemma ReadSlotReady<T>(q: Queue<T>)
    requires Valid(q)
    ensures q.slots[q.r % |q.slots|] == At(q, 0)
    ensures q.slots[q.r % |q.slots|].ready <==> q.r < q.w
  {
  }

  /** `push` (both the copying and the moving overload): fails, changing
      nothing, exactly when the queue is full; otherwise appends the item and
      advances the write cursor by one. */
  function Push<T>(q: Queue<T>, item: T): (res: (Queue<T>, bool))
    requires Valid(q)
    ensures Valid(res.0) && Capacity(res.0) == Capacity(q)
    ensures res.1 <==> |Items(q)| < Capacity(q)
    ensures res.1 ==> Items(res.0) == Items(q) + [item] && res.0.w == q.w + 1 && res.0.r == q.r
    ensures !res.1 ==> res.0 == q
  {
    var k := SlotIndex(|q.slots|, q.w);
    WriteSlotReady(q);
    if q.slots[k].ready then
      (q, false)
    else
      PushKeepsValid(q, item, k);
      (q.(slots := q.slots[k := Slot(true, item)], w := q.w + 1), true)
  }

  lemma PopKeepsValid<T>(q: Queue<T>, k: nat)
    requires Valid(q) && q.r < q.w && k == q.r % |q.slots|
    ensures var q' := q.(slots := q.slots[k := q.slots[k].(ready := false)], r := q.r + 1);
      && Valid(q')
      && Items(q') == Items(q)[1..]
  {
    var n := |q.slots|;
    var q' := q.(slots := q.slots[k := q.slots[k].(ready := false)], r := q.r + 1);
    assert k == (q.r + 0) % n;
    forall i: nat | i < n
      ensures At(q', i).ready <==> i < q'.w - q'.r
      ensures i + 1 < n ==> At(q', i) == At(q, i + 1)
    {
      assert q.r + 1 + i == q.r + (i + 1);
      if i + 1 < n {
        ModDistinct(q.r, 0, i + 1, n);
        assert At(q', i) == At(q, i + 1);
        assert At(q, i + 1).ready <==> i + 1 < q.w - q.r;
      } else {
        ModLap(q.r, n);
        assert At(q', i).ready == false;
      }
    }
    assert Items(q') == Items(q)[1..];
  }

  /** `pop`: fails, leaving the queue and `item` untouched, exactly when the
      queue is empty; otherwise yields the oldest item, removes it and advances
      the read cursor by one. */
  function Pop<T>(q: Queue<T>, item: T): (res: (Queue<T>, bool, T))
    requires Valid(q)
    ensures Valid(res.0) && Capacity(res.0) == Capacity(q)
    ensures res.1 <==> |Items(q)| > 0
    ensures res.1 ==> && res.2 == Items(q)[0] && Items(res.0) == Items(q)[1..]
                      && res.0.r == q.r + 1 && res.0.w == q.w
    ensures !res.1 ==> res.0 == q && res.2 == item
  {
    var k := SlotIndex(|q.slots|, q.r);
    ReadSlotReady(q);
    if !q.slots[k].ready then
      (q, false, item)
    else
      PopKeepsValid(q, k);
      (q.(slots := q.slots[k := q.slots[k].(ready := false)], r := q.r + 1), true, q.slots[k].data)
  }

  /** `tryPop` is `pop` under another name. */
  function TryPop<T>(q: Queue<T>, item: T): (res: (Queue<T>, bool, T))
    requires Valid(q)
    ensures Valid(res.0)
    ensures res.1 <==> |Items(q)| > 0
    ensures res.1 ==> res.2 == Items(q)[0] && Items(res.0) == Items(q)[1..]
    ensures !res.1 ==> res.0 == q && res.2 == item
  {
    Pop(q, item)
  }

  /** `front`: a copy of the oldest item without removing it; on an empty
      queue it returns false and leaves `item` as it was. */
  function Front<T>(q: Queue<T>, item: T): (res: (bool, T))
    requires Valid(q)
    ensures res.0 <==> |Items(q)| > 0
    ensures res.0 ==> res.1 == Items(q)[0]
    ensures !res.0 ==> res.1 == item
  {
    var k := SlotIndex(|q.slots|, q.r);
    ReadSlotReady(q);
    if !q.slots[k].ready then (false, item) else (true, q.slots[k].data)
  }

  /** `empty`: the slot under the read cursor is not ready. */
  function Empty<T>(q: Queue<T>): (e: bool)
    requires Valid(q)
    ensures e <==> |Items(q)| == 0
  {
    var k := SlotIndex(|q.slots|, q.r);
    ReadSlotReady(q);
    !q.slots[k].ready
  }

  /** `full`: the slot under the write cursor is still ready. */
  function Full<T>(q: Queue<T>): (f: bool)
    requires Valid(q)
    ensures f <==> |Items(q)| == Capacity(q)
  {
    var k := SlotIndex(|q.slots|, q.w);
    WriteSlotReady(q);
    q.slots[k].ready
  }

  /** `size`: the cursor difference, or 0 should the read cursor ever be ahead. */
  function Size<T>(q: Queue<T>): (n: int)
    requires Valid(q)
    ensures n == |Items(q)| && n <= Capacity(q)
  {
    if q.w >= q.r then q.w - q.r else 0
  }

  /** `clear`: pop until `pop` fails. */
  function Clear<T>(q: Queue<T>): (c: Queue<T>)
    requires Valid(q)
    ensures Valid(c) && Capacity(c) == Capacity(q)
    ensures |Items(c)| == 0 && c.w == q.w
    decreases q.w - q.r
  {
    var (q', ok, _) := Pop(q, q.slots[0].data);
    if ok then Clear(q') else q
  }

  /** `reset`: clear, move both cursors back to 0 and mark every slot not ready. */
  function Reset<T>(q: Queue<T>): (c: Queue<T>)
    requires Valid(q)
    ensures Valid(c) && Capacity(c) == Capacity(q)
    ensures |Items(c)| == 0 && c.w == 0 && c.r == 0
    ensures forall k :: 0 <= k < |c.slots| ==> !c.slots[k].ready
  {
    var cleared := Clear(q);
    Queue(seq(|cleared.slots|, k requires 0 <= k < |cleared.slots| => cleared.slots[k].(ready := false)), 0, 0)
  }

  /** Replays a sequential history; yields the final queue, the items whose
      push succeeded and the items the successful pops returned, in order.
      `dummy` is the caller's variable that a pop writes into. */
  function Run<T>(q: Queue<T>, ops: seq<Op<T>>, dummy: T): (res: (Queue<T>, seq<T>, seq<T>))
    requires Valid(q)
    ensures Valid(res.0) && Capacity(res.0) == Capacity(q)
    decreases |ops|
  {
    if |ops| == 0 then (q, [], [])
    else match ops[0]
      case PushOp(x) =>
        var (q1, ok) := Push(q, x);
        var (q2, pushed, popped) := Run(q1, ops[1..], dummy);
        (q2, if ok then [x] + pushed else pushed, popped)
      case PopOp =>
        var (q1, ok, y) := Pop(q, dummy);
        var (q2, pushed, popped) := Run(q1, ops[1..], dummy);
        (q2, pushed, if ok then [y] + popped else popped)
  }

  /** One successful pop, seen on the abstract contents. */
  lemma PopStepAlgebra<T>(items: seq<T>, after: seq<T>, y: T, popped: seq<T>, left: seq<T>, pushed: seq<T>)
    requires |items| > 0 && y == items[0] && after == items[1..]
    requires popped + left == after + pushed
    ensures ([y] + popped) + left == items + pushed
  {
    assert items == [y] + after;
    assert ([y] + popped) + left == [y] + (popped + left);
    assert [y] + (after + pushed) == ([y] + after) + pushed;
  }

  /** One successful push, seen on the abstract contents. */
  lemma PushStepAlgebra<T>(items: seq<T>, x: T, popped: seq<T>, left: seq<T>, pushed: seq<T>)
    requires popped + left == (items + [x]) + pushed
    ensures popped + left == items + ([x] + pushed)
  {
  }

  /** FIFO over any sequential history: what was popped, followed by what is
      still queued, is what was queued before followed by what was pushed.
      Nothing is lost, duplicated or reordered. */
  lemma {:induction false} RunIsFifo<T>(q: Queue<T>, ops: seq<Op<T>>, dummy: T)
    requires Valid(q)
    ensures var res := Run(q, ops, dummy);
      res.2 + Items(res.0) == Items(q) + res.1
    decreases |ops|
  {
    if |ops| > 0 {
      var rest := ops[1..];
      var res := Run(q, ops, dummy);
      match ops[0]
      case PushOp(x) =>
        var p := Push(q, x);
        var t := Run(p.0, rest, dummy);
        RunIsFifo(p.0, rest, dummy);
        if p.1 {
          PushStepAlgebra(Items(q), x, t.2, Items(t.0), t.1);
        }
      case PopOp =>
        var p := Pop(q, dummy);
        var t := Run(p.0, rest, dummy);
        RunIsFifo(p.0, rest, dummy);
        if p.1 {
          PopStepAlgebra(Items(q), Items(p.0), p.2, t.2, Items(t.0), t.1);
        }
    }
  }

  function PushOps<T>(xs: seq<T>): (ops: seq<Op<T>>)
    ensures |ops| == |xs|
  {
    seq(|xs|, i requires 0 <= i < |xs| => PushOp(xs[i]))
  }

  /** Pushes with no pop in between all succeed while there is room. */
  lemma {:induction false} PushesFitWhileRoom<T>(q: Queue<T>, xs: seq<T>, dummy: T)
    requires Valid(q) && |Items(q)| + |xs| <= Capacity(q)
    ensures var (q', pushed, popped) := Run(q, PushOps(xs), dummy);
      pushed == xs && popped == [] && Items(q') == Items(q) + xs
    decreases |xs|
  {
    if |xs| > 0 {
      var (q1, ok) := Push(q, xs[0]);
      assert PushOps(xs)[1..] == PushOps(xs[1..]);
      PushesFitWhileRoom(q1, xs[1..], dummy);
      assert Items(q) + xs == Items(q1) + xs[1..];
    }
  }

  /** From an empty queue, `Size` successful pushes make it full, and the next
      push fails. */
  lemma FillToCapacity<T>(q: Queue<T>, xs: seq<T>, extra: T, dummy: T)
    requires Valid(q) && |Items(q)| == 0 && |xs| == Capacity(q)
    ensures var (q', pushed, _) := Run(q, PushOps(xs), dummy);
      && pushed == xs
      && Full(q')
      && !Push(q', extra).1
  {
    PushesFitWhileRoom(q, xs, dummy);
  }

  /** `front` returns the item the next `pop` would return, and agrees with
      `empty`. */
  lemma FrontAgreesWithPop<T>(q: Queue<T>, item: T)
    requires Valid(q)
    ensures Front(q, item).0 == Pop(q, item).1 == !Empty(q)
    ensures Front(q, item).1 == Pop(q, item).2
  {
  }
}
