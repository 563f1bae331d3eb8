/**
  The expiry heap: an array ordered by timeout from index 1, whose entries know
  their own index.
 */
module NatHeap {
  import opened NatEntry

  // ---------- The order, on the sequence of timeouts ----------

  /** Parent before child wherever the hole is not involved; index 0 is unused */
  ghost predicate OrderedBut(t: seq<int>, hole: nat) {
    && (forall j | 2 <= j < |t| && j != hole && j / 2 != hole :: t[j / 2] <= t[j])
    && (2 <= hole < |t| ==> forall j | 2 <= j < |t| && j / 2 == hole :: t[hole / 2] <= t[j])
  }

  ghost predicate Ordered(t: seq<int>) {
    forall j | 2 <= j < |t| :: t[j / 2] <= t[j]
  }

  ghost predicate FitsAbove(t: seq<int>, hole: nat, key: int) {
    forall j | 2 <= j < |t| && j / 2 == hole :: key <= t[j]
  }

  ghost predicate FitsBelow(t: seq<int>, hole: nat, key: int)
    requires hole < |t|
  {
    2 <= hole ==> t[hole / 2] <= key
  }

  lemma Filled(t: seq<int>, i: nat, key: int)
    requires 1 <= i < |t| && OrderedBut(t, i) && FitsAbove(t, i, key) && FitsBelow(t, i, key)
    ensures Ordered(t[i := key])
  {
  }

  lemma Floated(t: seq<int>, i: nat, key: int)
    requires 2 <= i < |t| && OrderedBut(t, i) && FitsAbove(t, i, key) && key < t[i / 2]
    ensures OrderedBut(t[i := t[i / 2]], i / 2) && FitsAbove(t[i := t[i / 2]], i / 2, key)
  {
    var p, u := i / 2, t[i := t[i / 2]];
    forall j | 2 <= j < |u| && j / 2 == p && 2 <= p ensures u[p / 2] <= u[j] {
      assert t[p / 2] <= t[p];
    }
  }

  lemma Sunk(t: seq<int>, i: nat, j: nat, key: int)
    requires 1 <= i && j / 2 == i && j < |t| && OrderedBut(t, i) && FitsBelow(t, i, key)
    requires t[j] <= key && forall c | 2 <= c < |t| && c / 2 == i :: t[j] <= t[c]
    ensures OrderedBut(t[i := t[j]], j) && FitsBelow(t[i := t[j]], j, key)
  {
  }

  lemma DeletedOrder(t: seq<int>, i: nat)
    requires Ordered(t) && 1 <= i < |t| - 1
    ensures var u, key := t[..|t| - 1], t[|t| - 1];
      && OrderedBut(u, i)
      && (if key < t[i] then FitsAbove(u, i, key) else FitsBelow(u, i, key))
  {
    forall j | 2 <= j < |t| - 1 && j / 2 == i && 2 <= i ensures t[i / 2] <= t[j] {
      assert t[i / 2] <= t[i];
    }
  }

  lemma NoChild(t: seq<int>, i: nat, key: int)
    requires |t| <= 2 * i
    ensures FitsAbove(t, i, key)
  {
  }

  lemma FitsOver(t: seq<int>, i: nat, j: nat, key: int)
    requires j < |t| && key < t[j] && forall c | 2 <= c < |t| && c / 2 == i :: t[j] <= t[c]
    ensures FitsAbove(t, i, key)
  {
  }

  lemma FitsUp(t: seq<int>, i: nat, key: int)
    requires i < |t| && (i <= 1 || t[i / 2] <= key)
    ensures FitsBelow(t, i, key)
  {
  }

  lemma {:induction false} TopIsLeast(t: seq<int>, i: nat)
    requires Ordered(t) && 1 <= i < |t|
    ensures t[1] <= t[i]
  {
    if i > 1 { TopIsLeast(t, i / 2); }
  }

  class Heap {
    var heap: array<Nat?>
    var last: nat
    ghost var entries: set<Nat>

    /** heap[1..last] holds the entries, but for n and index hole, and each knows where */
    ghost predicate Indexed(hole: nat, n: Nat?)
      reads this, heap, entries`heapIndex
    {
      && (last == 0 || last < heap.Length)
      && (forall i | 1 <= i <= last && i != hole :: heap[i] in entries && heap[i] != n && heap[i].heapIndex == i)
      && (forall m <- entries | m != n :: 1 <= m.heapIndex <= last && m.heapIndex != hole && heap[m.heapIndex] == m)
    }

    /** t lists the timeouts of heap[1..last] */
    ghost predicate Timed(t: seq<int>, hole: nat)
      reads this, heap, entries`timeout
    {
      && |t| == last + 1 && last < heap.Length + 1
      && forall i | 1 <= i <= last && i != hole ::
        i < heap.Length && heap[i] in entries && heap[i].timeout == t[i]
    }

    ghost predicate Valid()
      reads this, heap, entries`heapIndex, entries`timeout
    {
      Indexed(0, null) && forall i | 2 <= i <= last :: heap[i / 2].timeout <= heap[i].timeout
    }

    lemma Times() returns (t: seq<int>)
      requires Indexed(0, null)
      ensures Timed(t, 0)
      ensures Valid() ==> Ordered(t)
    {
      t := [0];
      while |t| <= last
        invariant 1 <= |t| <= last + 1 && forall i | 1 <= i < |t| :: heap[i].timeout == t[i]
      {
        t := t + [heap[|t|].timeout];
      }
    }

    ghost predicate Holed(i: nat, n: Nat, t: seq<int>)
      reads this, heap, entries`heapIndex, entries`timeout
    {
      1 <= i <= last && n in entries && Indexed(i, n) && Timed(t, i) && OrderedBut(t, i)
    }

    constructor ()
      ensures Valid() && entries == {} && last == 0 && fresh(heap)
    {
      heap := new Nat?[0];
      last := 0;
      entries := {};
    }

    /** The entry at j moves into the hole at i */
    method Shift(i: nat, j: nat, ghost n: Nat, ghost t: seq<int>)
      requires Indexed(i, n) && Timed(t, i) && n in entries && 1 <= i <= last && 1 <= j <= last && i != j
      modifies heap, entries`heapIndex
      ensures Indexed(j, n) && Timed(t[i := t[j]], j)
    {
      heap[i] := heap[j];
      heap[i].heapIndex := i;
    }

    method Fill(i: nat, n: Nat, ghost t: seq<int>)
      requires Holed(i, n, t) && FitsAbove(t, i, n.timeout) && FitsBelow(t, i, n.timeout)
      modifies heap, entries`heapIndex
      ensures Valid()
    {
      heap[i] := n;
      heap[i].heapIndex := i;
      Filled(t, i, n.timeout);
    }

    /** nat_heap_float_up */
    method FloatUp(i0: nat, n: Nat, ghost t0: seq<int>)
      requires Holed(i0, n, t0) && FitsAbove(t0, i0, n.timeout)
      modifies heap, entries`heapIndex
      ensures Valid()
    {
      hide OrderedBut, FitsAbove, Indexed;
      var i := i0;
      var p := i / 2;
      ghost var t := t0;
      while i > 1 && n.timeout < heap[p].timeout
        invariant 0 <= p == i / 2 && Holed(i, n, t) && FitsAbove(t, i, n.timeout)
        decreases i
      {
        Floated(t, i, n.timeout);
        Shift(i, p, n, t);
        t := t[i := t[p]];
        i := p;
        p := i / 2;
      }
      FitsUp(t, i, n.timeout);
      Fill(i, n, t);
    }

    /** nat_heap_sink_down */
    method SinkDown(i0: nat, n: Nat, ghost t0: seq<int>)
      requires Holed(i0, n, t0) && FitsBelow(t0, i0, n.timeout)
      modifies heap, entries`heapIndex
      ensures Valid()
    {
      hide OrderedBut, FitsAbove, FitsBelow, Indexed;
      var i := i0;
      var half := last / 2;
      ghost var t := t0;
      while i <= half
        invariant Holed(i, n, t) && FitsBelow(t, i, n.timeout)
        decreases last - i
      {
        var j := SmallerChild(i, n, t);
        if n.timeout < heap[j].timeout {
          FitsOver(t, i, j, n.timeout);
          Fill(i, n, t);
          return;
        }
        Sunk(t, i, j, n.timeout);
        Shift(i, j, n, t);
        t := t[i := t[j]];
        i := j;
      }
      NoChild(t, i, n.timeout);
      Fill(i, n, t);
    }

    /** The smallest of the at most two children */
    method SmallerChild(i: nat, ghost n: Nat, ghost t: seq<int>) returns (j: nat)
      requires Holed(i, n, t) && i <= last / 2
      ensures j / 2 == i && j <= last && heap[j] in entries && heap[j].timeout == t[j]
      ensures forall c | 2 <= c < |t| && c / 2 == i :: t[j] <= t[c]
    {
      j := i * 2;
      if j < last && heap[j + 1].timeout < heap[j].timeout {
        j := j + 1;
      }
    }

    /** nat_heap_resize and nat_heap_insert; allocation always succeeds */
    method Insert(n: Nat)
      requires Valid() && n !in entries
      modifies this, heap, entries`heapIndex, n`heapIndex
      ensures Valid() && entries == old(entries) + {n} && (heap == old(heap) || fresh(heap))
    {
      ghost var t := Times();
      var newLast := last + 1;
      if newLast >= heap.Length {
        var nh := new Nat?[heap.Length + 1024](_ => null);
        forall i | 0 <= i < heap.Length {
          nh[i] := heap[i];
        }
        heap := nh;
      }
      last := newLast;
      entries := entries + {n};
      FloatUp(newLast, n, t + [0]);
    }

    /** nat_heap_delete; an index outside the heap is only logged */
    method Delete(i: nat)
      requires Valid()
      modifies this`last, this`entries, heap, entries`heapIndex
      ensures Valid()
      ensures 1 <= i <= old(last) ==> entries == old(entries) - {old(heap[i])} && last == old(last) - 1
      ensures !(1 <= i <= old(last)) ==> entries == old(entries) && last == old(last)
    {
      if i < 1 || i > last {
        return;
      }
      if i == last {
        DropLast();
        return;
      }
      hide OrderedBut, FitsAbove, FitsBelow, Indexed, Ordered;
      ghost var t := Times();
      DeletedOrder(t, i);
      var n := heap[last];
      var less := n.timeout < heap[i].timeout;
      Vacate(i, n, t);
      t := t[..last + 1];
      if less {
        FloatUp(i, heap[i], t);
      } else {
        SinkDown(i, heap[i], t);
      }
    }

    method DropLast()
      requires Valid() && 1 <= last
      modifies this`last, this`entries, heap
      ensures Valid() && entries == old(entries) - {old(heap[last])} && last == old(last) - 1
    {
      entries := entries - {heap[last]};
      heap[last] := null;
      last := last - 1;
    }

    /** The last entry leaves its place for index i */
    method Vacate(i: nat, n: Nat, ghost t: seq<int>)
      requires Indexed(0, null) && Timed(t, 0) && 1 <= i < last && n == heap[last]
      modifies this`last, this`entries, heap
      ensures last == old(last) - 1 && entries == old(entries) - {old(heap[i])}
      ensures n in entries && heap[i] == n && Indexed(i, n) && Timed(t[..last + 1], i)
    {
      entries := entries - {heap[i]};
      heap[last] := null;
      last := last - 1;
      heap[i] := n;
    }

    /** nat_heap_element(1): nothing in the heap times out earlier */
    method Earliest() returns (n: Nat?)
      requires Valid()
      ensures n == null <==> entries == {}
      ensures n != null ==> n in entries && n.heapIndex == 1 && forall m <- entries :: n.timeout <= m.timeout
    {
      n := if 1 <= last then heap[1] else null;
      ghost var t := Times();
      forall m | m in entries ensures n != null && n.timeout <= m.timeout { TopIsLeast(t, m.heapIndex); }
    }

    /** n is about to move: its index counts as a hole */
    lemma Lifted(n: Nat, t: seq<int>)
      requires Indexed(0, null) && Timed(t, 0) && Ordered(t) && n in entries
      ensures Indexed(n.heapIndex, n) && OrderedBut(t, n.heapIndex)
    {
      var i := n.heapIndex;
      forall j | 2 <= j < |t| && j / 2 == i && 2 <= i ensures t[i / 2] <= t[j] {
        assert t[i / 2] <= t[i];
      }
    }

    /** A timeout goes down, then nat_heap_increased */
    method Sooner(n: Nat, timeout: int)
      requires Valid() && n in entries && timeout <= n.timeout
      modifies n`timeout, heap, entries`heapIndex
      ensures Valid() && n.timeout == timeout
    {
      hide OrderedBut, FitsAbove, FitsBelow, Indexed, Ordered;
      ghost var t := Times();
      Lifted(n, t);
      Index(n);
      StillAbove(t, n.heapIndex, timeout);
      n.timeout := timeout;
      FloatUp(n.heapIndex, n, t);
    }

    /** A timeout goes up, then nat_heap_decreased */
    method Later(n: Nat, timeout: int)
      requires Valid() && n in entries && timeout >= n.timeout
      modifies n`timeout, heap, entries`heapIndex
      ensures Valid() && n.timeout == timeout
    {
      hide OrderedBut, FitsAbove, FitsBelow, Indexed, Ordered;
      ghost var t := Times();
      Lifted(n, t);
      Index(n);
      StillBelow(t, n.heapIndex, timeout);
      n.timeout := timeout;
      SinkDown(n.heapIndex, n, t);
    }

    lemma Index(n: Nat)
      requires Indexed(0, null) && n in entries
      ensures 1 <= n.heapIndex <= last < heap.Length && heap[n.heapIndex] == n
    {
    }
  }

  lemma StillAbove(t: seq<int>, i: nat, key: int)
    requires Ordered(t) && 1 <= i < |t| && key <= t[i]
    ensures FitsAbove(t, i, key)
  {
  }

  lemma StillBelow(t: seq<int>, i: nat, key: int)
    requires Ordered(t) && 1 <= i < |t| && key >= t[i]
    ensures FitsBelow(t, i, key)
  {
  }
}
