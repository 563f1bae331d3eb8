/**
  The NAT as a whole: the indexed entries with their ports, the expiry heap, the
  global counters, and the operations on them.
 */
module Aftr {
  import opened NatEntry
  import opened NatTable
  import opened NatHeap
  import opened PortRange
  import opened PortPool
  import opened Binding
  import opened Caches
  import S = SplayTree

  // ---------- The global counters ----------

  /** Entries for one destination, of one protocol */
  ghost function Exact(s: set<Nat>, i: nat): set<Nat> {
    set n | n in s && !n.key.flags.allDst && Index(n.key.proto) == i
  }

  ghost function Static(s: set<Nat>): set<Nat> { set n | n in s && n.key.flags.allDst && !n.key.flags.prrNull }

  ghost function Prr(s: set<Nat>): set<Nat> { set n | n in s && n.key.flags.allDst && n.key.flags.prrNull }

  /** natcntt, natcntu and natcnto; snatcnt; prrcnt */
  datatype Counters = Counters(dynamic: seq<nat>, snat: nat, prr: nat) {
    ghost predicate Count(s: set<Nat>) {
      && |dynamic| == PRCNT && (forall i | 0 <= i < PRCNT :: dynamic[i] == |Exact(s, i)|)
      && snat == |Static(s)| && prr == |Prr(s)|
    }

    /** The counter an entry belongs to goes up */
    function More(k: Key): Counters
      requires |dynamic| == PRCNT
    {
      if k.flags.allDst then
        if k.flags.prrNull then this.(prr := prr + 1) else this.(snat := snat + 1)
      else
        this.(dynamic := dynamic[Index(k.proto) := dynamic[Index(k.proto)] + 1])
    }

    /** or down, as ISC_DECR does it */
    function Less(k: Key): Counters
      requires |dynamic| == PRCNT
    {
      if k.flags.allDst then
        if k.flags.prrNull then this.(prr := Down(prr)) else this.(snat := Down(snat))
      else
        this.(dynamic := dynamic[Index(k.proto) := Down(dynamic[Index(k.proto)])])
    }
  }

  /** What one entry more or less does to the parts that are counted */
  lemma PartsMore(s: set<Nat>, n: Nat)
    requires n !in s
    ensures forall i: nat ::
      |Exact(s + {n}, i)| == |Exact(s, i)| + if !n.key.flags.allDst && Index(n.key.proto) == i then 1 else 0
    ensures |Static(s + {n})| == |Static(s)| + if n.key.flags.allDst && !n.key.flags.prrNull then 1 else 0
    ensures |Prr(s + {n})| == |Prr(s)| + if n.key.flags.allDst && n.key.flags.prrNull then 1 else 0
  {
    hide Exact, Static, Prr, Index;
    forall i: nat
      ensures |Exact(s + {n}, i)| == |Exact(s, i)| + if !n.key.flags.allDst && Index(n.key.proto) == i then 1 else 0
    {
      ExactMore(s, n, i);
    }
    StaticMore(s, n);
    PrrMore(s, n);
  }

  lemma ExactMore(s: set<Nat>, n: Nat, i: nat)
    requires n !in s
    ensures |Exact(s + {n}, i)| == |Exact(s, i)| + if !n.key.flags.allDst && Index(n.key.proto) == i then 1 else 0
  {
    hide Index;
    assert Exact(s + {n}, i) ==
      if !n.key.flags.allDst && Index(n.key.proto) == i then Exact(s, i) + {n} else Exact(s, i);
  }

  lemma StaticMore(s: set<Nat>, n: Nat)
    requires n !in s
    ensures |Static(s + {n})| == |Static(s)| + if n.key.flags.allDst && !n.key.flags.prrNull then 1 else 0
  {
    assert Static(s + {n}) == if n.key.flags.allDst && !n.key.flags.prrNull then Static(s) + {n} else Static(s);
  }

  lemma PrrMore(s: set<Nat>, n: Nat)
    requires n !in s
    ensures |Prr(s + {n})| == |Prr(s)| + if n.key.flags.allDst && n.key.flags.prrNull then 1 else 0
  {
    assert Prr(s + {n}) == if n.key.flags.allDst && n.key.flags.prrNull then Prr(s) + {n} else Prr(s);
  }

  lemma CountMore(c: Counters, s: set<Nat>, n: Nat)
    requires c.Count(s) && n !in s
    ensures |c.dynamic| == PRCNT && c.More(n.key).Count(s + {n})
  {
    hide Exact, Static, Prr, Index;
    PartsMore(s, n);
  }

  lemma CountLess(c: Counters, s: set<Nat>, n: Nat)
    requires c.Count(s) && n in s
    ensures |c.dynamic| == PRCNT && c.Less(n.key).Count(s - {n})
  {
    hide Exact, Static, Prr, Index;
    PartsMore(s - {n}, n);
    assert s - {n} + {n} == s;
  }

  /** The counters add up to the number of entries, as the checking code of the program expects */
  lemma CountTotal(c: Counters, s: set<Nat>)
    requires c.Count(s)
    ensures c.dynamic[0] + c.dynamic[1] + c.dynamic[2] + c.snat + c.prr == |s|
  {
    hide Index;
    var dynamic, fixed := Exact(s, 0) + Exact(s, 1) + Exact(s, 2), Static(s) + Prr(s);
    forall n | n in s ensures n in dynamic || n in fixed {
      IndexRange(n.key.proto);
    }
    assert s == dynamic + fixed && dynamic !! fixed;
    Disjoint(Exact(s, 0), Exact(s, 1));
    Disjoint(Exact(s, 0) + Exact(s, 1), Exact(s, 2));
    Disjoint(Static(s), Prr(s));
    Disjoint(dynamic, fixed);
  }

  lemma IndexRange(proto: Byte)
    ensures 0 <= Index(proto) < PRCNT
  {
  }

  lemma Disjoint(a: set<Nat>, b: set<Nat>)
    requires a !! b
    ensures |a + b| == |a| + |b|
  {
  }

  class Nats {
    const b: Bindings
    const heap: Heap
    const cache: NatCache
    const bucketSize: seq<nat>
    const holdLifetime: int
    var counters: Counters

    /** The heap is no part of the indexes and ports */
    ghost predicate Clear()
      reads b.table, b.ports, heap
    {
      (this as object) !in b.Region() && (heap as object) !in b.Region() && (heap.heap as object) !in b.Region()
    }

    /** The heap holds exactly the entries that time out, and those due to come or to go */
    ghost predicate Timed(extra: set<Nat>)
      reads b.table`entries, heap, heap.heap, heap.entries`heapIndex, heap.entries`timeout
      reads b.table.entries`heapIndex, b.table.entries`timeout
    {
      && heap.Valid() && (forall n <- b.table.entries :: n !in extra ==> (n in heap.entries <==> n.timeout != 0))
      && (forall n <- heap.entries :: n in b.table.entries || n in extra)
      && (forall n <- extra :: n in heap.entries)
      && forall n <- b.table.entries :: n.timeout == 0 ==> n.heapIndex == 0
    }

    ghost predicate Valid()
      reads this, b.table, b.ports, b.Region(), heap, heap.heap, heap.entries, b.table.entries
    {
      && b.Valid() && Clear() && Timed({}) && counters.Count(b.table.entries)
      && Sized() && Sourced()
    }

    ghost predicate Sized() {
      |bucketSize| == PRCNT && forall i | 0 <= i < PRCNT :: 1 <= bucketSize[i] <= 255
    }

    /** A slot draws from a port range of its protocol */
    ghost predicate Sourced()
      reads b.ports
    {
      forall t <- b.ports.source :: b.ports.source[t].pr == t % PRCNT
    }

    /** The cache shares nothing with the rest, and is in order for the entries there are */
    ghost predicate Cached()
      reads b.table, b.ports, heap, cache, cache.slots, b.table.entries`hash
    {
      && (cache as object) !in b.Region() && (cache.slots as object) !in b.Region() && cache.slots != heap.heap
      && cache.Ok(b.table.entries)
    }

    constructor (bucketSize: seq<nat>, holdLifetime: int, cache: NatCache)
      requires |bucketSize| == PRCNT && forall i | 0 <= i < PRCNT :: 1 <= bucketSize[i] <= 255
      ensures Valid() && b.table.entries == {} && b.ports.ranges == map[] && b.ports.source == map[]
      ensures this.bucketSize == bucketSize && this.holdLifetime == holdLifetime && this.cache == cache
      ensures fresh(b.Region()) && fresh(heap) && fresh(heap.heap)
    {
      var bindings, h := Parts();
      bindings.Older();
      this.bucketSize, this.holdLifetime := bucketSize, holdLifetime;
      b, heap, this.cache := bindings, h, cache;
      counters := Counters([0, 0, 0], 0, 0);
      new;
      hide Bindings.Valid, Bindings.Region, Nats.Valid, Heap.Valid;
      AllEmpty();
    }

    lemma AllEmpty()
      requires b.Valid() && heap.Valid() && Clear() && Sized()
      requires b.table.entries == {} && heap.entries == {} && b.ports.source == map[]
      requires counters == Counters([0, 0, 0], 0, 0)
      ensures Valid()
    {
      hide Bindings.Valid, RegionOf, Counters.Count, Heap.Valid;
      NoneCounted();
    }

    static method Parts() returns (b: Bindings, h: Heap)
      ensures b.Valid() && h.Valid() && b.table.entries == {}
      ensures b.ports.source == map[] && b.ports.ranges == map[] && h.entries == {}
      ensures fresh(b) && fresh(b.table) && fresh(b.ports) && fresh(h) && fresh(h.heap) && fresh(b.Region())
      ensures (h as object) !in b.Region() && (h.heap as object) !in b.Region()
    {
      hide Bindings.Valid, Heap.Valid;
      b := new Bindings();
      b.Older();
      h := new Heap();
    }

    static lemma NoneCounted()
      ensures Counters([0, 0, 0], 0, 0).Count({})
    {
      assert Exact({}, 0) == Exact({}, 1) == Exact({}, 2) == Static({}) == Prr({}) == {};
    }

    /** nat_heap_insert on an entry not yet in the indexes */
    method HeapIn(n: Nat, ghost but: set<(Pool, int)>)
      requires b.ValidBut(but) && Clear() && Timed({}) && n !in b.table.entries && n.timeout != 0
      modifies heap, heap.heap, heap.entries`heapIndex, n`heapIndex
      ensures b.ValidBut(but) && Clear() && Timed({n}) && heap.entries == old(heap.entries) + {n}
      ensures b.Region() == old(b.Region())
      ensures heap.heap == old(heap.heap) || fresh(heap.heap)
    {
      hide Bindings.ValidBut, RegionOf;
      b.NatsOutside(heap.entries + {n});
      ghost var region := b.Region();
      b.Older();
      heap.Insert(n);
    }

    /** nat_heap_delete on an entry not, or no longer, in the indexes */
    method HeapOut(n: Nat, ghost but: set<(Pool, int)>)
      requires b.ValidBut(but) && Clear() && Timed({n}) && n !in b.table.entries
      modifies heap, heap.heap, heap.entries`heapIndex
      ensures b.ValidBut(but) && Clear() && Timed({}) && heap.entries == old(heap.entries) - {n}
      ensures heap.heap == old(heap.heap)
    {
      hide Bindings.ValidBut, RegionOf;
      b.NatsOutside(heap.entries);
      b.Older();
      heap.Index(n);
      assert n.heapIndex <= heap.last && heap.heap[n.heapIndex] == n;
      heap.Delete(n.heapIndex);
      assert heap.entries == old(heap.entries) - {n};
    }

    /** The port for a new entry with this key */
    method AllotFor(k: Key) returns (ok: bool, a: Pool, port: int, ghost draws: seq<int>)
      requires b.Valid() && Clear() && Timed({}) && Sized() && SlotOf(k) in b.ports.source
      modifies b.Region()
      ensures Clear() && b.Region() == old(b.Region()) && Timed({}) && b.table.entries == old(b.table.entries)
      ensures b.ports.source == old(b.ports.source) && b.ports.ranges == old(b.ports.ranges)
      ensures !ok ==> b.Valid() && b.ports.Owners() == old(b.ports.Owners())
      ensures Supply(old(b.ports.Owners()), old(b.ports.source), SlotOf(k), draws, ok)
      ensures ok ==> b.ValidBut({(a, port)}) && a == b.ports.source[SlotOf(k)] && a in b.ports.ranges
                     && port in b.ports.ranges[a].owner && b.ports.ranges[a].owner[port].Live?
                     && Allotted(old(b.ports.Owners()[a]), b.ports.Owners()[a], SlotOf(k), ok, port)
                     && b.ports.Owners() == old(b.ports.Owners())[a := b.ports.Owners()[a]] && 0 <= port <= 65535
    {
      hide Bindings.ValidBut, Bindings.Valid, RegionOf;
      b.NatsOutside(heap.entries + b.table.entries);
      b.Older();
      ok, a, port, draws := b.Allot(SlotOf(k), bucketSize[Index(k.proto)]);
    }

    /** The binding in the indexes, when its port is drawn and it is in the heap */
    method BindIn(n: Nat, ghost a: Pool, ghost port: int) returns (ok: bool)
      requires b.ValidBut({(a, port)}) && Clear() && Timed({n}) && n !in b.table.entries && Admissible(n.key)
      requires !n.key.flags.allDst
      requires SlotOf(n.key) in b.ports.source && Uses(n, a, port)
      requires n.timeout != 0
      requires a in b.ports.ranges && port in b.ports.ranges[a].owner && b.ports.ranges[a].owner[port].Live?
      modifies b.Region(), b.table.entries`left, b.table.entries`right, b.table.entries`parent, b.table.entries`red
      modifies b.table.entries`tleft, b.table.entries`tright, n`left, n`right, n`parent, n`red, n`tleft, n`tright
      ensures Clear() && b.Region() == old(b.Region()) && b.ports.Owners() == old(b.ports.Owners())
      ensures b.ports.source == old(b.ports.source) && b.ports.ranges == old(b.ports.ranges)
      ensures if ok then b.Valid() && b.table.entries == old(b.table.entries) + {n} && Timed({})
              else b.ValidBut({(a, port)}) && b.table.entries == old(b.table.entries) && Timed({n})
      ensures ok <==> forall m <- Of(old(b.table.entries), SlotOf(n.key)) :: SplayRank(m.key) != SplayRank(n.key)
    {
      hide Bindings.ValidBut, Bindings.Valid, RegionOf, SplayRank;
      b.NatsOutside(heap.entries + b.table.entries + {n});
      ok := b.Bind(n, a, port);
    }

    /** new_nat.  It fails when the pool yields no port, or when the tunnel has an entry for the
        same packet already; the port is then on hold. */
    method NewNat(k: Key, timeout: int, lifetime: nat, now: int) returns (n: Nat?, ghost draws: seq<int>)
      requires Valid() && Template(k) && k.dst != NO_ADDR && !k.flags.prrNull && timeout != 0
      requires SlotOf(k) in b.ports.source
      modifies this`counters, b.Region(), heap, heap.heap, heap.entries`heapIndex
      modifies b.table.entries`left, b.table.entries`right, b.table.entries`parent, b.table.entries`red
      modifies b.table.entries`tleft, b.table.entries`tright
      ensures Valid() && b.ports.source == old(b.ports.source) && b.ports.ranges == old(b.ports.ranges)
      ensures n != null ==>
        && fresh(n) && b.table.entries == old(b.table.entries) + {n} && n.timeout == timeout && n.lifetime == lifetime
        && n.key == k.(nsrc := b.ports.source[SlotOf(k)].addr, nport := n.key.nport) && InRange(b.ports.Owners(), n.key)
        && n.generation == 0 && n.tcpst == TcpState(false, false, false)
      ensures n == null ==> b.table.entries == old(b.table.entries)
      ensures n == null && (forall m <- Of(b.table.entries, SlotOf(k)) :: SplayCompareWild(k, m.key) != 0) ==>
        b.ports.Owners() == old(b.ports.Owners())
      ensures (forall m <- Of(old(b.table.entries), SlotOf(k)) :: SplayCompareWild(k, m.key) != 0) ==>
        Supply(old(b.ports.Owners()), old(b.ports.source), SlotOf(k), draws, n != null)
      ensures Changed(old(b.ports.Owners()), b.ports.Owners(), now, holdLifetime)
      ensures b.Region() == old(b.Region()) && (heap.heap == old(heap.heap) || fresh(heap.heap))
    {
      hide Bindings.ValidBut, Bindings.Valid, RegionOf, SplayRank, SplayCompareWild, Timed, Counters.Count,
        Changed, Allotted, Of, Supply;
      var ok, a, port;
      ok, a, port, draws := AllotFor(k);
      if !ok {
        Unchanged(b.ports.Owners(), now, holdLifetime);
        n := null;
        return;
      }
      b.Older();
      SlotProto(k);
      ghost var o := b.ports.Owners();
      n := new Nat(k.(nsrc := a.addr, nport := PortOf(port)), timeout, lifetime, 0);
      b.AllAdmissible({(a, port)});
      NoCollision(b.table.entries, k, n.key);
      ok := Place(n, a, port, now);
      if ok {
        Bound(old(b.ports.Owners()), o, a, port, SlotOf(k), now, holdLifetime);
      } else {
        n := null;
        Failed(old(b.ports.Owners()), o, a, port, SlotOf(k), now, holdLifetime);
      }
    }

    /** Into the heap and both trees; after a collision the port goes on hold */
    method Place(n: Nat, a: Pool, port: int, now: int) returns (ok: bool)
      requires b.ValidBut({(a, port)}) && Clear() && Timed({}) && n !in b.table.entries && Admissible(n.key)
      requires !n.key.flags.allDst
      requires counters.Count(b.table.entries) && n.timeout != 0
      requires SlotOf(n.key) in b.ports.source && Uses(n, a, port)
      requires a in b.ports.ranges && port in b.ports.ranges[a].owner && b.ports.ranges[a].owner[port].Live?
      modifies this`counters, b.Region(), heap, heap.heap, heap.entries`heapIndex
      modifies b.table.entries`left, b.table.entries`right, b.table.entries`parent, b.table.entries`red
      modifies b.table.entries`tleft, b.table.entries`tright
      modifies n`heapIndex, n`left, n`right, n`parent, n`red, n`tleft, n`tright
      ensures b.Valid() && Clear() && Timed({}) && counters.Count(b.table.entries)
      ensures b.Region() == old(b.Region()) && (heap.heap == old(heap.heap) || fresh(heap.heap))
      ensures b.ports.source == old(b.ports.source) && b.ports.ranges == old(b.ports.ranges)
      ensures b.table.entries == if ok then old(b.table.entries) + {n} else old(b.table.entries)
      ensures b.ports.Owners() == if ok then old(b.ports.Owners())
        else Released(old(b.ports.Owners()), a, port, now + holdLifetime)
      ensures ok <==> forall m <- Of(old(b.table.entries), SlotOf(n.key)) :: SplayRank(m.key) != SplayRank(n.key)
    {
      hide Bindings.ValidBut, Bindings.Valid, RegionOf, SplayRank, Timed, Counters.Count, Of;
      ghost var o: map<Pool, Owners> := b.ports.Owners();
      assert o[a][port].Live?;
      HeapIn(n, {(a, port)});
      ok := BindIn(n, a, port);
      if ok {
        CountMore(counters, old(b.table.entries), n);
        counters := counters.More(n.key);
      } else {
        assert b.ports.Owners() == o;
        Undo(n, a, port, now);
      }
    }

    /** The failure path: out of the heap, and the port on hold */
    method Undo(n: Nat, a: Pool, port: int, now: int)
      requires b.ValidBut({(a, port)}) && Clear() && Timed({n}) && n !in b.table.entries
      requires a in b.ports.ranges && port in b.ports.ranges[a].owner && b.ports.ranges[a].owner[port].Live?
      modifies b.Region(), heap, heap.heap, heap.entries`heapIndex
      ensures heap.heap == old(heap.heap)
      ensures b.Valid() && Clear() && b.Region() == old(b.Region()) && Timed({})
      ensures b.table.entries == old(b.table.entries)
      ensures b.ports.source == old(b.ports.source) && b.ports.ranges == old(b.ports.ranges)
      ensures b.ports.Owners() == Released(old(b.ports.Owners()), a, port, now + holdLifetime)
    {
      hide Bindings.ValidBut, Bindings.Valid, RegionOf, Timed;
      HeapOut(n, {(a, port)});
      Release(a, port, now + holdLifetime);
    }

    method Release(a: Pool, port: int, until: int)
      requires b.ValidBut({(a, port)}) && Clear() && Timed({})
      requires a in b.ports.ranges && port in b.ports.ranges[a].owner && b.ports.ranges[a].owner[port].Live?
      modifies b.Region()
      ensures b.Valid() && Clear() && b.Region() == old(b.Region()) && Timed({})
      ensures b.table.entries == old(b.table.entries)
      ensures b.ports.source == old(b.ports.source) && b.ports.ranges == old(b.ports.ranges)
      ensures b.ports.Owners() == Released(old(b.ports.Owners()), a, port, until)
    {
      hide Bindings.ValidBut, Bindings.Valid, RegionOf;
      b.NatsOutside(heap.entries + b.table.entries);
      b.Release(a, port, until);
    }

    /** Out of both trees, the port on hold */
    method BindOut(n: Nat, until: int)
      requires b.Valid() && Clear() && Timed({}) && n in b.table.entries
      modifies b.Region(), b.table.entries`left, b.table.entries`right, b.table.entries`parent, b.table.entries`red
      modifies b.table.entries`tleft, b.table.entries`tright
      ensures b.Valid() && Clear() && b.Region() == old(b.Region()) && b.table.entries == old(b.table.entries) - {n}
      ensures Timed(if n.timeout != 0 then {n} else {}) && (n.heapIndex != 0 <==> n.timeout != 0)
      ensures b.ports.source == old(b.ports.source) && b.ports.ranges == old(b.ports.ranges)
      ensures Dropped(old(b.ports.Owners()), b.ports.Owners(), until)
    {
      hide Bindings.ValidBut, Bindings.Valid, RegionOf;
      b.NatsOutside(heap.entries + b.table.entries);
      b.OwnedEntry(n);
      b.Unbind(n, until);
      Unbound(old(b.ports.Owners()), n.key, until);
    }

    /** del_nat */
    method DelIndexed(n: Nat, now: int)
      requires Valid() && n in b.table.entries
      modifies this`counters, b.Region(), heap, heap.heap, heap.entries`heapIndex
      modifies b.table.entries`left, b.table.entries`right, b.table.entries`parent, b.table.entries`red
      modifies b.table.entries`tleft, b.table.entries`tright
      ensures Valid() && b.Region() == old(b.Region()) && heap.heap == old(heap.heap)
      ensures b.table.entries == old(b.table.entries) - {n}
      ensures b.ports.source == old(b.ports.source) && b.ports.ranges == old(b.ports.ranges)
      ensures Dropped(old(b.ports.Owners()), b.ports.Owners(), now + holdLifetime)
      ensures forall m <- old(b.table.entries) ::
        m.timeout == old(m.timeout) && m.hash == old(m.hash) && m.generation == old(m.generation)
    {
      hide Bindings.ValidBut, Bindings.Valid, Bindings.Region, Timed, Counters.Count, Dropped;
      CountLess(counters, b.table.entries, n);
      counters := counters.Less(n.key);
      Detach(n, now);
    }

    /** Out of both trees and the heap */
    method Detach(n: Nat, now: int)
      requires b.Valid() && Clear() && Timed({}) && n in b.table.entries
      modifies b.Region(), heap, heap.heap, heap.entries`heapIndex
      modifies b.table.entries`left, b.table.entries`right, b.table.entries`parent, b.table.entries`red
      modifies b.table.entries`tleft, b.table.entries`tright
      ensures b.Valid() && Clear() && Timed({}) && b.Region() == old(b.Region()) && heap.heap == old(heap.heap)
      ensures b.table.entries == old(b.table.entries) - {n}
      ensures b.ports.source == old(b.ports.source) && b.ports.ranges == old(b.ports.ranges)
      ensures Dropped(old(b.ports.Owners()), b.ports.Owners(), now + holdLifetime)
      ensures forall m <- old(b.table.entries) ::
        m.timeout == old(m.timeout) && m.hash == old(m.hash) && m.generation == old(m.generation)
    {
      hide Bindings.ValidBut, Bindings.Valid, RegionOf, Timed, Dropped;
      b.NatsOutside(b.table.entries);
      b.ToBut();
      BindOut(n, now + holdLifetime);
      if n.heapIndex != 0 {
        b.ToBut();
        HeapOut(n, {});
        b.FromBut();
      }
    }

    /** del_nat: out of the cache as well */
    method DelNat(n: Nat, now: int)
      requires Valid() && Cached() && n in b.table.entries
      modifies this`counters, b.Region(), heap, heap.heap, heap.entries`heapIndex, cache.slots
      modifies b.table.entries`left, b.table.entries`right, b.table.entries`parent, b.table.entries`red
      modifies b.table.entries`tleft, b.table.entries`tright
      ensures Valid() && Cached() && cache.slots == old(cache.slots) && b.Region() == old(b.Region())
      ensures heap.heap == old(heap.heap)
      ensures b.table.entries == old(b.table.entries) - {n}
      ensures b.ports.source == old(b.ports.source) && b.ports.ranges == old(b.ports.ranges)
      ensures Dropped(old(b.ports.Owners()), b.ports.Owners(), now + holdLifetime)
      ensures forall m <- old(b.table.entries) ::
        m.timeout == old(m.timeout) && m.hash == old(m.hash) && m.generation == old(m.generation)
      ensures Changed(old(b.ports.Owners()), b.ports.Owners(), now, holdLifetime)
      ensures forall i | 0 <= i < cache.slots.Length ::
        cache.slots[i] == if old(cache.slots[i]) == n then null else old(cache.slots[i])
    {
      hide Nats.Valid, RegionOf, Dropped, NatCache.Ok, Changed;
      b.Older();
      b.NatsOutside(b.table.entries);
      Outside();
      cache.Forget(b.table.entries, n);
      DelIndexed(n, now);
      DroppedChanged(old(b.ports.Owners()), b.ports.Owners(), now, holdLifetime);
    }

    /** free_heldnats, and then the loop over the heap: what has timed out goes, and nothing else */
    method Expire(now: int)
      requires Valid() && Cached()
      modifies this`counters, b.Region(), heap, heap.heap, heap.entries`heapIndex, b.table.entries`heapIndex
      modifies cache.slots
      modifies b.table.entries`left, b.table.entries`right, b.table.entries`parent, b.table.entries`red
      modifies b.table.entries`tleft, b.table.entries`tright
      ensures Valid() && Cached() && cache.slots == old(cache.slots) && b.ports.source == old(b.ports.source)
      ensures b.ports.ranges == old(b.ports.ranges)
      ensures b.table.entries == set n | n in old(b.table.entries) && (old(n.timeout) == 0 || old(n.timeout) >= now)
      ensures Freed(old(b.ports.Owners()), b.ports.Owners(), now, now + holdLifetime)
      ensures forall a <- b.ports.ranges ::
        InOrder(old(b.ports.Owners())[a]) ==> OverFreed(old(b.ports.Owners())[a], b.ports.Owners()[a], now)
      ensures Changed(old(b.ports.Owners()), b.ports.Owners(), now, holdLifetime)
      ensures forall n <- b.table.entries :: n.timeout == old(n.timeout)
      ensures forall n <- heap.entries :: n.timeout >= now
      ensures b.Region() == old(b.Region())
    {
      hide Nats.Valid, Nats.Cached, Dropped, Freed, FreedAll, Changed, SameTimeouts, Lapsed, RegionOf, Timeouts,
        InOrder, OverFreed;
      b.NatsOutside(b.table.entries);
      Outside();
      FirstTimeouts(now);
      ghost var g := Timeouts();
      FreeHelds(now);
      ghost var o := b.ports.Owners();
      HeapWithin();
      Reap(now, g);
      FreedThenDropped(old(b.ports.Owners()), o, b.ports.Owners(), now, now + holdLifetime);
      FreedChanged(old(b.ports.Owners()), b.ports.Owners(), now, holdLifetime);
      AllOver(old(b.ports.Owners()), b.ports.Owners(), now, now + holdLifetime);
      AllLapsed(g, now);
    }

    ghost function Timeouts(): map<Nat, int>
      reads b.table, b.table.entries
    {
      map n | n in b.table.entries :: n.timeout
    }

    /** The timeouts are those in g */
    ghost predicate SameTimeouts(g: map<Nat, int>)
      reads b.table`entries, b.table.entries`timeout
    {
      forall n <- b.table.entries :: n in g && n.timeout == g[n]
    }

    lemma FirstTimeouts(now: int)
      ensures SameTimeouts(Timeouts()) && Lapsed(Timeouts(), b.table.entries, now) && Timeouts().Keys == b.table.entries
      ensures forall n <- b.table.entries :: Timeouts()[n] == n.timeout
    {
    }

    /** When the heap holds none that has timed out, just those that have are gone */
    lemma AllLapsed(g: map<Nat, int>, now: int)
      requires Valid() && SameTimeouts(g) && Lapsed(g, b.table.entries, now)
      requires forall n <- heap.entries :: n.timeout >= now
      ensures b.table.entries == set n | n in g && (g[n] == 0 || g[n] >= now)
      ensures forall n <- b.table.entries :: n in g && n.timeout == g[n]
    {
    }

    /** The loop over the heap */
    method Reap(now: int, ghost g: map<Nat, int>)
      requires Valid() && Cached() && SameTimeouts(g) && Lapsed(g, b.table.entries, now)
      modifies this`counters, b.Region(), heap, heap.heap, heap.entries`heapIndex, b.table.entries`heapIndex
      modifies cache.slots
      modifies b.table.entries`left, b.table.entries`right, b.table.entries`parent, b.table.entries`red
      modifies b.table.entries`tleft, b.table.entries`tright
      ensures Valid() && Cached() && cache.slots == old(cache.slots) && b.ports.source == old(b.ports.source)
      ensures b.ports.ranges == old(b.ports.ranges)
      ensures SameTimeouts(g) && Lapsed(g, b.table.entries, now)
      ensures Dropped(old(b.ports.Owners()), b.ports.Owners(), now + holdLifetime)
      ensures forall n <- heap.entries :: n.timeout >= now
      ensures b.Region() == old(b.Region())
    {
      hide Nats.Valid, Dropped, SameTimeouts, Lapsed, RegionOf;
      ghost var o, region := b.ports.Owners(), b.Region();
      SameDropped(o, now + holdLifetime);
      var n := First();
      while n != null && n.timeout < now
        invariant Valid() && Cached() && cache.slots == old(cache.slots) && b.Region() == region
        invariant heap.heap == old(heap.heap)
        invariant b.ports.source == old(b.ports.source) && b.ports.ranges == old(b.ports.ranges)
        invariant b.table.entries <= old(b.table.entries) && SameTimeouts(g) && Lapsed(g, b.table.entries, now)
        invariant Dropped(o, b.ports.Owners(), now + holdLifetime)
        invariant heap.entries <= b.table.entries && (n == null ==> heap.entries == {})
        invariant n != null ==>
          n in b.table.entries && n.timeout != 0 && forall m <- heap.entries :: n.timeout <= m.timeout
        decreases |b.table.entries|
      {
        ghost var before := b.ports.Owners();
        ReapOne(n, now, g);
        DroppedTwice(o, before, b.ports.Owners(), now + holdLifetime);
        n := First();
      }
    }

    /** The entry that times out first */
    method First() returns (n: Nat?)
      requires Valid() && Cached()
      ensures Valid() && Cached() && cache.slots == old(cache.slots) && b.Region() == old(b.Region())
      ensures heap.entries <= b.table.entries && (n == null ==> heap.entries == {})
      ensures n != null ==> n in b.table.entries && n.timeout != 0 && forall m <- heap.entries :: n.timeout <= m.timeout
    {
      hide Bindings.Valid, Counters.Count;
      b.Older();
      n := heap.Earliest();
    }

    method ReapOne(n: Nat, now: int, ghost g: map<Nat, int>)
      requires Valid() && Cached() && n in b.table.entries && n.timeout != 0 && n.timeout < now && SameTimeouts(g)
      requires Lapsed(g, b.table.entries, now)
      modifies this`counters, b.Region(), heap, heap.heap, heap.entries`heapIndex, cache.slots
      modifies b.table.entries`left, b.table.entries`right, b.table.entries`parent, b.table.entries`red
      modifies b.table.entries`tleft, b.table.entries`tright
      ensures Valid() && Cached() && cache.slots == old(cache.slots) && b.Region() == old(b.Region())
      ensures heap.heap == old(heap.heap) && b.table.entries == old(b.table.entries) - {n}
      ensures b.ports.source == old(b.ports.source) && b.ports.ranges == old(b.ports.ranges)
      ensures Dropped(old(b.ports.Owners()), b.ports.Owners(), now + holdLifetime)
      ensures SameTimeouts(g) && Lapsed(g, b.table.entries, now)
    {
      hide Nats.Valid, Dropped, RegionOf;
      DelNat(n, now);
    }

    method FreeHelds(now: int)
      requires Valid() && Cached()
      modifies b.Region()
      ensures Valid() && Cached() && cache.slots == old(cache.slots) && b.Region() == old(b.Region())
      ensures b.table.entries == old(b.table.entries)
      ensures b.ports.source == old(b.ports.source) && b.ports.ranges == old(b.ports.ranges)
      ensures FreedAll(old(b.ports.Owners()), b.ports.Owners(), now)
    {
      hide Bindings.ValidBut, Bindings.Valid, RegionOf, Counters.Count;
      b.NatsOutside(heap.entries + b.table.entries);
      b.FreeHelds(now);
    }

    method BindStatic(n: Nat) returns (ok: bool)
      requires b.Valid() && Clear() && Timed({}) && n !in b.table.entries && n.timeout == 0 && n.heapIndex == 0
      requires Admissible(n.key) && n.key.flags.allDst && SlotOf(n.key) in b.ports.source
      requires PoolOf(n.key) in b.ports.ranges && !InRange(b.ports.Owners(), n.key) && n !in heap.entries
      modifies b.Region(), b.table.entries`left, b.table.entries`right, b.table.entries`parent, b.table.entries`red
      modifies b.table.entries`tleft, b.table.entries`tright, n`left, n`right, n`parent, n`red, n`tleft, n`tright
      ensures b.Valid() && Clear() && Timed({}) && b.ports.Owners() == old(b.ports.Owners())
      ensures b.ports.source == old(b.ports.source) && b.ports.ranges == old(b.ports.ranges)
      ensures b.table.entries == if ok then old(b.table.entries) + {n} else old(b.table.entries)
      ensures ok <==>
              && (forall m <- OfIndex(old(b.table.entries), Index(n.key.proto)) :: TreeRank(m.key) != TreeRank(n.key))
              && (forall m <- Of(old(b.table.entries), SlotOf(n.key)) :: SplayRank(m.key) != SplayRank(n.key))
      ensures b.Region() == old(b.Region())
    {
      hide Bindings.ValidBut, Bindings.Valid, RegionOf, SplayRank, TreeRank, Of, OfIndex, InRange;
      b.NatsOutside(heap.entries + b.table.entries + {n});
      ok := b.AddStatic(n);
    }

    /** The insertions of add_snat0 and add_prr */
    method EnterStatic(k: Key, generation: nat) returns (n: Nat?)
      requires Valid() && Admissible(k) && k.flags.allDst && SlotOf(k) in b.ports.source
      requires PoolOf(k) in b.ports.ranges && !InRange(b.ports.Owners(), k)
      modifies this`counters, b.Region(), b.table.entries`left, b.table.entries`right, b.table.entries`parent
      modifies b.table.entries`red
      modifies b.table.entries`tleft, b.table.entries`tright
      ensures Valid() && b.ports.source == old(b.ports.source) && b.ports.ranges == old(b.ports.ranges)
      ensures b.ports.Owners() == old(b.ports.Owners())
      ensures n != null <==>
              && (forall m <- OfIndex(old(b.table.entries), Index(k.proto)) :: TreeRank(m.key) != TreeRank(k))
              && (forall m <- Of(old(b.table.entries), SlotOf(k)) :: SplayRank(m.key) != SplayRank(k))
      ensures n == null ==> b.table.entries == old(b.table.entries)
      ensures n != null ==> fresh(n) && n.key == k && n.timeout == 0 && n.generation == generation
                            && b.table.entries == old(b.table.entries) + {n}
      ensures b.Region() == old(b.Region())
    {
      hide Bindings.ValidBut, Bindings.Valid, RegionOf, SplayRank, TreeRank, Counters.Count, Of, OfIndex,
        InRange, Timed;
      b.Older();
      n := new Nat(k, 0, 0, generation);
      var ok := BindStatic(n);
      if ok {
        CountMore(counters, old(b.table.entries), n);
        counters := counters.More(k);
      } else {
        n := null;
      }
    }

    /** The tunnel is there, for all protocols, or it can be set up with the pool of an address */
    ghost predicate Housed(tunnel: int, addr: Quad)
      reads b.ports
    {
      || (forall i: nat | i < PRCNT :: Slot(tunnel, i) in b.ports.source)
      || forall i: nat | i < PRCNT :: Slot(tunnel, i) !in b.ports.source && Pool(addr, i) in b.ports.ranges
    }

    /** The tunnel of a static entry, set up with the pool of an address if it is not there */
    method HouseTunnel(k: Key, addr: Quad)
      requires Valid() && Housed(k.tunnel, addr)
      modifies b.Region()
      ensures Valid() && SlotOf(k) in b.ports.source && b.table.entries == old(b.table.entries)
      ensures b.ports.Owners() == old(b.ports.Owners()) && b.ports.ranges == old(b.ports.ranges)
      ensures b.ports.source == WithTunnel(old(b.ports.source), k.tunnel, addr)
      ensures forall x <- b.Region() :: x in old(b.Region()) || fresh(x)
      ensures old(SlotOf(k) in b.ports.source) ==> b.Region() == old(b.Region())
      ensures old(Cached()) ==> Cached()
    {
      hide Nats.Valid, Cached, RegionOf, Slot;
      b.Older();
      IndexRange(k.proto);
      if SlotOf(k) !in b.ports.source {
        AddTunnel(k.tunnel, addr);
      }
    }

    /** add_snat0 and add_prr.  The tunnel is set up if it is not there, with the pool of the static entry, or, for
        add_prr, with the one whose turn it is. */
    method AddStatic(k: Key, addr: Quad, generation: nat) returns (n: Nat?)
      requires Valid() && Cached() && Admissible(k) && k.flags.allDst && (!k.flags.prrNull ==> addr == k.nsrc)
      requires PoolOf(k) in b.ports.ranges ==> Housed(k.tunnel, addr)
      modifies this`counters, b.Region(), b.table.entries`left, b.table.entries`right, b.table.entries`parent
      modifies b.table.entries`red
      modifies b.table.entries`tleft, b.table.entries`tright
      ensures Valid() && Cached() && b.ports.ranges == old(b.ports.ranges) && b.ports.Owners() == old(b.ports.Owners())
      ensures n != null <==>
              && PoolOf(k) in b.ports.ranges && !InRange(b.ports.Owners(), k)
              && (forall m <- OfIndex(old(b.table.entries), Index(k.proto)) :: TreeRank(m.key) != TreeRank(k))
              && (forall m <- Of(old(b.table.entries), SlotOf(k)) :: SplayRank(m.key) != SplayRank(k))
      ensures n == null ==> b.table.entries == old(b.table.entries)
      ensures n != null ==> fresh(n) && n.key == k && n.timeout == 0 && n.generation == generation
                            && b.table.entries == old(b.table.entries) + {n}
      ensures b.ports.source == if PoolOf(k) in b.ports.ranges && !InRange(b.ports.Owners(), k)
        then WithTunnel(old(b.ports.source), k.tunnel, addr)
        else old(b.ports.source)
      ensures forall x <- b.Region() :: x in old(b.Region()) || fresh(x)
      ensures old(SlotOf(k) in b.ports.source) ==> b.Region() == old(b.Region())
    {
      hide Bindings.Valid, Nats.Timed, Counters.Count, NatCache.Ok, RegionOf, SplayRank, TreeRank, Of, OfIndex, InRange,
        Slot, WithTunnel, Housed;
      var a := PoolOf(k);
      if a !in b.ports.ranges {
        return null;
      }
      var port := k.nport.Value();
      b.DynamicPort(k);
      if b.ports.ranges[a].minport <= port <= b.ports.ranges[a].maxport {
        return null;
      }
      b.NatsOutside(b.table.entries);
      Outside();
      HouseTunnel(k, addr);
      CacheOutside();
      n := EnterStatic(k, generation);
      CacheGrows(old(b.table.entries));
    }

    /** The port range of a new pool for one protocol */
    method AddRange(a: Pool, minport: nat, maxport: nat)
      requires Valid() && a !in b.ports.ranges && minport <= maxport <= 65535
      modifies b.Region()
      ensures Valid() && b.table.entries == old(b.table.entries) && b.ports.source == old(b.ports.source)
      ensures a in b.ports.ranges && b.ports.ranges == old(b.ports.ranges)[a := b.ports.ranges[a]]
      ensures b.Spans(a, minport, maxport)
      ensures fresh(b.Region() - old(b.Region()))
      ensures Extended(old(b.ports.Owners()), b.ports.Owners())
      ensures old(Cached()) ==> Cached()
    {
      hide Bindings.ValidBut, Bindings.Valid, RegionOf, Counters.Count, NatCache.Ok;
      b.NatsOutside(heap.entries + b.table.entries);
      b.AddPool(a, minport, maxport);
      MoreRanges(b.table, b.ports, b.table.splays, old(b.ports.ranges), b.ports.buckets, a, b.ports.ranges[a]);
    }

    /** add_pool */
    method AddPool(addr: Quad, minports: seq<nat>, maxports: seq<nat>)
      requires Valid() && |minports| == |maxports| == PRCNT
      requires forall i: nat | i < PRCNT :: minports[i] <= maxports[i] <= 65535 && Pool(addr, i) !in b.ports.ranges
      modifies b.Region()
      ensures Valid() && b.table.entries == old(b.table.entries) && b.ports.source == old(b.ports.source)
      ensures b.ports.ranges.Keys == old(b.ports.ranges).Keys + {Pool(addr, 0), Pool(addr, 1), Pool(addr, 2)}
      ensures forall a <- old(b.ports.ranges) :: a in b.ports.ranges && b.ports.ranges[a] == old(b.ports.ranges)[a]
      ensures b.Spans(Pool(addr, 0), minports[0], maxports[0]) && b.Spans(Pool(addr, 1), minports[1], maxports[1])
      ensures b.Spans(Pool(addr, 2), minports[2], maxports[2])
      ensures Extended(old(b.ports.Owners()), b.ports.Owners())
      ensures forall x <- b.Region() :: x in old(b.Region()) || fresh(x)
      ensures old(Cached()) ==> Cached()
    {
      hide Nats.Valid, Bindings.Region, Extended, Cached;
      ghost var o, r := b.ports.Owners(), b.Region();
      AddRange(Pool(addr, 0), minports[0], maxports[0]);
      ghost var o1, r1 := b.ports.Owners(), b.Region();
      label L1:
      AddRange(Pool(addr, 1), minports[1], maxports[1]);
      ghost var o2, r2 := b.ports.Owners(), b.Region();
      label L2:
      AddRange(Pool(addr, 2), minports[2], maxports[2]);
      b.Older();
      forall x | x in b.Region() ensures x in r || fresh(x) {
        assert x in r || x in r1 - r || (x in r2 - r1 && fresh@L1(x)) || (x in b.Region() - r2 && fresh@L2(x));
      }
      ExtendedTwice(o, o1, o2);
      ExtendedTwice(o, o2, b.ports.Owners());
    }

    method AddSlot(t: int, a: Pool)
      requires Valid() && t !in b.ports.source && a in b.ports.ranges && a.pr == t % PRCNT
      modifies b.Region()
      ensures Valid() && b.table.entries == old(b.table.entries) && b.ports.Owners() == old(b.ports.Owners())
      ensures b.ports.source == old(b.ports.source)[t := a] && b.ports.ranges == old(b.ports.ranges)
      ensures fresh(b.Region() - old(b.Region()))
      ensures old(Cached()) ==> Cached()
    {
      hide Bindings.ValidBut, Bindings.Valid, RegionOf, Counters.Count, NatCache.Ok;
      b.NatsOutside(heap.entries + b.table.entries);
      b.AddSlot(t, a);
      MoreSlots(b.table, b.ports, old(b.table.splays), b.ports.ranges, old(b.ports.buckets),
        t, b.table.splays[t], b.ports.buckets[t]);
    }

    /** The NAT side of add_stdtunnel */
    method AddTunnel(tunnel: int, addr: Quad)
      requires Valid()
      requires forall i: nat | i < PRCNT :: Slot(tunnel, i) !in b.ports.source && Pool(addr, i) in b.ports.ranges
      modifies b.Region()
      ensures Valid() && b.table.entries == old(b.table.entries) && b.ports.Owners() == old(b.ports.Owners())
      ensures b.ports.source ==
        old(b.ports.source)[Slot(tunnel, 0) := Pool(addr, 0)][Slot(tunnel, 1) := Pool(addr, 1)]
          [Slot(tunnel, 2) := Pool(addr, 2)]
      ensures b.ports.ranges == old(b.ports.ranges) && forall x <- b.Region() :: x in old(b.Region()) || fresh(x)
      ensures old(Cached()) ==> Cached()
    {
      hide Nats.Valid, Slot, Bindings.Region, Cached;
      SlotsDiffer(tunnel);
      assert Slot(tunnel, 0) != Slot(tunnel, 1) && Slot(tunnel, 0) != Slot(tunnel, 2)
        && Slot(tunnel, 1) != Slot(tunnel, 2);
      ghost var r := b.Region();
      AddSlot(Slot(tunnel, 0), Pool(addr, 0));
      ghost var r1 := b.Region();
      label L1:
      AddSlot(Slot(tunnel, 1), Pool(addr, 1));
      ghost var r2 := b.Region();
      label L2:
      AddSlot(Slot(tunnel, 2), Pool(addr, 2));
      b.Older();
      forall x | x in b.Region() ensures x in r || fresh(x) {
        assert x in r || x in r1 - r || (x in r2 - r1 && fresh@L1(x)) || (x in b.Region() - r2 && fresh@L2(x));
      }
    }

    /** All entries in a slot are deleted, root after root */
    method ClearSlot(t: int, now: int)
      requires Valid() && Cached() && t in b.ports.source
      modifies this`counters, b.Region(), heap, heap.heap, heap.entries`heapIndex, b.table.entries`heapIndex
      modifies cache.slots
      modifies b.table.entries`left, b.table.entries`right, b.table.entries`parent, b.table.entries`red
      modifies b.table.entries`tleft, b.table.entries`tright
      ensures Valid() && Cached() && cache.slots == old(cache.slots) && b.Region() == old(b.Region())
      ensures heap.heap == old(heap.heap)
      ensures b.ports.source == old(b.ports.source) && b.ports.ranges == old(b.ports.ranges)
      ensures Of(b.table.entries, t) == {} && b.table.entries == old(b.table.entries) - Of(old(b.table.entries), t)
      ensures Dropped(old(b.ports.Owners()), b.ports.Owners(), now + holdLifetime)
    {
      hide Bindings.ValidBut, Bindings.Valid, RegionOf, Counters.Count, Dropped, Of, SlotOf;
      SameDropped(b.ports.Owners(), now + holdLifetime);
      b.RootOf(t);
      var n := b.table.splays[t].root;
      while n != null
        invariant Valid() && Cached() && cache.slots == old(cache.slots) && b.Region() == old(b.Region())
        invariant heap.heap == old(heap.heap)
        invariant b.ports.source == old(b.ports.source) && b.ports.ranges == old(b.ports.ranges)
        invariant b.table.entries <= old(b.table.entries)
        invariant forall m <- old(b.table.entries) - b.table.entries :: SlotOf(m.key) == t
        invariant Dropped(old(b.ports.Owners()), b.ports.Owners(), now + holdLifetime)
        invariant n != null ==> n in Of(b.table.entries, t)
        invariant n == null ==> Of(b.table.entries, t) == {}
        decreases |b.table.entries|
      {
        ghost var before := b.ports.Owners();
        InSlot(b.table.entries, n, t);
        DelNat(n, now);
        DroppedTwice(old(b.ports.Owners()), before, b.ports.Owners(), now + holdLifetime);
        b.RootOf(t);
        n := b.table.splays[t].root;
      }
      NoneLeft(old(b.table.entries), b.table.entries, t);
    }

    /** The NAT side of del_tunnel, for one protocol */
    method DelSlot(t: int, now: int)
      requires Valid() && Cached() && t in b.ports.source
      modifies this`counters, b.Region(), heap, heap.heap, heap.entries`heapIndex, b.table.entries`heapIndex
      modifies cache.slots
      modifies b.table.entries`left, b.table.entries`right, b.table.entries`parent, b.table.entries`red
      modifies b.table.entries`tleft, b.table.entries`tright
      ensures Valid() && Cached() && cache.slots == old(cache.slots) && b.Region() <= old(b.Region())
      ensures heap.heap == old(heap.heap)
      ensures b.ports.source == old(b.ports.source) - {t} && b.ports.ranges == old(b.ports.ranges)
      ensures b.table.entries == old(b.table.entries) - Of(old(b.table.entries), t)
      ensures Withdrawn(old(b.ports.Owners()), b.ports.Owners(), {t}, now + holdLifetime)
    {
      hide Bindings.ValidBut, Bindings.Valid, RegionOf, Counters.Count, Dropped, Of;
      ClearSlot(t, now);
      b.NatsOutside(heap.entries + b.table.entries);
      ghost var o, splays, buckets := b.ports.Owners(), b.table.splays, b.ports.buckets;
      b.RemoveSlot(t);
      FewerSlots(b.table, b.ports, splays, b.ports.ranges, buckets, t);
      DroppedReturned(old(b.ports.Owners()), o, b.ports.Owners(), t, now + holdLifetime);
    }

    /** The NAT side of del_tunnel: its entries go, and no others */
    method DelTunnel(tunnel: int, now: int)
      requires Valid() && Cached() && forall i: nat | i < PRCNT :: Slot(tunnel, i) in b.ports.source
      modifies this`counters, b.Region(), heap, heap.heap, heap.entries`heapIndex, b.table.entries`heapIndex
      modifies cache.slots
      modifies b.table.entries`left, b.table.entries`right, b.table.entries`parent, b.table.entries`red
      modifies b.table.entries`tleft, b.table.entries`tright
      ensures Valid() && Cached() && cache.slots == old(cache.slots) && b.ports.ranges == old(b.ports.ranges)
      ensures b.ports.source == old(b.ports.source) - {Slot(tunnel, 0)} - {Slot(tunnel, 1)} - {Slot(tunnel, 2)}
      ensures b.table.entries == set n | n in old(b.table.entries) && n.key.tunnel != tunnel
      ensures Withdrawn(old(b.ports.Owners()), b.ports.Owners(),
        {Slot(tunnel, 0)} + {Slot(tunnel, 1)} + {Slot(tunnel, 2)}, now + holdLifetime)
      ensures Changed(old(b.ports.Owners()), b.ports.Owners(), now, holdLifetime)
      ensures b.Region() <= old(b.Region())
    {
      hide Nats.Valid, Nats.Cached, RegionOf, Of, Withdrawn, Changed;
      SlotsDiffer(tunnel);
      SlotsGone(b.table.entries, tunnel);
      ghost var t0, t1, t2 := Slot(tunnel, 0), Slot(tunnel, 1), Slot(tunnel, 2);
      ghost var until, o0 := now + holdLifetime, b.ports.Owners();
      DelSlot(Slot(tunnel, 0), now);
      ghost var o1 := b.ports.Owners();
      HeapWithin();
      DelSlot(Slot(tunnel, 1), now);
      ghost var o2 := b.ports.Owners();
      HeapWithin();
      DelSlot(Slot(tunnel, 2), now);
      WithdrawnTwice(o0, o1, o2, {t0}, {t1}, until);
      WithdrawnTwice(o0, o2, b.ports.Owners(), {t0} + {t1}, {t2}, until);
      WithdrawnChanged(o0, b.ports.Owners(), {t0} + {t1} + {t2}, now, holdLifetime);
    }

    /** The lookup of natin */
    method FindIn(k: Key) returns (found: Nat?)
      requires Valid() && SlotOf(k) in b.ports.source && Template(k)
      modifies b.Region(), b.table.entries`tleft, b.table.entries`tright
      ensures Valid() && Same(old(b.Region()), old(b.table.entries), old(b.ports.source), old(b.ports.ranges))
      ensures heap.heap == old(heap.heap) && b.ports.Owners() == old(b.ports.Owners())
      ensures b.table.tnatcnt == old(b.table.tnatcnt)
      ensures found != null ==> found in Of(b.table.entries, SlotOf(k)) && SplayCompareWild(k, found.key) == 0
      ensures found == null && Findable(b.table.entries, k) ==>
        forall m <- Of(b.table.entries, SlotOf(k)) :: SplayCompareWild(k, m.key) != 0
      ensures old(Cached()) ==> Cached()
    {
      hide Bindings.Valid, RegionOf, Counters.Count, SplayCompareWild, Of, NatCache.Ok;
      b.NatsOutside(heap.entries + b.table.entries);
      found := b.FindIn(k);
    }

    lemma SoughtFinds(k: Key)
      requires Valid() && Template(k)
      ensures b.table.Sought(k) != null ==>
        b.table.Sought(k) in OfIndex(b.table.entries, Index(k.proto)) && TreeCompareWild(k, b.table.Sought(k).key) == 0
      ensures b.table.Sought(k) == null ==>
        forall m <- OfIndex(b.table.entries, Index(k.proto)) :: TreeCompareWild(k, m.key) != 0
    {
      hide Bindings.Valid, RegionOf, Counters.Count, TreeCompareWild, OfIndex;
      b.SoughtFinds(k);
    }

    /** At most two entries answer one packet: they differ in being bindings that leave packets as they are */
    lemma OneOfKind(m: Nat, n: Nat)
      requires Valid() && m in b.table.entries && n in b.table.entries
      requires PoolOf(m.key) == PoolOf(n.key) && m.key.proto == n.key.proto && m.key.nport == n.key.nport
      requires m.key.flags.prrNull == n.key.flags.prrNull
      ensures m == n
    {
      b.OneOfKind(m, n);
    }

    /** The lookup of natout */
    method FindOut(k: Key) returns (found: Nat?)
      requires Valid() && Template(k)
      ensures found == b.table.Sought(k)
      ensures found != null ==> found in OfIndex(b.table.entries, Index(k.proto)) && TreeCompareWild(k, found.key) == 0
      ensures found == null ==> forall m <- OfIndex(b.table.entries, Index(k.proto)) :: TreeCompareWild(k, m.key) != 0
      ensures old(Cached()) ==> Cached()
    {
      hide Bindings.Valid, RegionOf, Counters.Count, TreeCompareWild, OfIndex, InRange, NatCache.Ok;
      found := b.FindOut(k);
    }

    /** Two entries for one destination never share a dynamic port of one pool */
    lemma OnePerPort(m: Nat, n: Nat)
      requires Valid() && m in b.table.entries && n in b.table.entries && !n.key.flags.allDst
      requires PoolOf(m.key) == PoolOf(n.key) && m.key.nport == n.key.nport
      ensures m == n
    {
      b.OnePerPort(m, n);
    }

    /** nat_splay_splay, as natout calls it */
    method Bring(n: Nat)
      requires Valid() && n in b.table.entries
      modifies b.Region(), b.table.entries`tleft, b.table.entries`tright
      ensures Valid() && Same(old(b.Region()), old(b.table.entries), old(b.ports.source), old(b.ports.ranges))
      ensures heap.heap == old(heap.heap) && b.ports.Owners() == old(b.ports.Owners())
      ensures old(Cached()) ==> Cached()
    {
      hide Bindings.Valid, RegionOf, Counters.Count, NatCache.Ok;
      b.NatsOutside(heap.entries + b.table.entries);
      b.Bring(n);
    }

    lemma CacheOutside()
      requires Cached()
      ensures (cache as object) !in b.Region() && (cache.slots as object) !in b.Region() && cache.slots != heap.heap
    {
    }

    /** More entries do not matter to the cache */
    lemma CacheGrows(before: set<Nat>)
      requires cache.Ok(before) && before <= b.table.entries
      ensures cache.Ok(b.table.entries)
    {
      cache.Grows(before, b.table.entries);
      assert before + b.table.entries == b.table.entries;
    }

    ghost predicate Same(region: set<object>, entries: set<Nat>, source: map<int, Pool>, ranges: map<Pool, Range>)
      reads b.table, b.ports
    {
      b.Region() == region && b.table.entries == entries && b.ports.source == source && b.ports.ranges == ranges
    }

    lemma Tables()
      requires Valid()
      ensures forall t <- b.ports.source :: t in b.table.tnatcnt
      ensures forall n <- b.table.entries :: SlotOf(n.key) in b.table.splays
    {
      forall t | t in b.ports.source ensures t in b.table.tnatcnt {
        assert b.table.SplayOk(t);
      }
    }

    lemma Outside()
      requires Valid()
      ensures this !in b.Region() && heap !in b.Region() && heap.heap !in b.Region()
    {
    }

    lemma HeapWithin()
      requires Valid()
      ensures heap.entries <= b.table.entries
    {
    }

    /** The state of a connection and its lifetime are no concern of the indexes */
    method Note(n: Nat, st: TcpState, lifetime: nat)
      requires Valid() && n in b.table.entries
      modifies n`tcpst, n`lifetime
      ensures Valid() && n.tcpst == st && n.lifetime == lifetime
      ensures old(Cached()) ==> Cached()
    {
      hide Bindings.Valid, RegionOf, Counters.Count, Heap.Valid, NatCache.Ok;
      b.NatsOutside({n});
      n.tcpst := st;
      n.lifetime := lifetime;
    }

    /** Neither is the slot of the cache */
    method NoteHash(n: Nat, hash: nat)
      requires Valid() && n in b.table.entries
      modifies n`hash
      ensures Valid() && n.hash == hash
    {
      hide Bindings.Valid, RegionOf, Counters.Count, Heap.Valid;
      b.NatsOutside({n});
      n.hash := hash;
    }

    /** Nor is the generation */
    method NoteGeneration(n: Nat, generation: nat)
      requires Valid() && n in b.table.entries
      modifies n`generation
      ensures Valid() && n.generation == generation
      ensures old(Cached()) ==> Cached()
    {
      hide Bindings.Valid, RegionOf, Counters.Count, Heap.Valid, NatCache.Ok;
      b.NatsOutside({n});
      n.generation := generation;
    }

    /** A timeout goes down, and the entry up in the heap */
    method Sooner(n: Nat, timeout: int)
      requires Valid() && n in b.table.entries && n.timeout != 0 && timeout != 0 && timeout <= n.timeout
      modifies n`timeout, heap.heap, heap.entries`heapIndex
      ensures Valid() && n.timeout == timeout
      ensures old(Cached()) ==> Cached()
    {
      hide Bindings.Valid, RegionOf, Counters.Count, Heap.Valid, NatCache.Ok;
      b.NatsOutside(heap.entries);
      b.Older();
      heap.Sooner(n, timeout);
    }

    /** A timeout goes up, and the entry down in the heap */
    method Later(n: Nat, timeout: int)
      requires Valid() && n in b.table.entries && n.timeout != 0 && timeout != 0 && timeout >= n.timeout
      modifies n`timeout, heap.heap, heap.entries`heapIndex
      ensures Valid() && n.timeout == timeout
      ensures old(Cached()) ==> Cached()
    {
      hide Bindings.Valid, RegionOf, Counters.Count, Heap.Valid, NatCache.Ok;
      b.NatsOutside(heap.entries);
      b.Older();
      heap.Later(n, timeout);
    }
  }

  /** The tunnels when one is set up with the pool of an address, unless it is there */
  ghost function WithTunnel(source: map<int, Pool>, tunnel: int, addr: Quad): map<int, Pool> {
    if Slot(tunnel, 0) in source then source
    else source[Slot(tunnel, 0) := Pool(addr, 0)][Slot(tunnel, 1) := Pool(addr, 1)][Slot(tunnel, 2) := Pool(addr, 2)]
  }

  /** Live ports have gone on hold, and what the slots had reserved has gone back to the bitmap */
  ghost predicate Withdrawn(o: map<Pool, Owners>, o': map<Pool, Owners>, slots: set<int>, until: int) {
    o'.Keys == o.Keys && forall a <- o ::
      && o'[a].Keys == o[a].Keys
      && forall p <- o[a] ::
        || o'[a][p] == o[a][p]
        || (o[a][p].Reserved? && o[a][p].tunnel in slots && o'[a][p].Free?)
        || (o[a][p].Live? && NewlyHeld(o[a], o'[a], p, until))
  }

  lemma WithdrawnChanged(o: map<Pool, Owners>, o': map<Pool, Owners>, slots: set<int>, now: int, hold: int)
    requires Withdrawn(o, o', slots, now + hold)
    ensures Changed(o, o', now, hold)
  {
  }

  lemma WithdrawnTwice(o: map<Pool, Owners>, o': map<Pool, Owners>, o'': map<Pool, Owners>, slots: set<int>,
      more: set<int>, until: int)
    requires Withdrawn(o, o', slots, until) && Withdrawn(o', o'', more, until)
    ensures Withdrawn(o, o'', slots + more, until)
  {
  }

  lemma DroppedReturned(o: map<Pool, Owners>, o': map<Pool, Owners>, o'': map<Pool, Owners>, t: int, until: int)
    requires Dropped(o, o', until) && o''.Keys == o'.Keys && forall a <- o' :: ReturnedOnly(o'[a], o''[a], t)
    ensures Withdrawn(o, o'', {t}, until)
  {
  }

  /** Those of the entries with the timeouts g that have gone had timed out */
  ghost predicate Lapsed(g: map<Nat, int>, after: set<Nat>, now: int) {
    after <= g.Keys && forall n <- g.Keys - after :: g[n] != 0 && g[n] < now
  }

  lemma InSlot(s: set<Nat>, n: Nat, t: int)
    requires n in Of(s, t)
    ensures n in s && SlotOf(n.key) == t
  {
  }

  lemma NoneLeft(s: set<Nat>, s': set<Nat>, t: int)
    requires s' <= s && Of(s', t) == {} && forall m <- s - s' :: SlotOf(m.key) == t
    ensures s' == s - Of(s, t)
  {
    forall m | m in s' ensures m !in Of(s, t) {
      assert m in Of(s', t) <==> SlotOf(m.key) == t;
    }
  }

  /** The three slots of a tunnel hold its entries and no others */
  lemma SlotsGone(s: set<Nat>, tunnel: int)
    ensures var s1 := s - Of(s, Slot(tunnel, 0));
      var s2 := s1 - Of(s1, Slot(tunnel, 1));
      s2 - Of(s2, Slot(tunnel, 2)) == set n | n in s && n.key.tunnel != tunnel
  {
    var s1 := s - Of(s, Slot(tunnel, 0));
    var s2 := s1 - Of(s1, Slot(tunnel, 1));
    var s3 := s2 - Of(s2, Slot(tunnel, 2));
    forall n | n in s ensures n in s3 <==> n.key.tunnel != tunnel {
      SlotProto(n.key);
      assert SlotOf(n.key) == Slot(tunnel, Index(n.key.proto)) <==> n.key.tunnel == tunnel;
      assert n !in s3 <==> SlotOf(n.key) in {Slot(tunnel, 0), Slot(tunnel, 1), Slot(tunnel, 2)};
    }
  }

  lemma FewerSlots(table: Table, ports: Ports, splays: map<int, S.Splay>, ranges: map<Pool, Range>, buckets: map<int,
      Bucket>, t: int)
    ensures RegionOf(table, ports, splays - {t}, ranges, buckets - {t})
      <= RegionOf(table, ports, splays, ranges, buckets)
  {
  }

  lemma MoreRanges(table: Table, ports: Ports, splays: map<int, S.Splay>, ranges: map<Pool, Range>, buckets: map<int,
      Bucket>, a: Pool, r: Range)
    ensures RegionOf(table, ports, splays, ranges[a := r], buckets)
      <= RegionOf(table, ports, splays, ranges, buckets) + {r, r.freebm}
  {
  }

  lemma MoreSlots(table: Table, ports: Ports, splays: map<int, S.Splay>, ranges: map<Pool, Range>, buckets: map<int,
      Bucket>, t: int, s: S.Splay, b: Bucket)
    ensures RegionOf(table, ports, splays[t := s], ranges, buckets[t := b])
      <= RegionOf(table, ports, splays, ranges, buckets) + {s, b}
  {
  }

  /** Ports of live entries have been put on hold, nothing else */
  ghost predicate Dropped(o: map<Pool, Owners>, o': map<Pool, Owners>, until: int) {
    o'.Keys == o.Keys && forall a <- o ::
      && o'[a].Keys == o[a].Keys
      && forall p <- o[a] :: o'[a][p] == o[a][p] || (o[a][p].Live? && NewlyHeld(o[a], o'[a], p, until))
  }

  lemma SameDropped(o: map<Pool, Owners>, until: int)
    ensures Dropped(o, o, until)
  {
  }

  lemma DroppedTwice(o: map<Pool, Owners>, o': map<Pool, Owners>, o'': map<Pool, Owners>, until: int)
    requires Dropped(o, o', until) && Dropped(o', o'', until)
    ensures Dropped(o, o'', until)
  {
  }

  lemma DroppedChanged(o: map<Pool, Owners>, o': map<Pool, Owners>, now: int, hold: int)
    requires Dropped(o, o', now + hold)
    ensures Changed(o, o', now, hold)
  {
  }

  /** Ports whose hold is over have been freed, nothing else */
  ghost predicate FreedAll(o: map<Pool, Owners>, o': map<Pool, Owners>, now: int) {
    o'.Keys == o.Keys && forall a <- o :: FreedOnly(o[a], o'[a], now)
  }

  /** The owners before and after the housekeeping of one second: in their turns ports have been freed up to the first
      whose hold is not over, and live ones have gone on hold */
  ghost predicate Freed(o: map<Pool, Owners>, o': map<Pool, Owners>, now: int, until: int) {
    o'.Keys == o.Keys && forall a <- o ::
      && o'[a].Keys == o[a].Keys
      && forall p <- o[a] ::
        if o[a][p].Held? && AllDue(o[a], o[a][p].turn, now) then o'[a][p].Free?
        else o'[a][p] == o[a][p] || (o[a][p].Live? && NewlyHeld(o[a], o'[a], p, until))
  }

  /** Every port whose hold is over is free */
  ghost predicate OverFreed(o: Owners, o': Owners, now: int) {
    forall p <- o :: o[p].Held? && o[p].until <= now ==> p in o' && o'[p].Free?
  }

  /** In a pool whose turns are in order every port whose hold is over is freed */
  lemma AllOver(o: map<Pool, Owners>, o': map<Pool, Owners>, now: int, until: int)
    requires Freed(o, o', now, until)
    ensures o'.Keys == o.Keys && forall a <- o :: InOrder(o[a]) ==> OverFreed(o[a], o'[a], now)
  {
    forall a, p | a in o && InOrder(o[a]) && p in o[a] && o[a][p].Held? && o[a][p].until <= now
      ensures p in o'[a] && o'[a][p].Free?
    {
      assert AllDue(o[a], o[a][p].turn, now);
    }
  }

  lemma FreedThenDropped(o: map<Pool, Owners>, o': map<Pool, Owners>, o'': map<Pool, Owners>, now: int, until: int)
    requires FreedAll(o, o', now) && Dropped(o', o'', until)
    ensures Freed(o, o'', now, until)
  {
  }

  lemma FreedChanged(o: map<Pool, Owners>, o': map<Pool, Owners>, now: int, hold: int)
    requires Freed(o, o', now, now + hold)
    ensures Changed(o, o', now, hold)
  {
  }

  lemma Unbound(o: map<Pool, Owners>, k: Key, until: int)
    requires !k.flags.allDst ==> InRange(o, k) && o[PoolOf(k)][k.nport.Value()] == Live
    ensures Dropped(
      o, if k.flags.allDst then o else Released(o, PoolOf(k), k.nport.Value(), until), until)
  {
    var o' := if k.flags.allDst then o else Released(o, PoolOf(k), k.nport.Value(), until);
    assert forall a <- o :: o'[a].Keys == o[a].Keys;
  }

  /** What one call may do to the owners of all ports */
  ghost predicate Changed(o: map<Pool, Owners>, o': map<Pool, Owners>, now: int, hold: int) {
    && (forall a <- o :: a in o' && Moved(o[a], o'[a], now, hold))
    && forall a <- o' :: a in o || forall p <- o'[a] :: o'[a][p].Free?
  }

  /** In every pool turns are in the order of times, and nothing is on hold for longer than until a time */
  ghost predicate Ordered(o: map<Pool, Owners>, until: int) { forall a <- o :: InOrder(o[a]) && HeldBy(o[a], until) }

  lemma ChangedOrdered(o: map<Pool, Owners>, o': map<Pool, Owners>, now: int, hold: int, until: int)
    requires Changed(o, o', now, hold) && Ordered(o, until) && until <= now + hold
    ensures Ordered(o', now + hold)
  {
    hide InOrder, HeldBy, Moved;
    forall a | a in o' ensures InOrder(o'[a]) && HeldBy(o'[a], now + hold) {
      if a in o {
        HeldLonger(o[a], until, now + hold);
        StillInOrder(o[a], o'[a], now, hold);
      } else {
        NoneHeld(o'[a], now + hold);
      }
    }
  }

  lemma HeldLonger(o: Owners, until: int, later: int)
    requires HeldBy(o, until) && until <= later
    ensures HeldBy(o, later)
  {
  }

  lemma NoneHeld(o: Owners, until: int)
    requires forall p <- o :: o[p].Free?
    ensures InOrder(o) && HeldBy(o, until)
  {
  }

  /** There are more pools, with all their ports free */
  ghost predicate Extended(o: map<Pool, Owners>, o': map<Pool, Owners>) {
    o.Keys <= o'.Keys && forall a <- o' :: if a in o then o'[a] == o[a] else forall p <- o'[a] :: o'[a][p].Free?
  }

  lemma ExtendedTwice(o: map<Pool, Owners>, o': map<Pool, Owners>, o'': map<Pool, Owners>)
    requires Extended(o, o') && Extended(o', o'')
    ensures Extended(o, o'')
  {
  }

  lemma ExtendedChanged(o: map<Pool, Owners>, o': map<Pool, Owners>, now: int, hold: int)
    requires Extended(o, o')
    ensures Changed(o, o', now, hold)
  {
  }

  /** Without a match for the packet no entry of the tunnel is equal to the new one */
  lemma NoCollision(s: set<Nat>, k: Key, k': Key)
    requires (forall m <- s :: Admissible(m.key)) && Template(k) && Admissible(k')
    requires k' == k.(nsrc := k'.nsrc, nport := k'.nport)
    ensures (forall m <- Of(s, SlotOf(k)) :: SplayCompareWild(k, m.key) != 0) ==>
      forall m <- Of(s, SlotOf(k)) :: SplayRank(m.key) != SplayRank(k')
  {
    hide SplayRank;
    forall m | m in Of(s, SlotOf(k)) && SplayRank(m.key) == SplayRank(k') ensures SplayCompareWild(k, m.key) == 0 {
      SplayOrder(k', m.key);
    }
  }

  lemma Bound(o: map<Pool, Owners>, o': map<Pool, Owners>, a: Pool, port: int, t: int, now: int, hold: int)
    requires a in o && a in o' && o' == o[a := o'[a]] && Allotted(o[a], o'[a], t, true, port)
    ensures Changed(o, o', now, hold)
  {
  }

  lemma Failed(o: map<Pool, Owners>, o': map<Pool, Owners>, a: Pool, port: int, t: int, now: int, hold: int)
    requires a in o && a in o' && o' == o[a := o'[a]] && Allotted(o[a], o'[a], t, true, port)
    ensures Changed(o, Released(o', a, port, now + hold), now, hold)
  {
  }

  lemma Unchanged(o: map<Pool, Owners>, now: int, hold: int)
    ensures Changed(o, o, now, hold)
  {
  }
}
