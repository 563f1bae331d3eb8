/**
  The dynamic ports of one source address and protocol: the bitmap of free ports, the
  buckets tunnels draw from it, the ports of live NAT entries, and the queue that keeps
  a released port out of use for a while.
 */
module PortRange {

  // ---------- The bitmap ----------

  /** 1 << j */
  function One(j: nat): bv8 {
    if j == 0 then 0x01 else if j == 1 then 0x02 else if j == 2 then 0x04 else if j == 3 then 0x08
    else if j == 4 then 0x10 else if j == 5 then 0x20 else if j == 6 then 0x40 else 0x80
  }

  predicate Bit(bm: seq<bv8>, i: nat)
    requires i < 8 * |bm|
  {
    bm[i / 8] & One(i % 8) != 0
  }

  lemma OneBit(x: bv8, j: nat, k: nat)
    requires j < 8 && k < 8
    ensures (x | One(j)) & One(k) != 0 <==> j == k || x & One(k) != 0
    ensures (x & !One(j)) & One(k) != 0 <==> j != k && x & One(k) != 0
  {
    OneAlone(x, j);
    if j != k {
      OneOther(x, j, k);
    }
  }

  lemma OneAlone(x: bv8, j: nat)
    requires j < 8
    ensures (x | One(j)) & One(j) != 0 && (x & !One(j)) & One(j) == 0
  {
  }

  lemma OneOther(x: bv8, j: nat, k: nat)
    requires j < 8 && k < 8 && j != k
    ensures (x | One(j)) & One(k) == x & One(k) && (x & !One(j)) & One(k) == x & One(k)
  {
    OnesApart(j, k);
    Bits(x, One(j), One(k));
  }

  lemma OnesApart(j: nat, k: nat)
    requires j < 8 && k < 8 && j != k
    ensures One(j) & One(k) == 0
  {
  }

  lemma Bits(x: bv8, a: bv8, b: bv8)
    requires a & b == 0
    ensures (x | a) & b == x & b && (x & !a) & b == x & b
  {
  }

  method SetBit(bm: array<bv8>, i: nat)
    requires i < 8 * bm.Length
    modifies bm
    ensures forall k | 0 <= k < 8 * bm.Length :: Bit(bm[..], k) <==> k == i || old(Bit(bm[..], k))
  {
    hide One;
    forall k | 0 <= k < 8 * bm.Length && k / 8 == i / 8
      ensures (bm[i / 8] | One(i % 8)) & One(k % 8) != 0 <==> i == k || bm[i / 8] & One(k % 8) != 0
    {
      OneBit(bm[i / 8], i % 8, k % 8);
    }
    bm[i / 8] := bm[i / 8] | One(i % 8);
  }

  method ClearBit(bm: array<bv8>, i: nat)
    requires i < 8 * bm.Length
    modifies bm
    ensures forall k | 0 <= k < 8 * bm.Length :: Bit(bm[..], k) <==> k != i && old(Bit(bm[..], k))
  {
    hide One;
    forall k | 0 <= k < 8 * bm.Length && k / 8 == i / 8
      ensures (bm[i / 8] & !One(i % 8)) & One(k % 8) != 0 <==> i != k && bm[i / 8] & One(k % 8) != 0
    {
      OneBit(bm[i / 8], i % 8, k % 8);
    }
    bm[i / 8] := bm[i / 8] & !One(i % 8);
  }

  /** The bitmap of a new pool: size bits set, the rest of the last octet clear */
  method AllSet(size: nat) returns (bm: array<bv8>)
    requires size >= 1
    ensures fresh(bm) && bm.Length == (size - 1) / 8 + 1
    ensures forall k | 0 <= k < 8 * bm.Length :: Bit(bm[..], k) <==> k < size
  {
    var sz := (size - 1) / 8;
    bm := new bv8[sz + 1](i requires 0 <= i <= sz => if i < sz then 0xff else 0);
    forall k | 0 <= k < 8 * bm.Length ensures Bit(bm[..], k) <==> k < 8 * sz {
      FullOctet(k % 8);
    }
    var i := 0;
    while i <= (size - 1) % 8
      invariant i <= (size - 1) % 8 + 1
      invariant forall k | 0 <= k < 8 * bm.Length :: Bit(bm[..], k) <==> k < 8 * sz + i
    {
      SetBit(bm, 8 * sz + i);
      i := i + 1;
    }
  }

  lemma FullOctet(j: nat)
    requires j < 8
    ensures 0xff as bv8 & One(j) != 0 && 0 as bv8 & One(j) == 0
  {
  }

  // ---------- Who has a port ----------

  /** Free in the bitmap, in a tunnel's bucket, used by a live entry, or on hold until a time, in its turn */
  datatype Owner = Free | Reserved(tunnel: int) | Live | Held(until: int, turn: nat) {
    predicate Counted() { Live? || Held? }
  }

  type Owners = map<int, Owner>

  /** The ports natcnt counts */
  ghost function Used(o: Owners): set<int> { set p | p in o && o[p].Counted() }

  /** A port has gone on hold, behind all that are still on hold */
  ghost predicate NewlyHeld(o: Owners, o': Owners, p: int, until: int) {
    && p in o' && o'[p].Held? && o'[p].until == until
    && forall q | q in o && q in o' && o[q].Held? && o'[q] == o[q] :: o[q].turn < o'[p].turn
  }

  /** What one call at a time may do to a port's owner, when released ports are held for so long */
  ghost predicate MayBecome(o: Owners, o': Owners, p: int, now: int, hold: int)
    requires p in o && p in o'
  {
    o[p] == o'[p] || match o[p]
    case Free => o'[p].Held? ==> NewlyHeld(o, o', p, now + hold)
    case Reserved(_) => o'[p].Free? || o'[p].Live? || NewlyHeld(o, o', p, now + hold)
    case Live => NewlyHeld(o, o', p, now + hold)
    case Held(until, _) => o'[p].Free? && until <= now
  }

  /** No port appears or disappears, and each changes hands only as it may */
  ghost predicate Moved(o: Owners, o': Owners, now: int, hold: int) {
    o'.Keys == o.Keys && forall p <- o :: MayBecome(o, o', p, now, hold)
  }

  /** The hold is over for all whose turn is not after this one */
  ghost predicate AllDue(o: Owners, turn: nat, now: int) {
    forall q <- o :: o[q].Held? && o[q].turn <= turn ==> o[q].until <= now
  }

  /** In their turns, ports have been freed up to the first whose hold is not over */
  ghost predicate FreedOnly(o: Owners, o': Owners, now: int) {
    o'.Keys == o.Keys
    && forall p <- o :: o'[p] == if o[p].Held? && AllDue(o, o[p].turn, now) then Free else o[p]
  }

  /** Turns come in the order of the times */
  ghost predicate InOrder(o: Owners) {
    forall p, q | p in o && q in o && o[p].Held? && o[q].Held? && o[p].turn <= o[q].turn :: o[p].until <= o[q].until
  }

  /** Nothing is on hold for longer than until a time */
  ghost predicate HeldBy(o: Owners, until: int) { forall p <- o :: o[p].Held? ==> o[p].until <= until }

  /** While time goes forward, turns stay in order */
  lemma StillInOrder(o: Owners, o': Owners, now: int, hold: int)
    requires Moved(o, o', now, hold) && InOrder(o) && HeldBy(o, now + hold)
    ensures InOrder(o') && HeldBy(o', now + hold)
  {
    forall p | p in o && o'[p].Held? && o'[p] != o[p] ensures NewlyHeld(o, o', p, now + hold) {
      assert MayBecome(o, o', p, now, hold);
    }
  }

  /** Then every port whose hold is over is freed */
  lemma AllFreed(o: Owners, o': Owners, now: int, p: int)
    requires FreedOnly(o, o', now) && InOrder(o) && p in o && o[p].Held?
    ensures o'[p] == if o[p].until <= now then Free else o[p]
  {
  }

  ghost function Turns(o: Owners): set<nat> { set p | p in o && o[p].Held? :: o[p].turn }

  ghost function Above(s: set<nat>): (n: nat)
    ensures forall t <- s :: t < n
  {
    if s == {} then 0
    else
      var t :| t in s;
      var rest := Above(s - {t});
      assert s == (s - {t}) + {t};
      if t < rest then rest else t + 1
  }

  /** The turn behind all others */
  ghost function NextTurn(o: Owners): (n: nat)
    ensures forall p <- o :: o[p].Held? ==> o[p].turn < n
  {
    assert forall p <- o :: o[p].Held? ==> o[p].turn in Turns(o);
    Above(Turns(o))
  }

  ghost function OnHold(o: Owners, until: int): Owner { Held(until, NextTurn(o)) }

  // ---------- The counter ----------

  /** ++ on a u_short */
  function Up(c: nat): nat { (c + 1) % 65536 }

  /** -- that refuses to go under zero */
  function Down(c: nat): nat { if c == 0 then 0 else c - 1 }

  lemma UsedMore(o: Owners, p: int, to: Owner)
    requires p in o && !o[p].Counted() && to.Counted()
    ensures |Used(o[p := to])| == |Used(o)| + 1
  {
    assert Used(o[p := to]) == Used(o) + {p};
  }

  lemma UsedLess(o: Owners, p: int, to: Owner)
    requires p in o && o[p].Counted() && !to.Counted()
    ensures |Used(o[p := to])| == |Used(o)| - 1
  {
    assert Used(o[p := to]) == Used(o) - {p};
  }

  lemma UsedSame(o: Owners, p: int, to: Owner)
    requires p in o && o[p].Counted() == to.Counted()
    ensures Used(o[p := to]) == Used(o)
  {
  }

  lemma {:induction false} UsedWithin(o: Owners, lo: int, hi: int)
    requires lo <= hi && forall p <- o :: lo <= p < hi
    ensures |Used(o)| <= hi - lo
    decreases hi - lo
  {
    IntervalSize(lo, hi);
    Subset(Used(o), Interval(lo, hi));
  }

  ghost function Interval(lo: int, hi: int): (s: set<int>)
    ensures forall p :: p in s <==> lo <= p < hi
    decreases hi - lo
  {
    if lo >= hi then {} else Interval(lo, hi - 1) + {hi - 1}
  }

  lemma {:induction false} IntervalSize(lo: int, hi: int)
    requires lo <= hi
    ensures |Interval(lo, hi)| == hi - lo
    decreases hi - lo
  {
    if lo < hi {
      IntervalSize(lo, hi - 1);
    }
  }

  lemma {:induction false} Subset<T>(a: set<T>, b: set<T>)
    requires a <= b
    ensures |a| <= |b|
  {
    if a != {} {
      var x :| x in a;
      Subset(a - {x}, b - {x});
    }
  }

  // ---------- Buckets, the hold queue and the range ----------

  /** t->bucket[pr] up to t->avail[pr]; present unless the pointer is null */
  class Bucket {
    var present: bool
    var ports: seq<int>

    constructor ()
      ensures !present && ports == []
    {
      present, ports := false, [];
    }

    /** The bucket lists what the owners say is the tunnel's */
    ghost predicate Lists(o: Owners, tunnel: int)
      reads this
    {
      && (!present ==> ports == [])
      && (forall i, j | 0 <= i < j < |ports| :: ports[i] != ports[j])
      && (forall p <- ports :: p in o && o[p] == Reserved(tunnel))
      && (forall p <- o :: o[p] == Reserved(tunnel) ==> p in ports)
    }

    /** Only the tunnel's own reservations matter */
    lemma ListsSame(o: Owners, o': Owners, tunnel: int)
      requires Lists(o, tunnel) && o'.Keys == o.Keys
      requires forall p <- o :: o[p] == Reserved(tunnel) <==> o'[p] == Reserved(tunnel)
      ensures Lists(o', tunnel)
    {
    }

    /** The last port leaves the bucket for another owner */
    method Pop(ghost o: Owners, tunnel: int, ghost to: Owner) returns (port: int)
      requires Lists(o, tunnel) && ports != [] && to != Reserved(tunnel)
      modifies this`ports
      ensures |ports| == |old(ports)| - 1 && port in o && o[port] == Reserved(tunnel) && Lists(o[port := to], tunnel)
    {
      var avail := |ports| - 1;
      port := ports[avail];
      ports := ports[..avail];
      assert old(ports) == ports + [port];
    }
  }

  /** struct held */
  datatype HeldPort = HeldPort(port: int, timeout: int)

  /** The queue holds what is on hold, in turn */
  ghost predicate Queue(o: Owners, h: seq<HeldPort>) {
    && (forall x <- h :: Awaits(o, x)) && InTurn(o, h) && forall p <- o :: o[p].Held? ==> OnQueue(h, p)
  }

  ghost predicate Awaits(o: Owners, x: HeldPort) {
    x.port in o && o[x.port].Held? && o[x.port].until == x.timeout
  }

  ghost predicate InTurn(o: Owners, h: seq<HeldPort>) {
    forall i, j | 0 <= i < j < |h| :: TurnOf(o, h[i].port) < TurnOf(o, h[j].port)
  }

  function TurnOf(o: Owners, p: int): nat { if p in o && o[p].Held? then o[p].turn else 0 }

  ghost predicate OnQueue(h: seq<HeldPort>, p: int) { exists x :: x in h && x.port == p }

  lemma QueueMore(o: Owners, h: seq<HeldPort>, port: int, until: int)
    requires Queue(o, h) && port in o && !o[port].Held?
    ensures Queue(o[port := OnHold(o, until)], h + [HeldPort(port, until)])
  {
    hide NextTurn;
    var o', h' := o[port := OnHold(o, until)], h + [HeldPort(port, until)];
    forall x | x in h' ensures Awaits(o', x) {
      assert x in h ==> Awaits(o, x);
    }
    forall i, j | 0 <= i < j < |h'| ensures TurnOf(o', h'[i].port) < TurnOf(o', h'[j].port) {
      assert h'[i] == h[i] && Awaits(o, h[i]);
      assert j < |h| ==> h'[j] == h[j] && Awaits(o, h[j]) && TurnOf(o, h[i].port) < TurnOf(o, h[j].port);
    }
    forall p | p in o' && o'[p].Held? ensures OnQueue(h', p) {
      if p == port {
        assert HeldPort(port, until) in h';
      } else {
        var x :| x in h && x.port == p;
        assert x in h';
      }
    }
  }

  lemma QueueLess(o: Owners, h: seq<HeldPort>)
    requires Queue(o, h) && h != []
    ensures Awaits(o, h[0]) && forall p <- o :: o[p].Held? && p != h[0].port ==> o[h[0].port].turn < o[p].turn
    ensures Queue(o[h[0].port := Free], h[1..])
  {
    var o', h' := o[h[0].port := Free], h[1..];
    assert Awaits(o, h[0]);
    forall x | x in h' ensures Awaits(o', x) {
      var i :| 0 <= i < |h'| && h'[i] == x;
      assert Awaits(o, x) && h[i + 1] == x && TurnOf(o, h[0].port) < TurnOf(o, h[i + 1].port);
    }
    assert forall i | 0 <= i < |h'| :: TurnOf(o', h'[i].port) == TurnOf(o, h[i + 1].port) by {
      assert forall i | 0 <= i < |h'| :: h'[i] in h' && h'[i] == h[i + 1];
    }
    forall p | p in o && o[p].Held? && p != h[0].port
      ensures o[h[0].port].turn < o[p].turn
      ensures OnQueue(h', p)
    {
      var x :| x in h && x.port == p;
      var i :| 0 <= i < |h| && h[i] == x;
      assert h'[i - 1] == x && x in h';
    }
  }

  /** No port is in it twice */
  lemma QueueOnce(o: Owners, h: seq<HeldPort>)
    requires Queue(o, h)
    ensures forall i, j | 0 <= i < j < |h| :: h[i].port != h[j].port
  {
    forall i, j | 0 <= i < j < |h| ensures h[i].port != h[j].port {
      assert Awaits(o, h[i]) && Awaits(o, h[j]);
    }
  }

  /** Who is not on hold does not matter to it */
  lemma QueueSame(o: Owners, h: seq<HeldPort>, port: int, to: Owner)
    requires Queue(o, h) && port in o && !o[port].Held? && !to.Held?
    ensures Queue(o[port := to], h)
  {
    forall x | x in h ensures Awaits(o[port := to], x) && TurnOf(o[port := to], x.port) == TurnOf(o, x.port) {
      assert Awaits(o, x);
    }
    assert forall i | 0 <= i < |h| :: h[i] in h;
  }

  lemma NoQueue(o: Owners)
    requires Queue(o, [])
    ensures forall p <- o :: !o[p].Held?
  {
  }

  /** Ports drawn one after the other: none was free, but for the last one when there is a hit */
  ghost predicate Trying(o: Owners, draws: seq<int>, found: bool) {
    && (forall k | 0 <= k < |draws| :: draws[k] in o)
    && (forall k | 0 <= k < |draws| :: o[draws[k]].Free? <==> found && k == |draws| - 1) && (found ==> draws != [])
  }

  lemma NoneTried(o: Owners)
    ensures Trying(o, [], false)
  {
  }

  lemma TriedMore(o: Owners, draws: seq<int>, port: int)
    requires Trying(o, draws, false) && port in o
    ensures Trying(o, draws + [port], o[port].Free?)
  {
  }

  /** At most ten, and ten when there is no hit */
  ghost predicate Drawn(o: Owners, draws: seq<int>, found: bool) {
    Trying(o, draws, found) && |draws| <= 10 && (!found ==> |draws| == 10)
  }

  /** Some of the ports on hold have been freed, in their turns */
  ghost predicate FreedSoFar(o: Owners, o': Owners, now: int) {
    && o'.Keys == o.Keys && (forall p <- o :: o'[p] == o[p] || (o[p].Held? && o[p].until <= now && o'[p].Free?))
    && forall p, q | p in o && q in o && o[p].Held? && o[q].Held? && o'[p].Free? && o[q].turn <= o[p].turn ::
         o'[q].Free?
  }

  lemma FreedMore(o: Owners, before: Owners, after: Owners, now: int, port: int)
    requires FreedSoFar(o, before, now) && port in before && before[port].Held? && before[port].until <= now
    requires after == before[port := Free]
    requires forall p <- before :: before[p].Held? && p != port ==> before[port].turn < before[p].turn
    ensures FreedSoFar(o, after, now)
  {
  }

  /** When the first one left is not due, or there is none, all that were to be freed are */
  lemma AllFreedSoFar(o: Owners, o': Owners, now: int, head: int)
    requires FreedSoFar(o, o', now)
    requires (forall p <- o' :: !o'[p].Held?)
      || (head in o' && o'[head].Held? && o'[head].until > now
          && forall p <- o' :: o'[p].Held? && p != head ==> o'[head].turn < o'[p].turn)
    ensures FreedOnly(o, o', now)
  {
    forall p | p in o && o[p].Held? ensures o'[p].Free? <==> AllDue(o, o[p].turn, now) {
      if o'[p].Free? {
        forall q | q in o && o[q].Held? && o[q].turn <= o[p].turn ensures o[q].until <= now {
          assert o'[q].Free?;
        }
      } else {
        assert o'[head] == o[head];
      }
    }
  }

  class Range {
    const minport: nat
    const maxport: nat
    const freebm: array<bv8>
    var natcnt: nat
    var helds: seq<HeldPort>
    ghost var owner: Owners
    /** All 65536 identifiers there are have been live or on hold at one time */
    ghost var wrapped: bool

    ghost predicate Mapped()
      reads this, freebm
    {
      && minport <= maxport <= 65535 && freebm.Length == (maxport - minport) / 8 + 1
      && (forall p :: p in owner <==> minport <= p <= maxport)
      && forall p <- owner :: owner[p].Free? <==> Bit(freebm[..], p - minport)
    }

    ghost predicate Queued()
      reads this
    {
      Queue(owner, helds)
    }

    /** natcnt is live plus held, as long as 65536 have not been counted, and never more than that */
    ghost predicate Counting()
      reads this
    {
      && natcnt <= 65535 && natcnt <= |Used(owner)|
      && if wrapped then maxport - minport == 65535 else natcnt == |Used(owner)|
    }

    ghost predicate Valid()
      reads this, freebm
    {
      Mapped() && Queued() && Counting()
    }

    constructor (minport: nat, maxport: nat)
      requires minport <= maxport <= 65535
      ensures Valid() && fresh(freebm) && this.minport == minport && this.maxport == maxport && !wrapped
      ensures forall p <- owner :: owner[p].Free?
    {
      var bm := AllSet(maxport - minport + 1);
      ghost var ports := Interval(minport, maxport + 1);
      this.minport, this.maxport, freebm := minport, maxport, bm;
      natcnt, helds, wrapped := 0, [], false;
      owner := map p | p in ports :: Free;
      new;
      assert Used(owner) == {};
    }

    /** Up to ten draws for a port whose bit is still set: it takes the first that is, and fails only when none is */
    method Draw(tunnel: int) returns (found: bool, port: int, ghost draws: seq<int>)
      requires Valid()
      modifies this`owner, freebm
      ensures Valid() && Drawn(old(owner), draws, found)
      ensures found ==> port == draws[|draws| - 1] && port in owner && old(owner)[port].Free?
      ensures found ==> owner == old(owner)[port := Reserved(tunnel)]
      ensures !found ==> owner == old(owner)
      ensures owner.Keys == old(owner).Keys
    {
      hide Trying, Used, Queue;
      found, port, draws := false, 0, [];
      NoneTried(owner);
      var i := 0;
      while i < 10 && !found
        invariant Valid() && 0 <= i <= 10 && Trying(old(owner), draws, found) && |draws| == if found then i + 1 else i
        invariant found ==> i < 10 && draws != [] && port == draws[|draws| - 1] && port in owner
        invariant found ==> old(owner)[port].Free? && owner == old(owner)[port := Reserved(tunnel)]
        invariant !found ==> owner == old(owner)
        decreases 10 - i, !found
      {
        port :| minport <= port <= maxport;
        TriedMore(owner, draws, port);
        draws := draws + [port];
        var nb := port - minport;
        assert owner[port].Free? <==> Bit(freebm[..], nb);
        if freebm[nb / 8] & One(nb % 8) != 0 {
          Reserve(port, tunnel);
          found := true;
        } else {
          i := i + 1;
        }
      }
    }

    method Reserve(port: int, tunnel: int)
      requires Valid() && port in owner && owner[port].Free?
      modifies this`owner, freebm
      ensures Valid() && owner == old(owner)[port := Reserved(tunnel)]
    {
      hide Used, Queue;
      ClearBit(freebm, port - minport);
      QueueSame(owner, helds, port, Reserved(tunnel));
      UsedSame(owner, port, Reserved(tunnel));
      owner := owner[port := Reserved(tunnel)];
    }

    /** fill_bucket; on failure to find a single port the tunnel has no bucket */
    method FillBucket(tunnel: int, b: Bucket, size: nat) returns (ghost first: seq<int>, ghost last: seq<int>)
      requires Valid() && b.Lists(owner, tunnel) && b.ports == [] && 1 <= size <= 255
      modifies this`owner, freebm, b
      ensures Valid() && b.Lists(owner, tunnel) && (b.present <==> b.ports != []) && |b.ports| <= size
      ensures Drawn(old(owner), first, b.ports != []) && (|b.ports| < size ==> Drawn(owner, last, false))
      ensures owner.Keys == old(owner).Keys
      ensures forall p <- owner :: owner[p] == old(owner)[p] || (old(owner)[p].Free? && owner[p] == Reserved(tunnel))
    {
      hide Mapped, Queued, Counting, Used, Drawn;
      b.present := true;
      first, last := [], [];
      while |b.ports| < size
        invariant Valid() && b.present && b.Lists(owner, tunnel) && owner.Keys == old(owner).Keys
        invariant if b.ports == [] then owner == old(owner) else Drawn(old(owner), first, true)
        invariant forall p <- owner ::
          owner[p] == old(owner)[p] || (old(owner)[p].Free? && owner[p] == Reserved(tunnel))
        invariant |b.ports| <= size
        decreases size - |b.ports|
      {
        var found, port;
        found, port, last := Draw(tunnel);
        if b.ports == [] {
          first := last;
        }
        if !found {
          b.present := b.ports != [];
          return;
        }
        b.ports := b.ports + [port];
      }
    }

    /** The port a new entry takes from the bucket, counted from now on.  The count stays right exactly
        until the last of 65536 ports is taken: it then starts again from zero. */
    method Take(tunnel: int, b: Bucket) returns (port: int)
      requires Valid() && b.Lists(owner, tunnel) && b.ports != []
      modifies this`owner, this`natcnt, this`wrapped, b`ports
      ensures Valid() && b.Lists(owner, tunnel)
      ensures port in old(owner) && old(owner)[port] == Reserved(tunnel) && owner == old(owner)[port := Live]
      ensures wrapped == (old(wrapped) || |Used(owner)| == 65536) && (wrapped && !old(wrapped) ==> natcnt == 0)
      ensures natcnt == |Used(owner)| <==> old(natcnt == |Used(owner)|) && |Used(owner)| < 65536
    {
      hide Used, Bucket.Lists, Mapped, Queued, Counting;
      port := b.Pop(owner, tunnel, Live);
      Use(port);
    }

    method Use(port: int)
      requires Valid() && port in owner && owner[port].Reserved?
      modifies this`owner, this`natcnt, this`wrapped
      ensures Valid() && owner == old(owner)[port := Live]
      ensures wrapped == (old(wrapped) || |Used(owner)| == 65536) && (wrapped && !old(wrapped) ==> natcnt == 0)
      ensures natcnt == |Used(owner)| <==> old(natcnt == |Used(owner)|) && |Used(owner)| < 65536
    {
      hide Used, Queue;
      QueueSame(owner, helds, port, Live);
      UsedMore(owner, port, Live);
      UsedWithin(owner[port := Live], minport, maxport + 1);
      owner := owner[port := Live];
      natcnt := Up(natcnt);
      wrapped := wrapped || |Used(owner)| == 65536;
    }

    /** A port goes to the end of the hold queue */
    method Hold(port: int, until: int)
      requires Valid() && port in owner && owner[port].Live?
      modifies this`owner, this`helds
      ensures Valid() && owner == old(owner)[port := OnHold(old(owner), until)]
    {
      hide Used, Queue, NextTurn;
      ghost var x := OnHold(owner, until);
      UsedSame(owner, port, x);
      QueueMore(owner, helds, port, until);
      helds := helds + [HeldPort(port, until)];
      owner := owner[port := x];
    }

    /** free_heldnats, on this queue: from the head on, up to the first whose time has not come */
    method FreeHelds(now: int)
      requires Valid()
      modifies this`owner, this`helds, this`natcnt, freebm
      ensures Valid() && FreedOnly(old(owner), owner, now)
      ensures helds != [] ==> helds[0].timeout > now
    {
      hide Mapped, Queued, Counting, Used;
      while helds != [] && helds[0].timeout <= now
        invariant Valid() && FreedSoFar(old(owner), owner, now)
        decreases |helds|
      {
        ghost var before, h := owner, helds[0];
        FreeFirst();
        FreedMore(old(owner), before, owner, now, h.port);
      }
      HeadFirst();
      AllFreedSoFar(old(owner), owner, now, if helds == [] then 0 else helds[0].port);
    }

    lemma HeadFirst()
      requires Valid()
      ensures helds == [] ==> forall p <- owner :: !owner[p].Held?
      ensures helds != [] ==> helds[0].port in owner && owner[helds[0].port].Held?
                              && owner[helds[0].port].until == helds[0].timeout
      ensures helds != [] ==>
        forall p <- owner :: owner[p].Held? && p != helds[0].port ==> owner[helds[0].port].turn < owner[p].turn
    {
      hide Mapped, Counting, Queue;
      if helds == [] {
        NoQueue(owner);
      } else {
        QueueLess(owner, helds);
      }
    }

    method FreeFirst()
      requires Valid() && helds != []
      modifies this`owner, this`helds, this`natcnt, freebm
      ensures Valid() && helds == old(helds[1..])
      ensures var h := old(helds[0]);
        && h.port in old(owner) && old(owner)[h.port].Held? && old(owner)[h.port].until == h.timeout
        && owner == old(owner)[h.port := Free]
        && forall p <- old(owner) :: old(owner)[p].Held? && p != h.port ==> old(owner)[h.port].turn < old(owner)[p].turn
      ensures natcnt == |Used(owner)| <==> old(natcnt == |Used(owner)|) || (old(natcnt) == 0 && |Used(owner)| == 0)
    {
      hide Used, Queue;
      var h := helds[0];
      QueueLess(owner, helds);
      helds := helds[1..];
      SetBit(freebm, h.port - minport);
      UsedLess(owner, h.port, Free);
      owner := owner[h.port := Free];
      natcnt := Down(natcnt);
    }

    /** The part of del_tunnel that empties the tunnel's bucket */
    method ReturnBucket(tunnel: int, b: Bucket)
      requires Valid() && b.Lists(owner, tunnel)
      modifies this`owner, freebm, b
      ensures Valid() && b.Lists(owner, tunnel) && !b.present
      ensures owner.Keys == old(owner).Keys
      ensures forall p <- owner :: owner[p] == if old(owner)[p] == Reserved(tunnel) then Free else old(owner)[p]
    {
      hide Mapped, Queued, Counting, Used;
      while b.ports != []
        invariant Valid() && b.Lists(owner, tunnel) && owner.Keys == old(owner).Keys
        invariant forall p <- owner ::
          owner[p] == old(owner)[p] || (old(owner)[p] == Reserved(tunnel) && owner[p] == Free)
        decreases |b.ports|
      {
        ReturnLast(tunnel, b);
      }
      b.present := false;
    }

    method ReturnLast(tunnel: int, b: Bucket)
      requires Valid() && b.Lists(owner, tunnel) && b.ports != []
      modifies this`owner, freebm, b`ports
      ensures Valid() && b.Lists(owner, tunnel) && |b.ports| == |old(b.ports)| - 1
      ensures owner.Keys == old(owner).Keys
      ensures forall p <- owner :: owner[p] == old(owner)[p] || (old(owner)[p] == Reserved(tunnel) && owner[p] == Free)
    {
      hide Used, Queue, Bucket.Lists;
      var port := b.Pop(owner, tunnel, Free);
      UsedSame(owner, port, Free);
      QueueSame(owner, helds, port, Free);
      SetBit(freebm, port - minport);
      owner := owner[port := Free];
    }
  }
}
