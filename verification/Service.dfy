/**
  The NAT over time: any sequence of packets, seconds and commands, and what it does to
  the ports.
 */
module Service {
  import opened Options
  import opened NatEntry
  import opened NatTable
  import opened PortRange
  import opened Binding
  import opened Caches
  import opened Aftr
  import opened Packet
  import opened Translation
  import opened Reload

  /** A run: the owners of all ports after each call, and the time of the call */
  ghost predicate Run(states: seq<map<Pool, Owners>>, times: seq<int>, hold: int) {
    && |states| == |times| + 1
    && (forall i | 0 <= i < |times| :: Step(states, times, hold, i))
    && (forall i, j | 0 <= i < j < |times| :: times[i] <= times[j])
  }

  ghost predicate Step(states: seq<map<Pool, Owners>>, times: seq<int>, hold: int, i: nat)
    requires i < |times| && |states| == |times| + 1
  {
    Changed(states[i], states[i + 1], times[i], hold)
  }

  lemma RunMore(states: seq<map<Pool, Owners>>, times: seq<int>, hold: int, o: map<Pool, Owners>, now: int)
    requires Run(states, times, hold) && Changed(states[|times|], o, now, hold)
    requires forall i | 0 <= i < |times| :: times[i] <= now
    ensures Run(states + [o], times + [now], hold)
  {
    hide Changed;
    forall i | 0 <= i < |times| + 1 ensures Step(states + [o], times + [now], hold, i) {
      assert i < |times| ==> Step(states, times, hold, i);
    }
  }

  /** The pools stay, with the ports they have */
  lemma {:induction false} SamePorts(
    states: seq<map<Pool, Owners>>, times: seq<int>, hold: int, a: Pool, i: nat, j: nat)
    requires Run(states, times, hold) && i <= j < |states| && a in states[i]
    ensures a in states[j] && states[j][a].Keys == states[i][a].Keys
  {
    if i < j {
      SamePorts(states, times, hold, a, i, j - 1);
      assert Step(states, times, hold, j - 1);
    }
  }

  /** A port that goes on hold is on hold until its time has come */
  lemma {:induction false} HoldDown(states: seq<map<Pool, Owners>>, times: seq<int>, hold: int, a: Pool, p: int, i: nat,
      j: nat)
    requires Run(states, times, hold) && i <= j < |states| && a in states[i] && p in states[i][a]
    requires states[i][a][p].Held?
    ensures a in states[j] && p in states[j][a]
    ensures states[j][a][p] == states[i][a][p] || times[j - 1] >= states[i][a][p].until
  {
    SamePorts(states, times, hold, a, i, j);
    if i < j {
      HoldDown(states, times, hold, a, p, i, j - 1);
      SamePorts(states, times, hold, a, i, j - 1);
      assert Step(states, times, hold, j - 1);
      if states[j - 1][a][p] != states[i][a][p] {
        assert times[j - 2] <= times[j - 1];
      }
    }
  }

  /** A port released at a time s, however the binding ended, has no other use before s + hold */
  lemma NotReissued(states: seq<map<Pool, Owners>>, times: seq<int>, hold: int, a: Pool, p: int, i: nat, j: nat)
    requires Run(states, times, hold) && i < j < |states| && a in states[i] && p in states[i][a]
    requires states[i][a][p].Live? && a in states[i + 1] && p in states[i + 1][a] && !states[i + 1][a][p].Live?
    ensures a in states[j] && p in states[j][a]
    ensures (states[j][a][p].Held? && states[j][a][p].until == times[i] + hold) || times[j - 1] >= times[i] + hold
  {
    assert Step(states, times, hold, i);
    HoldDown(states, times, hold, a, p, i + 1, j);
  }

  /** A NAT without tunnels and pools, and its cache */
  method Start(bucketSize: seq<nat>, holdLifetime: int, cacheSize: nat, hash: HashKey -> nat) returns (v: Nats)
    requires |bucketSize| == PRCNT && (forall i | 0 <= i < PRCNT :: 1 <= bucketSize[i] <= 255) && cacheSize > 0
    ensures v.Valid() && v.Cached() && v.b.table.entries == {} && v.b.ports.ranges == map[] && v.b.ports.source == map[]
    ensures v.holdLifetime == holdLifetime
    ensures fresh(v) && fresh(v.b.Region()) && fresh(v.cache) && fresh(v.cache.slots) && fresh(v.heap)
    ensures fresh(v.heap.heap)
  {
    hide Nats.Valid, Bindings.Region, NatCache.Ok;
    var cache := new NatCache(cacheSize, hash);
    v := new Nats(bucketSize, holdLifetime, cache);
  }

  class Server {
    const v: Nats
    const c: Config
    /** The entries of the configuration and of ended sessions, and the collection of them */
    const col: Collector
    var clock: int
    ghost var past: seq<map<Pool, Owners>>
    ghost var times: seq<int>

    ghost predicate Recorded()
      reads this`past, this`times, this`clock
    {
      Run(past, times, v.holdLifetime) && forall i | 0 <= i < |times| :: times[i] <= clock
    }

    ghost predicate Valid()
      reads this, v, v.b.table, v.b.ports, v.b.Region(), v.heap, v.heap.heap, v.heap.entries, v.b.table.entries, v.cache
      reads v.cache.slots, col, col.confnats`generation
    {
      && v.Valid() && v.Cached() && c.Ok() && (this as object) !in v.b.Region()
      && Recorded() && past[|times|] == v.b.ports.Owners() && col.v == v && col.Settled()
      && Ordered(v.b.ports.Owners(), clock + v.holdLifetime)
    }

    /** The program as it starts, without tunnels and pools */
    constructor (bucketSize: seq<nat>, holdLifetime: int, cacheSize: nat, hash: HashKey -> nat, c: Config)
      requires |bucketSize| == PRCNT && (forall i | 0 <= i < PRCNT :: 1 <= bucketSize[i] <= 255) && cacheSize > 0
      requires c.Ok()
      ensures Valid() && v.b.table.entries == {} && v.b.ports.ranges == map[] && v.b.ports.source == map[]
      ensures v.holdLifetime == holdLifetime && this.c == c && clock == 0 && times == []
      ensures !col.reloading && col.needgc == col.needbt == 0
    {
      hide Nats.Valid, Nats.Cached, Bindings.Region;
      var nats := Start(bucketSize, holdLifetime, cacheSize, hash);
      nats.b.Older();
      var collector := new Collector(nats);
      v, this.c, col, clock := nats, c, collector, 0;
      past, times := [nats.b.ports.Owners()], [];
    }

    /** The owners after a call are written down */
    method Record(now: int)
      requires v.Valid() && v.Cached() && c.Ok() && (this as object) !in v.b.Region() && Recorded() && clock <= now
      requires Changed(past[|times|], v.b.ports.Owners(), now, v.holdLifetime) && col.v == v && col.Settled()
      requires Ordered(past[|times|], clock + v.holdLifetime)
      modifies this`clock, this`past, this`times
      ensures Valid() && past == old(past) + [v.b.ports.Owners()] && times == old(times) + [now] && clock == now
    {
      hide Nats.Valid, Nats.Cached, Changed, Collector.Settled, Ordered;
      ChangedOrdered(past[|times|], v.b.ports.Owners(), now, v.holdLifetime, clock + v.holdLifetime);
      RunMore(past, times, v.holdLifetime, v.b.ports.Owners(), now);
      past := past + [v.b.ports.Owners()];
      times := times + [now];
      clock := now;
    }

    /** What every call adds to the record */
    twostate predicate Called(now: int)
      reads this`past, this`times, this`clock, v.b.ports, v.b.ports.ranges.Values
    {
      past == old(past) + [v.b.ports.Owners()] && times == old(times) + [now] && clock == now
    }

    /** A packet from a tunnel */
    method FromTunnel(t: int, buf4: array<Byte>, limited: bool, now: nat)
      returns (ok: bool, ghost n: Nat?, ghost draws: seq<int>)
      requires Valid() && clock <= now && now > 0 && buf4.Length >= HEADERS && Translated(buf4[PROTO])
      requires QuadAt(buf4[..], DST) != NO_ADDR && SlotOf(InKey(t, buf4[..])) in v.b.ports.source
      requires (buf4 as object) !in v.b.Region() && (buf4 as object) != v.heap.heap
      modifies this`clock, this`past, this`times
      modifies v`counters, v.b.Region(), v.heap, v.heap.heap, v.heap.entries`heapIndex, buf4
      modifies v.b.table.entries`left, v.b.table.entries`right, v.b.table.entries`parent, v.b.table.entries`red
      modifies v.b.table.entries`tleft, v.b.table.entries`tright, v.b.table.entries`heapIndex
      modifies v.b.table.entries`tcpst, v.b.table.entries`lifetime, v.b.table.entries`timeout
      ensures Valid() && Called(now) && (ok <==> n != null)
      ensures !ok ==> v.b.table.entries == old(v.b.table.entries) && buf4[..] == old(buf4[..])
      ensures ok ==> n in v.b.table.entries && Carries(n, InKey(t, old(buf4[..])))
                     && buf4[..] == Sent(old(buf4[..]), n.key) && LeavesAs(old(buf4[..]), buf4[..], n.key)
      ensures ok ==> v.b.table.entries ==
                     if n in old(v.b.table.entries) then old(v.b.table.entries) else old(v.b.table.entries) + {n}
      ensures old(Findable(v.b.table.entries, InKey(t, buf4[..])) && Carried(v.b.table.entries, InKey(t, buf4[..]))) ==>
        ok && n in old(v.b.table.entries)
      ensures old(Findable(v.b.table.entries, InKey(t, buf4[..])) && Allowed(v, c, InKey(t, buf4[..]), limited)
                  && !Carried(v.b.table.entries, InKey(t, buf4[..])))
              ==> Drawing(old(v.b.ports.Owners()), old(v.b.ports.source), InKey(t, old(buf4[..])), draws, ok)
      ensures old(Findable(v.b.table.entries, InKey(t, buf4[..])) && Allowed(v, c, InKey(t, buf4[..]), limited)
                  && (Supplied(v, InKey(t, buf4[..])) || Unused(v, InKey(t, buf4[..]))))
              ==> ok
      ensures forall p: Key :: Findable(old(v.b.table.entries), p) ==> Findable(v.b.table.entries, p)
      ensures ok ==> n in old(v.b.table.entries) || old(Allowed(v, c, InKey(t, buf4[..]), limited))
      ensures ok ==> TimerOf(n) ==
                     AfterPacket(c, if n in old(v.b.table.entries) then old(TimerOf(n))
                                    else FirstTimer(c, n.key.proto, now),
                                 n.key.proto == TCP, true, old(buf4[TCP_FLAGS]), now)
      ensures old(col.Collecting()) ==> col.Collecting()
      ensures old(col.Backing()) ==> col.Backing()
    {
      hide Nats.Valid, Nats.Cached, RegionOf, Run, Changed, Distinct, Flat, Collector.Phase, Collects, Backs,
        Carries, Rewritten, SlotOf, Template, QuadAt, PairAt, AfterPacket, FirstTimer, Allowed, Supplied, Unused,
        Drawing, Carried, Findable, LeavesAs;
      Alone();
      v.b.NatsOutside(v.b.table.entries);
      v.Outside();
      ok, n, draws := NatIn(v, c, t, buf4, limited, now);
      Record(now);
    }

    /** A packet from the Internet */
    method FromInternet(buf4: array<Byte>, tooBig: bool, now: nat) returns (tunnel: Option<int>, ghost n: Nat?)
      requires Valid() && clock <= now && now > 0 && buf4.Length >= HEADERS && Translated(buf4[PROTO])
      requires (buf4 as object) !in v.b.Region() && (buf4 as object) != v.heap.heap
      modifies this`clock, this`past, this`times
      modifies v.b.Region(), v.heap.heap, v.heap.entries`heapIndex, v.cache.slots, buf4
      modifies v.b.table.entries`hash, v.b.table.entries`tleft, v.b.table.entries`tright
      modifies v.b.table.entries`tcpst, v.b.table.entries`lifetime, v.b.table.entries`timeout
      ensures Valid() && Called(now) && v.b.table.entries == old(v.b.table.entries)
      ensures LookedUp(n, v.b.table.entries, OutKey(old(buf4[..])), col.lastgen)
      ensures n == old(FromCache(v.cache.At(OutKey(buf4[..])), v.b.table.Sought(OutKey(buf4[..])), OutKey(buf4[..]),
                                 col.lastgen))
      ensures tunnel == if n == null || tooBig then None else Some(n.key.tunnel)
      ensures buf4[..] == if tunnel == None || n.key.flags.prrNull
        then old(buf4[..])
        else Delivered(old(buf4[..]), n.key)
      ensures tunnel != None && !n.key.flags.prrNull ==> ArrivesAs(old(buf4[..]), buf4[..], n.key)
      ensures n != null ==> TimerOf(n) ==
                            if tunnel == None || n.key.flags.prrNull then old(TimerOf(n))
                            else AfterPacket(c, old(TimerOf(n)), n.key.proto == TCP, false, old(buf4[TCP_FLAGS]), now)
      ensures old(col.Collecting()) ==> col.Collecting()
      ensures old(col.Backing()) ==> col.Backing()
    {
      hide Nats.Valid, Nats.Cached, RegionOf, Run, Changed, Distinct, Flat, Collector.Phase, Collects, Backs,
        LookedUp, FromCache, Rewritten, ArrivesAs, Template, QuadAt, PairAt, AfterPacket;
      Alone();
      v.b.NatsOutside(v.b.table.entries);
      v.Outside();
      v.CacheOutside();
      tunnel, n := NatOut(v, c, buf4, tooBig, col.lastgen, now);
      Unchanged(v.b.ports.Owners(), now, v.holdLifetime);
      Record(now);
    }

    /** The housekeeping of a second */
    method Second(now: int)
      requires Valid() && clock <= now
      modifies this`clock, this`past, this`times
      modifies v`counters, v.b.Region(), v.heap, v.heap.heap, v.heap.entries`heapIndex, v.cache.slots
      modifies v.b.table.entries`left, v.b.table.entries`right, v.b.table.entries`parent, v.b.table.entries`red
      modifies v.b.table.entries`tleft, v.b.table.entries`tright, v.b.table.entries`heapIndex
      ensures Valid() && Called(now) && forall n <- v.heap.entries :: n.timeout >= now
      ensures v.b.ports.ranges == old(v.b.ports.ranges)
      ensures forall a <- v.b.ports.ranges :: OverFreed(old(v.b.ports.Owners())[a], v.b.ports.Owners()[a], now)
      ensures v.b.table.entries == set n | n in old(v.b.table.entries) && (old(n.timeout) == 0 || old(n.timeout) >= now)
      ensures old(col.Collecting()) ==> col.Collecting()
      ensures old(col.Backing()) ==> col.Backing()
    {
      hide Nats.Valid, Nats.Cached, RegionOf, Run, Changed, Distinct, Flat, Collector.Phase, Collects, Backs, Freed;
      Alone();
      v.b.NatsOutside(v.b.table.entries);
      v.Expire(now);
      Record(now);
    }

    /** A binding is deleted by a command */
    method Delete(n: Nat, now: int)
      requires Valid() && clock <= now && n in v.b.table.entries
      modifies this`clock, this`past, this`times
      modifies col`gcPtr, col`btPtr, col`confnats, col`orphans, col`done, col`goal
      modifies v`counters, v.b.Region(), v.heap, v.heap.heap, v.heap.entries`heapIndex, v.cache.slots
      modifies v.b.table.entries`left, v.b.table.entries`right, v.b.table.entries`parent, v.b.table.entries`red
      modifies v.b.table.entries`tleft, v.b.table.entries`tright, v.b.table.entries`heapIndex
      ensures Valid() && Called(now) && v.b.table.entries == old(v.b.table.entries) - {n}
      ensures n !in col.confnats && n !in Flat(col.orphans)
      ensures old(col.Collecting()) ==> col.Collecting() && col.goal == Without(old(col.goal), n)
      ensures old(col.Backing()) ==> col.Backing()
    {
      hide Nats.Valid, Nats.Cached, RegionOf, Run, Changed, Collector.Settled, Dropped, Without, Flat, Collects, Backs;
      Alone();
      ghost var o := v.b.ports.Owners();
      col.Delete(n, now);
      DroppedChanged(o, v.b.ports.Owners(), now, v.holdLifetime);
      Record(now);
    }

    /** A static binding, of the configuration that is being read or of a session */
    method AddStatic(k: Key, addr: Quad, configured: bool, session: nat, now: int) returns (n: Nat?)
      requires Valid() && clock <= now && Admissible(k) && k.flags.allDst && (!k.flags.prrNull ==> addr == k.nsrc)
      requires PoolOf(k) in v.b.ports.ranges ==> v.Housed(k.tunnel, addr)
      requires session < FIRST_GEN && (configured ==> col.reloading)
      modifies this`clock, this`past, this`times
      modifies col`confnats, v`counters, v.b.Region()
      modifies v.b.table.entries`left, v.b.table.entries`right, v.b.table.entries`parent, v.b.table.entries`red
      modifies v.b.table.entries`tleft, v.b.table.entries`tright
      ensures Valid() && Called(now)
      ensures n != null <==>
              && PoolOf(k) in v.b.ports.ranges && !InRange(v.b.ports.Owners(), k)
              && (forall m <- OfIndex(old(v.b.table.entries), Index(k.proto)) :: TreeRank(m.key) != TreeRank(k))
              && (forall m <- Of(old(v.b.table.entries), SlotOf(k)) :: SplayRank(m.key) != SplayRank(k))
      ensures v.b.table.entries == if n == null then old(v.b.table.entries) else old(v.b.table.entries) + {n}
      ensures n != null ==> n.key == k && n.generation == if configured then col.lastgen else session
      ensures col.confnats == if n != null && configured then [n] + old(col.confnats) else old(col.confnats)
      ensures v.b.ports.source == if PoolOf(k) in v.b.ports.ranges && !InRange(v.b.ports.Owners(), k)
        then WithTunnel(old(v.b.ports.source), k.tunnel, addr)
        else old(v.b.ports.source)
    {
      hide Nats.Valid, Nats.Cached, RegionOf, Run, Changed, Admissible, SlotOf, TreeRank, SplayRank,
        InRange, Of, OfIndex, Collector.Settled, Nats.Housed, WithTunnel;
      Alone();
      n := col.AddStatic(k, addr, configured, session);
      Unchanged(v.b.ports.Owners(), now, v.holdLifetime);
      Record(now);
    }

    method AddPool(addr: Quad, minports: seq<nat>, maxports: seq<nat>, now: int)
      requires Valid() && clock <= now && |minports| == |maxports| == PRCNT
      requires forall i: nat | i < PRCNT :: minports[i] <= maxports[i] <= 65535 && Pool(addr, i) !in v.b.ports.ranges
      modifies this`clock, this`past, this`times
      modifies v.b.Region()
      ensures Valid() && Called(now) && v.b.table.entries == old(v.b.table.entries)
      ensures v.b.ports.ranges.Keys == old(v.b.ports.ranges).Keys + {Pool(addr, 0), Pool(addr, 1), Pool(addr, 2)}
    {
      hide Nats.Valid, Nats.Cached, Bindings.Region, Run, Changed, Extended, Distinct, Flat, Collector.Phase, Outside;
      Alone();
      v.b.NatsOutside(v.b.table.entries);
      ghost var o := v.b.ports.Owners();
      v.AddPool(addr, minports, maxports);
      ExtendedChanged(o, v.b.ports.Owners(), now, v.holdLifetime);
      Record(now);
    }

    method AddTunnel(tunnel: int, addr: Quad, now: int)
      requires Valid() && clock <= now
      requires forall i: nat | i < PRCNT :: Slot(tunnel, i) !in v.b.ports.source && Pool(addr, i) in v.b.ports.ranges
      modifies this`clock, this`past, this`times
      modifies v.b.Region()
      ensures Valid() && Called(now) && v.b.table.entries == old(v.b.table.entries)
    {
      hide Nats.Valid, Nats.Cached, Bindings.Region, Run, Changed, Distinct, Flat, Collector.Phase, Collects, Backs,
        Outside;
      Alone();
      v.b.NatsOutside(v.b.table.entries);
      v.AddTunnel(tunnel, addr);
      Unchanged(v.b.ports.Owners(), now, v.holdLifetime);
      Record(now);
    }

    /** A tunnel goes, with its bindings, which leave the configuration with it */
    method DelTunnel(tunnel: int, now: int)
      requires Valid() && clock <= now && forall i: nat | i < PRCNT :: Slot(tunnel, i) in v.b.ports.source
      modifies this`clock, this`past, this`times
      modifies col`gcPtr, col`btPtr, col`confnats, col`orphans, col`done, col`goal
      modifies v`counters, v.b.Region(), v.heap, v.heap.heap, v.heap.entries`heapIndex, v.cache.slots
      modifies v.b.table.entries`left, v.b.table.entries`right, v.b.table.entries`parent, v.b.table.entries`red
      modifies v.b.table.entries`tleft, v.b.table.entries`tright, v.b.table.entries`heapIndex
      ensures Valid() && Called(now)
      ensures v.b.table.entries == set n | n in old(v.b.table.entries) && n.key.tunnel != tunnel
      ensures col.confnats == OtherTunnels(old(col.confnats), tunnel)
      ensures old(col.Collecting()) ==> col.Collecting() && col.goal == OtherTunnels(old(col.goal), tunnel)
      ensures old(col.Backing()) ==> col.Backing()
    {
      hide Nats.Valid, Nats.Cached, RegionOf, Run, Changed, Collector.Settled, Withdrawn, OtherTunnels, Collects, Backs;
      Alone();
      col.DelTunnel(tunnel, now);
      Record(now);
    }

    // ---------- Reloads, and what follows them ----------

    method StartReload() returns (ok: bool)
      requires Valid()
      modifies col`lastgen, col`savedgen, col`reloading
      ensures Valid() && (ok <==> !old(col.reloading) && col.needgc == 0 && col.needbt == 0)
      ensures ok ==> col.reloading && col.lastgen == old(col.lastgen) + 1
    {
      hide Nats.Valid, Nats.Cached, RegionOf, Run, Collector.Lists, Collector.Outer, Collector.Static, Collector.Phase;
      v.b.Older();
      ok := col.StartReload();
    }

    /** The configuration declares an entry that is there */
    method Confirm(n: Nat)
      requires Valid() && col.reloading && n in v.b.table.entries && n.key.flags.allDst
      modifies col`confnats, col`orphans, n`generation
      ensures Valid() && n in col.confnats && n !in Flat(col.orphans) && n.generation == col.lastgen
      ensures v.b.table.entries == old(v.b.table.entries)
    {
      hide Nats.Valid, Nats.Cached, RegionOf, Run, Changed, Collector.Settled, Without, Flat;
      Alone();
      v.b.Older();
      v.b.NatsOutside(v.b.table.entries);
      col.Confirm(n);
    }

    method FinishReload(failed: bool)
      requires Valid() && col.reloading
      modifies col`reloading, col`lastgen, col`needgc, col`gcPtr, col`needbt, col`btPtr, col`done, col`goal
      ensures Valid() && !col.reloading
      ensures if failed then col.needbt == 2 && col.lastgen == old(col.savedgen)
              else col.Collecting() && col.goal == Kept(col.confnats, col.lastgen)
    {
      hide Nats.Valid, Nats.Cached, RegionOf, Run, Collector.Lists, Collector.Outer, Collector.Static, Collector.Phase,
        Kept;
      v.b.Older();
      col.FinishReload(failed);
    }

    method EndSession(list: seq<Nat>, generation: nat)
      requires Valid() && Distinct(list)
      requires forall n <- list ::
        n in v.b.table.entries && n.key.flags.allDst && n !in col.confnats && n !in Flat(col.orphans)
      modifies col`orphans, col`needgc, col`gcPtr, list`generation
      ensures Valid() && v.b.table.entries == old(v.b.table.entries) && col.orphans == [list] + old(col.orphans)
    {
      hide Nats.Valid, Nats.Cached, RegionOf, Run, Changed, Collector.Settled, Distinct, Flat;
      Alone();
      v.b.Older();
      v.b.NatsOutside(v.b.table.entries);
      col.EndSession(list, generation);
    }

    /** A slice of the collection */
    method Collect(quantum: nat, now: int)
      requires Valid() && clock <= now && quantum > 0 && col.needgc > 0
      modifies this`clock, this`past, this`times
      modifies col`orphans, col`confnats, col`gcPtr, col`needgc, col`done
      modifies v`counters, v.b.Region(), v.heap, v.heap.heap, v.heap.entries`heapIndex, v.cache.slots
      modifies v.b.table.entries`left, v.b.table.entries`right, v.b.table.entries`parent, v.b.table.entries`red
      modifies v.b.table.entries`tleft, v.b.table.entries`tright, v.b.table.entries`heapIndex
      ensures Valid() && Called(now) && (col.needgc == 0 ==> col.orphans == [])
      ensures old(col.Collecting()) ==> if col.needgc == 0 then col.confnats == col.goal else col.Collecting()
      ensures col.needgc != 0 ==> |v.b.table.entries| + quantum == |old(v.b.table.entries)|
      ensures v.b.table.entries <= old(v.b.table.entries)
      ensures forall n <- old(v.b.table.entries) - v.b.table.entries ::
        || n in old(Flat(col.orphans))
        || (n in old(col.confnats) && FIRST_GEN <= old(n.generation) < col.lastgen)
    {
      hide Nats.Valid, Nats.Cached, RegionOf, Run, Changed, Collector.Settled, Dropped, Collects, Flat;
      Alone();
      ghost var o := v.b.ports.Owners();
      col.GcIncr(quantum, now);
      DroppedChanged(o, v.b.ports.Owners(), now, v.holdLifetime);
      Record(now);
    }

    /** A slice of the backtrack */
    method Backtrack(quantum: nat)
      requires Valid() && quantum > 0 && col.needbt > 0
      modifies col`btPtr, col`needbt, col`done, v.b.table.entries`generation
      ensures Valid() && v.b.table.entries == old(v.b.table.entries)
      ensures col.needbt == 0 ==> forall n <- v.b.table.entries :: n.generation <= col.lastgen
      ensures forall n <- v.b.table.entries :: n.generation == old(n.generation)
                || (n in col.confnats && n.generation == col.lastgen < old(n.generation))
    {
      hide Nats.Valid, Nats.Cached, RegionOf, Run, Changed, Collector.Settled, Backs;
      Alone();
      v.b.Older();
      v.b.NatsOutside(v.b.table.entries);
      col.BtIncr(quantum);
    }

    /** Another cache, and another hash */
    method NewCache(size: nat, hash: HashKey -> nat)
      requires Valid() && size > 0
      modifies v.cache
      ensures Valid()
    {
      hide Nats.Valid, NatCache.Ok, RegionOf, Collector.Phase, Distinct, Flat, Outside;
      v.b.Older();
      v.cache.Resize(size, hash);
    }

    // ---------- In every state that calls lead to ----------

    /** Whatever binding had a port that was released at times[i], the port has no other use before
        times[i] + holdLifetime */
    lemma NeverTooEarly(a: Pool, p: int, i: nat)
      requires Valid() && i < |times| && a in past[i] && p in past[i][a] && past[i][a][p].Live?
      requires a in past[i + 1] && p in past[i + 1][a] && !past[i + 1][a][p].Live?
      ensures a in v.b.ports.Owners() && p in v.b.ports.Owners()[a]
      ensures var x := v.b.ports.Owners()[a][p];
        (x.Held? && x.until == times[i] + v.holdLifetime) || clock >= times[i] + v.holdLifetime
    {
      hide Nats.Valid, Nats.Cached, RegionOf, Step, Collector.Settled;
      NotReissued(past, times, v.holdLifetime, a, p, i, |times|);
    }

    /** Every port of every pool is in exactly one place */
    lemma EveryPort(a: Pool, p: int)
      requires Valid() && a in v.b.ports.ranges && v.b.ports.ranges[a].minport <= p <= v.b.ports.ranges[a].maxport
      ensures v.b.OnePlace(a, p)
    {
      hide Bindings.Valid, Nats.Cached, RegionOf, Recorded, Collector.Settled, Bindings.OnePlace;
      v.b.Partition(a, p);
    }

    /** The counter of a pool is the number of its live entries and of its ports on hold, unless it has gone round */
    lemma PoolCount(a: Pool)
      requires Valid() && a in v.b.ports.ranges && !v.b.ports.ranges[a].wrapped
      ensures v.b.ports.ranges[a].natcnt == |v.b.LiveOf(a)| + |v.b.ports.ranges[a].helds|
    {
      hide Bindings.Valid, Nats.Cached, RegionOf, Recorded, Collector.Settled, Bindings.LiveOf;
      v.b.Counted(a);
    }

    lemma Alone()
      requires Valid()
      ensures (this as object) !in v.b.Region()
    {
    }
  }
}
