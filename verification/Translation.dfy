/**
  Source translation of packets from a tunnel and back: the rewriting of a packet in
  place, the state of TCP connections, and where a reply ends up.
 */
module Translation {
  import opened Options
  import opened NatEntry
  import opened NatTable
  import opened Checksum
  import opened Packet
  import opened PortRange
  import opened PortPool
  import opened Binding
  import opened Caches
  import opened Aftr

  /** What natin looks for */
  function InKey(t: int, s: Bytes): (k: Key)
    requires |s| >= HEADERS
    ensures Template(k)
  {
    var icmp := s[PROTO] == ICMP;
    Key(t, s[PROTO], Flags(false, false, !icmp, icmp), QuadAt(s, SRC), PairAt(s, SourcePort(s[PROTO])),
        NO_ADDR, NO_PORT, QuadAt(s, DST), if icmp then NO_PORT else PairAt(s, DPORT))
  }

  /** What natout looks for */
  function OutKey(s: Bytes): (k: Key)
    requires |s| >= HEADERS
    ensures Template(k)
  {
    var icmp := s[PROTO] == ICMP;
    Key(0, s[PROTO], Flags(false, false, !icmp, icmp), NO_ADDR, NO_PORT,
        QuadAt(s, DST), PairAt(s, TargetPort(s[PROTO])), QuadAt(s, SRC), if icmp then NO_PORT else PairAt(s, SPORT))
  }

  // ---------- The two directions ----------

  /** An entry a packet from tunnel t goes through */
  ghost predicate Carries(n: Nat, k: Key) {
    n.key.tunnel == k.tunnel && n.key.proto == k.proto && n.key.src == k.src && n.key.sport == k.sport
    && (n.key.flags.allDst || (n.key.dst == k.dst && n.key.dport == k.dport))
  }

  lemma MatchCarries(k: Key, m: Key)
    requires Template(k)
    ensures SplayCompareWild(k, m) == 0 <==>
            && m.tunnel == k.tunnel && m.proto == k.proto && m.src == k.src && m.sport == k.sport
            && (m.flags.allDst || (m.dst == k.dst && m.dport == k.dport))
  {
    SplayGroupOrder(k, m);
    DstWildOrder(k, m);
  }

  lemma TreeMatch(k: Key, m: Key)
    requires Template(k)
    ensures TreeCompareWild(k, m) == 0 <==>
            && m.proto == k.proto && m.nsrc == k.nsrc && m.nport == k.nport
            && (m.flags.allDst || (m.dst == k.dst && m.dport == k.dport))
  {
    TreeGroupOrder(k, m);
    DstWildOrder(k, m);
  }

  /** nat_lifetime[] and maxtnatcnt[] */
  datatype Config = Config(lifetimes: seq<nat>, maxTnat: seq<nat>) {
    predicate Ok() { |lifetimes| == 5 && |maxTnat| == PRCNT }
  }

  /** What tcpstate_in and tcpstate_out make of a FIN or RST: the new state, and whether both sides have closed */
  function Closing(st: TcpState, inbound: bool, rst: bool): (TcpState, bool) {
    if rst then (TcpState(st.acked, true, true), true)
    else if inbound then (st.(closedIn := true), !st.closedIn && st.closedOut)
    else (st.(closedOut := true), !st.closedOut && st.closedIn)
  }

  /** The state of a connection, how long it is kept, and until when */
  datatype Timer = Timer(st: TcpState, lifetime: nat, timeout: int)

  ghost function TimerOf(n: Nat): Timer
    reads n`tcpst, n`lifetime, n`timeout
  {
    Timer(n.tcpst, n.lifetime, n.timeout)
  }

  predicate Ack(flags: Byte) { flags / 16 % 2 == 1 }
  predicate Rst(flags: Byte) { flags / 4 % 2 == 1 }
  predicate Fin(flags: Byte) { flags % 2 == 1 }

  /** How long a connection is kept that both sides have closed */
  function Closed(c: Config, st: TcpState, rst: bool): nat
    requires c.Ok()
  {
    if !rst then c.lifetimes[1] else if st.acked then c.lifetimes[3] else c.lifetimes[4]
  }

  /** What a TCP segment does to the timer of a dynamic binding */
  function AfterSegment(c: Config, t: Timer, inbound: bool, flags: Byte, now: nat): Timer
    requires c.Ok()
  {
    var u := if t.st == TcpState(false, false, false) && Ack(flags) then t.(st := TcpState(true, false, false)) else t;
    if Fin(flags) || Rst(flags) then AfterClosing(c, u, inbound, Rst(flags), now) else u
  }

  /** and of these a FIN or RST */
  function AfterClosing(c: Config, t: Timer, inbound: bool, rst: bool, now: nat): Timer
    requires c.Ok()
  {
    var (st, both) := Closing(t.st, inbound, rst);
    if !both then t.(st := st)
    else
      var lifetime := Closed(c, st, rst);
      Timer(st, lifetime, if t.timeout <= now + lifetime then t.timeout else now + lifetime)
  }

  /** What a packet does to the timer of a binding.  A static one has none.  A segment that makes the timeout fall
      leaves it at that; any other packet lets it rise to what is allowed in its direction. */
  function AfterPacket(c: Config, t: Timer, tcp: bool, inbound: bool, flags: Byte, now: nat): Timer
    requires c.Ok()
  {
    if t.timeout == 0 then t
    else
      var s := if tcp then AfterSegment(c, t, inbound, flags, now) else t;
      var until := now + if inbound then c.lifetimes[4] else s.lifetime;
      if s.timeout < t.timeout || until <= s.timeout then s else s.(timeout := until)
  }

  /** A timeout falls only when a segment closes the connection for both sides, and then to the time that is left
      to it; otherwise it never falls, and the binding lives at least as long as the packet's direction allows */
  lemma PacketTimes(c: Config, t: Timer, tcp: bool, inbound: bool, flags: Byte, now: nat)
    requires c.Ok() && now > 0
    ensures var u := AfterPacket(c, t, tcp, inbound, flags, now);
      && (u.timeout == 0 <==> t.timeout == 0)
      && (u.timeout < t.timeout ==>
            tcp && (Fin(flags) || Rst(flags)) && u.st.closedIn && u.st.closedOut && u.timeout == now + u.lifetime)
      && (t.timeout != 0 && u.timeout >= t.timeout ==>
            && now + (if inbound then c.lifetimes[4] else u.lifetime) <= u.timeout
            && (u.timeout == t.timeout || u.timeout == now + if inbound then c.lifetimes[4] else u.lifetime))
      && (!tcp ==> u.st == t.st && u.lifetime == t.lifetime)
  {
  }

  lemma NoTimer(c: Config, t: Timer, tcp: bool, inbound: bool, flags: Byte, now: nat)
    requires c.Ok()
    ensures t.timeout == 0 ==> AfterPacket(c, t, tcp, inbound, flags, now) == t
  {
  }

  /** Once both sides have closed a connection without resetting it, no segment changes its timer by closing it again */
  lemma ClosedStaysClosed(c: Config, t: Timer, inbound: bool, flags: Byte, now: nat)
    requires c.Ok() && t.st.closedIn && t.st.closedOut && !Rst(flags)
    ensures AfterSegment(c, t, inbound, flags, now) == t
  {
  }

  /** What one segment does, case by case */
  lemma SegmentTimes(c: Config, t: Timer, inbound: bool, flags: Byte, now: nat)
    requires c.Ok() && t.timeout != 0
    ensures var u := AfterPacket(c, t, true, inbound, flags, now);
      var closes := if inbound then !t.st.closedIn && t.st.closedOut else !t.st.closedOut && t.st.closedIn;
      && (u.st.acked <==> t.st.acked || (Ack(flags) && !t.st.closedIn && !t.st.closedOut))
      && (u.st.closedIn <==> t.st.closedIn || Rst(flags) || (Fin(flags) && inbound))
      && (u.st.closedOut <==> t.st.closedOut || Rst(flags) || (Fin(flags) && !inbound))
      && u.lifetime == (if Rst(flags) then c.lifetimes[if u.st.acked then 3 else 4]
                        else if Fin(flags) && closes then c.lifetimes[1] else t.lifetime)
      && u.timeout == if (Rst(flags) || (Fin(flags) && closes)) && now + u.lifetime < t.timeout then now + u.lifetime
                      else AtLeast(t.timeout, now + if inbound then c.lifetimes[4] else u.lifetime)
  {
  }

  function AtLeast(x: int, y: int): int { if x < y then y else x }

  /** The timer of a binding after the packet that made it */
  lemma FirstTimes(c: Config, proto: Byte, flags: Byte, now: nat)
    requires c.Ok() && Translated(proto) && now > 0
    ensures var u := AfterPacket(c, FirstTimer(c, proto, now), proto == TCP, true, flags, now);
      && (proto == UDP ==> u.lifetime == c.lifetimes[2]) && (proto == ICMP ==> u.lifetime == c.lifetimes[3])
      && (proto == TCP ==> u.lifetime == c.lifetimes[if !Rst(flags) then 0 else if Ack(flags) then 3 else 4])
      && u.timeout == now + if proto == TCP && Rst(flags) && u.lifetime < c.lifetimes[4]
                            then u.lifetime else c.lifetimes[4]
  {
  }

  // ---------- Whole connections ----------

  datatype Segment = Segment(inbound: bool, flags: Byte, now: nat)

  function AfterAll(c: Config, t: Timer, seen: seq<Segment>): Timer
    requires c.Ok()
  {
    if |seen| == 0 then t
    else
      var last := seen[|seen| - 1];
      AfterPacket(c, AfterAll(c, t, seen[..|seen| - 1]), true, last.inbound, last.flags, last.now)
  }

  ghost predicate FinAmong(seen: seq<Segment>, inbound: bool) {
    exists s :: s in seen && s.inbound == inbound && Fin(s.flags)
  }

  /** Until it is reset, a connection is closed by the FINs of both sides and by nothing else.  From then on its binding
      outlives its last segment by no more than is allowed a closed connection or a first answer. */
  lemma ClosedByBoth(c: Config, t: Timer, seen: seq<Segment>)
    requires c.Ok() && t.timeout != 0 && !t.st.closedIn && !t.st.closedOut
    requires forall s <- seen :: !Rst(s.flags) && 0 < s.now
    requires forall i, j | 0 <= i < j < |seen| :: seen[i].now <= seen[j].now
    ensures var u := AfterAll(c, t, seen);
      && u.timeout != 0
      && (u.st.closedIn <==> FinAmong(seen, true)) && (u.st.closedOut <==> FinAmong(seen, false))
      && u.lifetime == (if FinAmong(seen, true) && FinAmong(seen, false) then c.lifetimes[1] else t.lifetime)
      && (FinAmong(seen, true) && FinAmong(seen, false) ==>
            u.timeout <= seen[|seen| - 1].now + AtLeast(c.lifetimes[1], c.lifetimes[4]))
  {
    hide AfterPacket, Fin, Rst, Ack, FinAmong, ClosedAs;
    ClosedSoFar(c, t, seen);
    NoFins(true);
    ClosedParts(c, t, AfterAll(c, t, seen), FinAmong(seen, true), FinAmong(seen, false), LastOf(seen));
  }

  function LastOf(seen: seq<Segment>): nat { if seen == [] then 0 else seen[|seen| - 1].now }

  /** A connection of which FINs have been seen in these directions, by now */
  predicate ClosedAs(c: Config, t: Timer, u: Timer, fromIn: bool, fromOut: bool, now: nat)
    requires c.Ok()
  {
    && u.timeout != 0 && (u.st.closedIn <==> fromIn) && (u.st.closedOut <==> fromOut)
    && u.lifetime == (if fromIn && fromOut then c.lifetimes[1] else t.lifetime)
    && (fromIn && fromOut ==> u.timeout <= now + AtLeast(c.lifetimes[1], c.lifetimes[4]))
  }

  lemma ClosedParts(c: Config, t: Timer, u: Timer, fromIn: bool, fromOut: bool, now: nat)
    requires c.Ok() && ClosedAs(c, t, u, fromIn, fromOut, now)
    ensures u.timeout != 0 && (u.st.closedIn <==> fromIn) && (u.st.closedOut <==> fromOut)
    ensures u.lifetime == (if fromIn && fromOut then c.lifetimes[1] else t.lifetime)
    ensures fromIn && fromOut ==> u.timeout <= now + AtLeast(c.lifetimes[1], c.lifetimes[4])
  {
  }

  lemma ClosedStep(c: Config, t: Timer, u: Timer, fromIn: bool, fromOut: bool, before: nat, s: Segment)
    requires c.Ok() && ClosedAs(c, t, u, fromIn, fromOut, before) && before <= s.now && 0 < s.now && !Rst(s.flags)
    ensures ClosedAs(c, t, AfterPacket(c, u, true, s.inbound, s.flags, s.now),
                     fromIn || (Fin(s.flags) && s.inbound), fromOut || (Fin(s.flags) && !s.inbound), s.now)
  {
    hide AfterPacket, Fin, Rst, Ack;
    SegmentTimes(c, u, s.inbound, s.flags, s.now);
  }

  lemma {:induction false} ClosedSoFar(c: Config, t: Timer, seen: seq<Segment>)
    requires c.Ok() && t.timeout != 0 && !t.st.closedIn && !t.st.closedOut
    requires forall s <- seen :: !Rst(s.flags) && 0 < s.now
    requires forall i, j | 0 <= i < j < |seen| :: seen[i].now <= seen[j].now
    ensures ClosedAs(c, t, AfterAll(c, t, seen), FinAmong(seen, true), FinAmong(seen, false), LastOf(seen))
  {
    hide AfterPacket, Fin, Rst, Ack, FinAmong;
    if |seen| == 0 {
      NoFins(true);
      NoFins(false);
    } else {
      hide ClosedAs;
      var before, last := seen[..|seen| - 1], seen[|seen| - 1];
      assert seen == before + [last];
      ClosedSoFar(c, t, before);
      ClosedStep(c, t, AfterAll(c, t, before), FinAmong(before, true), FinAmong(before, false), LastOf(before), last);
      FinsMore(before, last, true);
      FinsMore(before, last, false);
    }
  }

  lemma NoFins(inbound: bool)
    ensures !FinAmong([], inbound)
  {
  }

  lemma FinsMore(seen: seq<Segment>, s: Segment, inbound: bool)
    ensures FinAmong(seen + [s], inbound) <==> FinAmong(seen, inbound) || (Fin(s.flags) && s.inbound == inbound)
  {
    if FinAmong(seen, inbound) {
      var r :| r in seen && r.inbound == inbound && Fin(r.flags);
      assert r in seen + [s];
    }
    if Fin(s.flags) && s.inbound == inbound {
      assert s in seen + [s];
    }
  }

  /** tcpstate_in and tcpstate_out */
  method TcpSeen(v: Nats, c: Config, n: Nat, inbound: bool, flags: Byte, now: nat) returns (sooner: bool)
    requires v.Valid() && c.Ok() && n in v.b.table.entries && now > 0
    modifies n`tcpst, n`lifetime, n`timeout, v.heap.heap, v.heap.entries`heapIndex
    ensures v.Valid() && v.heap.heap == old(v.heap.heap) && (sooner <==> n.timeout < old(n.timeout))
    ensures n.timeout == 0 <==> old(n.timeout) == 0
    ensures TimerOf(n) == if old(n.timeout) == 0
                          then old(TimerOf(n)) else AfterSegment(c, old(TimerOf(n)), inbound, flags, now)
  {
    hide Nats.Valid, AfterClosing;
    var ack, rst, fin := flags / 16 % 2 == 1, flags / 4 % 2 == 1, flags % 2 == 1;
    if n.timeout == 0 {
      return false;
    }
    if n.tcpst == TcpState(false, false, false) && ack {
      v.Note(n, TcpState(true, false, false), n.lifetime);
    }
    if !fin && !rst {
      return false;
    }
    sooner := ClosingSeen(v, c, n, inbound, rst, now);
  }

  method ClosingSeen(v: Nats, c: Config, n: Nat, inbound: bool, rst: bool, now: nat) returns (sooner: bool)
    requires v.Valid() && c.Ok() && n in v.b.table.entries && now > 0 && n.timeout != 0
    modifies n`tcpst, n`lifetime, n`timeout, v.heap.heap, v.heap.entries`heapIndex
    ensures v.Valid() && v.heap.heap == old(v.heap.heap) && (sooner <==> n.timeout < old(n.timeout)) && n.timeout != 0
    ensures TimerOf(n) == AfterClosing(c, old(TimerOf(n)), inbound, rst, now)
  {
    hide Nats.Valid, Nats.Cached;
    var (st, both) := Closing(n.tcpst, inbound, rst);
    v.Note(n, st, n.lifetime);
    if !both {
      return false;
    }
    v.Note(n, st, if rst then if st.acked then c.lifetimes[3] else c.lifetimes[4] else c.lifetimes[1]);
    if n.timeout <= now + n.lifetime {
      return false;
    }
    v.Sooner(n, now + n.lifetime);
    sooner := true;
  }

  /** No limit forbids the tunnel of the packet a new binding */
  ghost predicate Allowed(v: Nats, c: Config, k: Key, limited: bool)
    requires c.Ok()
    reads v.b.table
  {
    !limited && SlotOf(k) in v.b.table.tnatcnt && v.b.table.tnatcnt[SlotOf(k)] < c.maxTnat[Index(k.proto)]
  }

  /** A port is drawn already for a new binding of the packet's tunnel */
  ghost predicate Supplied(v: Nats, k: Key)
    reads v.b.ports, v.b.ports.ranges.Values
  {
    HasPort(v.b.ports.Owners(), v.b.ports.source, SlotOf(k))
  }

  /** The packet's tunnel gets a port for a new binding just when its bucket has one, or one of those drawn is free */
  ghost predicate Drawing(o: map<Pool, Owners>, source: map<int, Pool>, k: Key, draws: seq<int>, ok: bool) {
    Supply(o, source, SlotOf(k), draws, ok)
  }

  /** All ports of the pool of the packet's tunnel are free */
  ghost predicate Unused(v: Nats, k: Key)
    reads v.b.ports, v.b.ports.ranges.Values
  {
    AllFree(v.b.ports.Owners(), v.b.ports.source, SlotOf(k))
  }

  ghost predicate Carried(entries: set<Nat>, k: Key) { exists m :: m in entries && Carries(m, k) }

  /** The timer of a new binding */
  function FirstTimer(c: Config, proto: Byte, now: nat): Timer
    requires c.Ok()
  {
    Timer(TcpState(false, false, false), c.lifetimes[if proto == TCP then 0 else if proto == UDP then 2 else 3],
          now + c.lifetimes[4])
  }

  /** The binding for a packet from tunnel t: the one there is, or a new one unless a limit forbids it */
  method BindingFor(v: Nats, c: Config, k: Key, limited: bool, now: nat)
    returns (n: Nat?, ghost created: bool, ghost draws: seq<int>)
    requires v.Valid() && v.Cached() && c.Ok() && now > 0 && Template(k) && k.dst != NO_ADDR && !k.flags.prrNull
    requires SlotOf(k) in v.b.ports.source
    modifies v`counters, v.b.Region(), v.heap, v.heap.heap, v.heap.entries`heapIndex
    modifies v.b.table.entries`left, v.b.table.entries`right, v.b.table.entries`parent, v.b.table.entries`red
    modifies v.b.table.entries`tleft, v.b.table.entries`tright
    ensures v.Valid() && v.Cached() && v.b.ports.source == old(v.b.ports.source)
    ensures v.b.ports.ranges == old(v.b.ports.ranges)
    ensures Changed(old(v.b.ports.Owners()), v.b.ports.Owners(), now, v.holdLifetime)
    ensures v.b.Region() == old(v.b.Region()) && (v.heap.heap == old(v.heap.heap) || fresh(v.heap.heap))
    ensures n != null ==> n in v.b.table.entries && Carries(n, k)
    ensures created ==> n != null && fresh(n) && v.b.table.entries == old(v.b.table.entries) + {n}
    ensures created ==> InRange(v.b.ports.Owners(), n.key) && !n.key.flags.allDst
    ensures !created ==> v.b.table.entries == old(v.b.table.entries)
    ensures (n == null || created) && Findable(old(v.b.table.entries), k) ==> !Carried(old(v.b.table.entries), k)
    ensures old(Allowed(v, c, k, limited) && Findable(v.b.table.entries, k) && !Carried(v.b.table.entries, k)) ==>
      Drawing(old(v.b.ports.Owners()), old(v.b.ports.source), k, draws, n != null)
    ensures created ==>
      old(Allowed(v, c, k, limited)) && n.generation == 0 && TimerOf(n) == FirstTimer(c, k.proto, now)
  {
    hide Nats.Valid, Nats.Cached, SplayCompareWild, InRange, Of, Carries, RegionOf, Index, SlotOf,
      Template, Changed, Drawing, Carried, FirstTimer, Findable;
    created, draws := false, [];
    v.Outside();
    n := v.FindIn(k);
    Unchanged(v.b.ports.Owners(), now, v.holdLifetime);
    FoundCarries(v.b.table.entries, k, n);
    if n == null {
      n, draws := NewBinding(v, c, k, limited, now);
      created := n != null;
    }
  }

  method NewBinding(v: Nats, c: Config, k: Key, limited: bool, now: nat) returns (n: Nat?, ghost draws: seq<int>)
    requires v.Valid() && v.Cached() && c.Ok() && now > 0 && Template(k) && k.dst != NO_ADDR && !k.flags.prrNull
    requires SlotOf(k) in v.b.ports.source
    modifies v`counters, v.b.Region(), v.heap, v.heap.heap, v.heap.entries`heapIndex
    modifies v.b.table.entries`left, v.b.table.entries`right, v.b.table.entries`parent, v.b.table.entries`red
    modifies v.b.table.entries`tleft, v.b.table.entries`tright
    ensures v.Valid() && v.Cached() && v.b.ports.source == old(v.b.ports.source)
    ensures v.b.ports.ranges == old(v.b.ports.ranges)
    ensures Changed(old(v.b.ports.Owners()), v.b.ports.Owners(), now, v.holdLifetime)
    ensures v.b.Region() == old(v.b.Region()) && (v.heap.heap == old(v.heap.heap) || fresh(v.heap.heap))
    ensures n == null ==> v.b.table.entries == old(v.b.table.entries)
    ensures n != null ==>
      && fresh(n) && v.b.table.entries == old(v.b.table.entries) + {n} && Carries(n, k)
      && InRange(v.b.ports.Owners(), n.key) && !n.key.flags.allDst
    ensures old(Allowed(v, c, k, limited))
            && (forall m <- Of(old(v.b.table.entries), SlotOf(k)) :: SplayCompareWild(k, m.key) != 0)
            ==> Drawing(old(v.b.ports.Owners()), old(v.b.ports.source), k, draws, n != null)
    ensures n != null ==>
      old(Allowed(v, c, k, limited)) && n.generation == 0 && TimerOf(n) == FirstTimer(c, k.proto, now)
  {
    hide Nats.Valid, NatCache.Ok, SplayCompareWild, InRange, Of, Carries, RegionOf, Index, SlotOf, Changed,
      Supply;
    draws := [];
    v.Tables();
    v.b.NatsOutside(v.b.table.entries);
    Unchanged(v.b.ports.Owners(), now, v.holdLifetime);
    n := null;
    if v.b.table.tnatcnt[SlotOf(k)] >= c.maxTnat[Index(k.proto)] {
      return;
    }
    if limited {
      return;
    }
    var lifetime := c.lifetimes[if k.proto == TCP then 0 else if k.proto == UDP then 2 else 3];
    n, draws := v.NewNat(k, now + c.lifetimes[4], lifetime, now);
    v.CacheGrows(old(v.b.table.entries));
    if n != null {
      NewCarries(n, k);
    }
  }

  lemma FoundCarries(s: set<Nat>, k: Key, n: Nat?)
    requires Template(k)
    requires n != null ==> n in Of(s, SlotOf(k)) && SplayCompareWild(k, n.key) == 0
    requires n == null && Findable(s, k) ==> forall m <- Of(s, SlotOf(k)) :: SplayCompareWild(k, m.key) != 0
    ensures n != null ==> n in s && Carries(n, k) && Carried(s, k)
    ensures n == null && Findable(s, k) ==> !Carried(s, k)
  {
    if n != null {
      MatchCarries(k, n.key);
    } else if Findable(s, k) {
      forall m | m in s ensures !Carries(m, k) {
        MatchCarries(k, m.key);
        assert m.key.tunnel == k.tunnel && m.key.proto == k.proto ==> m in Of(s, SlotOf(k));
      }
    }
  }

  /** A new binding hides no wildcard from any packet: only add_snat0 and add_prr bring a wildcard to where there are
      entries for one destination */
  lemma StillFindable(s: set<Nat>, n: Nat, k: Key, p: Key)
    requires Carries(n, k) && !n.key.flags.allDst && !k.flags.allDst
    requires (Findable(s, k) ==> !Carried(s, k)) && Findable(s, p)
    ensures Findable(s + {n}, p)
  {
    if SameInside(n.key, p) {
      forall m | m in s && SameInside(m.key, p) && m.key.flags.allDst ensures DstRank(p) <= DstRank(n.key) {
        assert Carries(m, k);
      }
    }
  }

  lemma AllStillFindable(s: set<Nat>, n: Nat, k: Key)
    requires Carries(n, k) && !n.key.flags.allDst && !k.flags.allDst && (Findable(s, k) ==> !Carried(s, k))
    ensures forall p: Key :: Findable(s, p) ==> Findable(s + {n}, p)
  {
    hide Findable, Carries, Carried;
    forall p: Key | Findable(s, p) ensures Findable(s + {n}, p) {
      StillFindable(s, n, k, p);
    }
  }

  lemma NewCarries(n: Nat, k: Key)
    requires n.key == k.(nsrc := n.key.nsrc, nport := n.key.nport)
    ensures Carries(n, k)
  {
  }

  /** The end of both directions */
  method Touch(v: Nats, c: Config, n: Nat, inbound: bool, flags: Byte, now: nat)
    requires v.Valid() && c.Ok() && n in v.b.table.entries && now > 0
    modifies n`tcpst, n`lifetime, n`timeout, v.heap.heap, v.heap.entries`heapIndex
    ensures v.Valid() && v.heap.heap == old(v.heap.heap)
    ensures TimerOf(n) == AfterPacket(c, old(TimerOf(n)), n.key.proto == TCP, inbound, flags, now)
  {
    hide Nats.Valid, AfterSegment;
    var sooner := false;
    if n.key.proto == TCP {
      sooner := TcpSeen(v, c, n, inbound, flags, now);
    }
    var until := now + if inbound then c.lifetimes[4] else n.lifetime;
    if n.timeout != 0 && !sooner && until > n.timeout {
      v.Later(n, until);
    }
  }

  /** natin: the packet in buf4 leaves with the source of the binding it goes through */
  method NatIn(v: Nats, c: Config, t: int, buf4: array<Byte>, limited: bool, now: nat)
    returns (ok: bool, ghost n: Nat?, ghost draws: seq<int>)
    requires v.Valid() && v.Cached() && c.Ok() && now > 0 && buf4.Length >= HEADERS && Translated(buf4[PROTO])
    requires QuadAt(buf4[..], DST) != NO_ADDR && SlotOf(InKey(t, buf4[..])) in v.b.ports.source
    requires (buf4 as object) !in v.b.Region() && (buf4 as object) != v.heap.heap
    modifies v`counters, v.b.Region(), v.heap, v.heap.heap, v.heap.entries`heapIndex, buf4
    modifies v.b.table.entries`left, v.b.table.entries`right, v.b.table.entries`parent, v.b.table.entries`red
    modifies v.b.table.entries`tleft, v.b.table.entries`tright, v.b.table.entries`heapIndex
    modifies v.b.table.entries`tcpst, v.b.table.entries`lifetime, v.b.table.entries`timeout
    ensures v.Valid() && v.Cached() && v.b.ports.source == old(v.b.ports.source)
    ensures v.b.ports.ranges == old(v.b.ports.ranges)
    ensures Changed(old(v.b.ports.Owners()), v.b.ports.Owners(), now, v.holdLifetime)
    ensures v.b.Region() == old(v.b.Region()) && (v.heap.heap == old(v.heap.heap) || fresh(v.heap.heap))
    ensures !ok ==> v.b.table.entries == old(v.b.table.entries) && buf4[..] == old(buf4[..])
    ensures ok ==> n != null && n in v.b.table.entries && Carries(n, InKey(t, old(buf4[..])))
                   && buf4[..] == Sent(old(buf4[..]), n.key) && LeavesAs(old(buf4[..]), buf4[..], n.key)
    ensures ok ==> v.b.table.entries ==
                   if n in old(v.b.table.entries) then old(v.b.table.entries) else old(v.b.table.entries) + {n}
    ensures n != null && n !in old(v.b.table.entries) ==> fresh(n) && n.generation == 0 && !n.key.flags.allDst
    ensures ok <==> n != null
    ensures old(Findable(v.b.table.entries, InKey(t, buf4[..])) && Carried(v.b.table.entries, InKey(t, buf4[..]))) ==>
      ok && n in old(v.b.table.entries)
    ensures old(Findable(v.b.table.entries, InKey(t, buf4[..])) && Allowed(v, c, InKey(t, buf4[..]), limited)
                && !Carried(v.b.table.entries, InKey(t, buf4[..])))
            ==> Drawing(old(v.b.ports.Owners()), old(v.b.ports.source), InKey(t, old(buf4[..])), draws, ok)
    ensures old(Findable(v.b.table.entries, InKey(t, buf4[..])) && Allowed(v, c, InKey(t, buf4[..]), limited)
                && (Supplied(v, InKey(t, buf4[..])) || Unused(v, InKey(t, buf4[..]))))
            ==> ok
    ensures forall p: Key :: Findable(old(v.b.table.entries), p) ==> Findable(v.b.table.entries, p)
    ensures ok ==> n in old(v.b.table.entries) || old(Allowed(v, c, InKey(t, buf4[..]), limited))
    ensures ok ==> TimerOf(n) ==
                   AfterPacket(c, if n in old(v.b.table.entries) then old(TimerOf(n))
                                  else FirstTimer(c, n.key.proto, now),
                               n.key.proto == TCP, true, old(buf4[TCP_FLAGS]), now)
    ensures forall m <- old(v.b.table.entries) :: m != n || old(m.timeout) == 0 ==> TimerOf(m) == old(TimerOf(m))
  {
    hide Nats.Valid, Nats.Cached, Bindings.Region, InRange, Rewritten, Carries, Index, SlotOf, Template, QuadAt, PairAt,
      Changed, Allowed, Supply, HasPort, AllFree, Carried, AfterPacket, FirstTimer, Findable,
      LeavesAs;
    var k := InKey(t, buf4[..]);
    v.b.NatsOutside(v.b.table.entries);
    v.Outside();
    var m;
    ghost var created;
    m, created, draws := BindingFor(v, c, k, limited, now);
    n := m;
    ok := m != null;
    DrawingFacts(old(v.b.ports.Owners()), old(v.b.ports.source), k, draws, ok);
    if m == null {
      return;
    }
    if created {
      AllStillFindable(old(v.b.table.entries), m, k);
    }
    assert buf4[..] == old(buf4[..]);
    v.HeapWithin();
    CarriesProto(m, k);
    SentLeaves(t, buf4[..], m);
    NoTimer(c, TimerOf(m), m.key.proto == TCP, true, buf4[TCP_FLAGS], now);
    Leave(v, c, m, buf4, now);
  }

  lemma DrawingFacts(o: map<Pool, Owners>, source: map<int, Pool>, k: Key, draws: seq<int>, ok: bool)
    ensures Drawing(o, source, k, draws, ok) && (HasPort(o, source, SlotOf(k)) || AllFree(o, source, SlotOf(k))) ==> ok
  {
    if Drawing(o, source, k, draws, ok) {
      SupplyFacts(o, source, SlotOf(k), draws, ok);
    }
  }

  /** A packet as it leaves through a binding: its source is that of the binding, what is computed over it is as right
      or as wrong as before, and nothing else has changed */
  ghost predicate LeavesAs(s: Bytes, r: Bytes, k: Key) {
    && |s| >= HEADERS && |r| == |s| && r[PROTO] == s[PROTO] && OnlyFields(s, r, SRC, SourcePort(s[PROTO]))
    && QuadAt(r, SRC) == k.nsrc && PairAt(r, SourcePort(s[PROTO])) == k.nport
    && ChecksumsKept(s, r, k.sport == k.nport)
  }

  lemma SentLeaves(t: int, s: Bytes, n: Nat)
    requires |s| >= HEADERS && Translated(s[PROTO]) && Carries(n, InKey(t, s))
    ensures LeavesAs(s, Sent(s, n.key), n.key)
  {
    AllKept(s, Sent(s, n.key), SRC, SourcePort(s[PROTO]), n.key.src, n.key.nsrc, n.key.sport, n.key.nport);
  }

  /** The same for one that is delivered */
  ghost predicate ArrivesAs(s: Bytes, r: Bytes, k: Key) {
    && |s| >= HEADERS && |r| == |s| && r[PROTO] == s[PROTO] && OnlyFields(s, r, DST, TargetPort(s[PROTO]))
    && QuadAt(r, DST) == k.src && PairAt(r, TargetPort(s[PROTO])) == k.sport
    && ChecksumsKept(s, r, k.nport == k.sport)
  }

  lemma DeliveredArrives(s: Bytes, n: Nat)
    requires |s| >= HEADERS && Translated(s[PROTO]) && Answers(n, OutKey(s))
    ensures ArrivesAs(s, Delivered(s, n.key), n.key)
  {
    AllKept(s, Delivered(s, n.key), DST, TargetPort(s[PROTO]), n.key.nsrc, n.key.src, n.key.nport, n.key.sport);
  }

  lemma CarriesProto(n: Nat, k: Key)
    requires Carries(n, k)
    ensures n.key.proto == k.proto
  {
  }

  /** The packet is rewritten, and the entry it goes through lives longer */
  method Leave(v: Nats, c: Config, n: Nat, buf4: array<Byte>, now: nat)
    requires v.Valid() && v.Cached() && c.Ok() && now > 0 && n in v.b.table.entries
    requires buf4.Length >= HEADERS && Translated(buf4[PROTO]) && buf4[PROTO] == n.key.proto
    requires (buf4 as object) !in v.b.Region() && (buf4 as object) != v.heap.heap
    modifies n`tcpst, n`lifetime, n`timeout, v.heap.heap, v.heap.entries`heapIndex, buf4
    ensures v.Valid() && v.Cached() && v.b.ports.Owners() == old(v.b.ports.Owners())
    ensures v.Same(old(v.b.Region()), old(v.b.table.entries), old(v.b.ports.source), old(v.b.ports.ranges))
    ensures buf4[..] == Sent(old(buf4[..]), n.key)
    ensures TimerOf(n) == AfterPacket(c, old(TimerOf(n)), n.key.proto == TCP, true, old(buf4[TCP_FLAGS]), now)
    ensures v.heap.heap == old(v.heap.heap)
  {
    hide Nats.Valid, Nats.Cached, RegionOf, Rewritten, SlotOf, QuadAt, PairAt, AfterPacket;
    v.b.Older();
    v.Outside();
    v.HeapWithin();
    v.CacheOutside();
    RewrittenFlags(buf4[..], SRC, SourcePort(n.key.proto), Change(n.key.src, n.key.nsrc),
      Change(n.key.sport, n.key.nport));
    RewritePacket(buf4, SRC, SourcePort(n.key.proto), n.key.src, n.key.nsrc, n.key.sport, n.key.nport);
    Touch(v, c, n, true, buf4[TCP_FLAGS], now);
  }

  /** The packet with the source a binding gives it */
  function Sent(s: Bytes, k: Key): Bytes
    requires |s| >= HEADERS
  {
    Rewritten(s, SRC, SourcePort(s[PROTO]), Change(k.src, k.nsrc), Change(k.sport, k.nport))
  }

  /** The packet with the destination a binding gives it */
  function Delivered(s: Bytes, k: Key): Bytes
    requires |s| >= HEADERS
  {
    Rewritten(s, DST, TargetPort(s[PROTO]), Change(k.nsrc, k.src), Change(k.nport, k.sport))
  }

  /** An entry a packet from the Internet may go through */
  ghost predicate Answers(n: Nat, k: Key) {
    && n.key.proto == k.proto && n.key.nsrc == k.nsrc && n.key.nport == k.nport
    && (n.key.flags.allDst || (n.key.dst == k.dst && n.key.dport == k.dport))
  }

  lemma FoundAnswers(s: set<Nat>, k: Key, n: Nat?)
    requires Template(k)
    requires n != null ==> n in OfIndex(s, Index(k.proto)) && TreeCompareWild(k, n.key) == 0
    requires n == null ==> forall m <- OfIndex(s, Index(k.proto)) :: TreeCompareWild(k, m.key) != 0
    ensures if n != null then n in s && Answers(n, k) else forall m <- s :: !Answers(m, k)
  {
    if n != null {
      TreeMatch(k, n.key);
    } else {
      forall m | m in s ensures !Answers(m, k) {
        TreeMatch(k, m.key);
        assert m.key.proto == k.proto ==> m in OfIndex(s, Index(k.proto));
      }
    }
  }

  /** A generation of the configuration that a reload has passed over */
  predicate Stale(generation: nat, lastGen: nat) { FIRST_GEN <= generation < lastGen }

  /** What nat_lookup gives: an entry a packet may go through, or nothing when there is none, or a stale one */
  ghost predicate LookedUp(n: Nat?, entries: set<Nat>, k: Key, lastGen: nat)
    reads entries`generation
  {
    if n != null then n in entries && Answers(n, k)
    else forall m <- entries ::
      Answers(m, k) ==> exists x :: x in entries && Answers(x, k) && Stale(x.generation, lastGen)
  }

  /** The packet's slot of the cache holds an entry that it may go through */
  ghost predicate Hit(slot: Nat?, k: Key) { slot != null && Answers(slot, k) }

  /** The answer of nat_lookup, from what is in the packet's slot and what the search in the tree gives */
  ghost function FromCache(slot: Nat?, found: Nat?, k: Key, lastGen: nat): Nat?
    reads (if found == null then {} else {found})`generation
  {
    if Hit(slot, k) then slot else if found != null && Stale(found.generation, lastGen) then null else found
  }

  /** nat_lookup */
  method Lookup(v: Nats, k: Key, lastGen: nat) returns (n: Nat?)
    requires v.Valid() && v.Cached() && Template(k)
    modifies v.cache.slots, v.b.table.entries`hash
    ensures v.Valid() && v.Cached() && LookedUp(n, v.b.table.entries, k, lastGen)
    ensures v.b.table.Sought(k) == old(v.b.table.Sought(k))
    ensures n == old(FromCache(v.cache.At(k), v.b.table.Sought(k), k, lastGen))
    ensures v.cache.At(k) == if n == null then old(v.cache.At(k)) else n
  {
    hide Nats.Valid, Answers, TreeCompareWild, RegionOf, OfIndex, Index;
    var cache := v.cache;
    var i := cache.hash(HashKeyOf(k)) % cache.slots.Length;
    n := cache.slots[i];
    v.b.Older();
    v.b.Inside();
    v.CacheOutside();
    if n != null {
      assert cache.SlotOk(n, i, v.b.table.entries);
      MatchAnswers(k, n);
      if TreeCompareWild(k, n.key) == 0 {
        return;
      }
    }
    n := v.FindOut(k);
    FoundAnswers(v.b.table.entries, k, n);
    if n == null {
      return;
    }
    MatchAnswers(k, n);
    if n.generation >= FIRST_GEN && n.generation < lastGen {
      return null;
    }
    v.NoteHash(n, i);
    cache.slots[i] := n;
  }

  /** When nat_lookup answers what the search in the tree would: on a hit, if the slot's entry is of the same kind as
      the tree's; otherwise, if the tree's entry is not stale.  Two entries may answer a packet only if one is a
      static binding and the other leaves packets as they are. */
  lemma LookupIsSearch(v: Nats, k: Key, lastGen: nat)
    requires v.Valid() && v.Cached() && Template(k)
    ensures var slot, found := v.cache.At(k), v.b.table.Sought(k);
      && (Hit(slot, k) ==> found != null)
      && (FromCache(slot, found, k, lastGen) == found <==>
            if Hit(slot, k) then slot.key.flags.prrNull == found.key.flags.prrNull
            else found == null || !Stale(found.generation, lastGen))
    ensures (forall m, n | m in v.b.table.entries && n in v.b.table.entries && Answers(m, k) && Answers(n, k) ::
              m.key.flags.prrNull == n.key.flags.prrNull && !Stale(m.generation, lastGen))
            ==> FromCache(v.cache.At(k), v.b.table.Sought(k), k, lastGen) == v.b.table.Sought(k)
  {
    hide Nats.Valid, Answers, Stale, TreeCompareWild, OfIndex, Index;
    var slot, found := v.cache.At(k), v.b.table.Sought(k);
    v.SoughtFinds(k);
    FoundAnswers(v.b.table.entries, k, found);
    assert v.cache.SlotOk(slot, v.cache.IndexOf(k), v.b.table.entries);
    if Hit(slot, k) && slot.key.flags.prrNull == found.key.flags.prrNull {
      BothAnswer(k, slot, found);
      v.OneOfKind(slot, found);
    }
  }

  /** A stale entry is handed out exactly when the packet's slot holds it */
  lemma StaleLookup(v: Nats, k: Key, lastGen: nat)
    requires v.Valid() && v.Cached() && Template(k)
    ensures var slot, n := v.cache.At(k), FromCache(v.cache.At(k), v.b.table.Sought(k), k, lastGen);
      n != null && Stale(n.generation, lastGen) <==> Hit(slot, k) && Stale(slot.generation, lastGen)
  {
  }

  lemma BothAnswer(k: Key, m: Nat, n: Nat)
    requires Answers(m, k) && Answers(n, k)
    ensures PoolOf(m.key) == PoolOf(n.key) && m.key.proto == n.key.proto && m.key.nport == n.key.nport
  {
  }

  lemma MatchAnswers(k: Key, n: Nat)
    requires Template(k)
    ensures TreeCompareWild(k, n.key) == 0 <==> Answers(n, k)
    ensures Answers(n, k) ==> HashKeyOf(k) == HashKeyOf(n.key)
  {
    TreeMatch(k, n.key);
  }

  /** natout: the packet in buf4 goes to the tunnel of the binding it answers, unless it is too big for it */
  method NatOut(v: Nats, c: Config, buf4: array<Byte>, tooBig: bool, lastGen: nat, now: nat)
    returns (tunnel: Option<int>, ghost n: Nat?)
    requires v.Valid() && v.Cached() && c.Ok() && now > 0 && buf4.Length >= HEADERS && Translated(buf4[PROTO])
    requires (buf4 as object) !in v.b.Region() && (buf4 as object) != v.heap.heap
    modifies v.b.Region(), v.heap.heap, v.heap.entries`heapIndex, v.cache.slots, buf4
    modifies v.b.table.entries`hash, v.b.table.entries`tleft, v.b.table.entries`tright
    modifies v.b.table.entries`tcpst, v.b.table.entries`lifetime, v.b.table.entries`timeout
    ensures v.Valid() && v.Cached() && v.b.ports.Owners() == old(v.b.ports.Owners())
    ensures v.Same(old(v.b.Region()), old(v.b.table.entries), old(v.b.ports.source), old(v.b.ports.ranges))
    ensures v.heap.heap == old(v.heap.heap)
    ensures LookedUp(n, v.b.table.entries, OutKey(old(buf4[..])), lastGen)
    ensures n ==
      old(FromCache(v.cache.At(OutKey(buf4[..])), v.b.table.Sought(OutKey(buf4[..])), OutKey(buf4[..]), lastGen))
    ensures n != null ==> TimerOf(n) ==
                          if tunnel == None || n.key.flags.prrNull then old(TimerOf(n))
                          else AfterPacket(c, old(TimerOf(n)), n.key.proto == TCP, false, old(buf4[TCP_FLAGS]), now)
    ensures forall m <- v.b.table.entries :: m != n || old(m.timeout) == 0 ==> TimerOf(m) == old(TimerOf(m))
    ensures tunnel == if n == null || tooBig then None else Some(n.key.tunnel)
    ensures buf4[..] == if tunnel == None || n.key.flags.prrNull then old(buf4[..]) else Delivered(old(buf4[..]), n.key)
    ensures tunnel != None && !n.key.flags.prrNull ==> ArrivesAs(old(buf4[..]), buf4[..], n.key)
  {
    hide Nats.Valid, Nats.Cached, Bindings.Region, Rewritten, Answers, Index, OfIndex, SlotOf, Template, QuadAt, PairAt,
      LookedUp, FromCache, AfterPacket, ArrivesAs;
    var k := OutKey(buf4[..]);
    v.CacheOutside();
    var m := Lookup(v, k, lastGen);
    n := m;
    FoundLive(m, v.b.table.entries, k, lastGen);
    v.HeapWithin();
    v.b.NatsOutside(v.b.table.entries);
    if m == null || tooBig {
      return None, n;
    }
    DeliveredArrives(buf4[..], m);
    NoTimer(c, TimerOf(m), m.key.proto == TCP, false, buf4[TCP_FLAGS], now);
    Arrive(v, c, m, buf4, now);
    tunnel := Some(m.key.tunnel);
  }

  lemma FoundLive(n: Nat?, entries: set<Nat>, k: Key, lastGen: nat)
    requires LookedUp(n, entries, k, lastGen)
    ensures n != null ==> n in entries && n.key.proto == k.proto && Answers(n, k)
  {
  }

  /** The packet is rewritten unless the entry leaves packets as they are, and the entry comes to the root */
  method Arrive(v: Nats, c: Config, n: Nat, buf4: array<Byte>, now: nat)
    requires v.Valid() && v.Cached() && c.Ok() && now > 0 && n in v.b.table.entries
    requires buf4.Length >= HEADERS && Translated(buf4[PROTO]) && buf4[PROTO] == n.key.proto
    requires (buf4 as object) !in v.b.Region() && (buf4 as object) != v.heap.heap
    modifies v.b.Region(), v.b.table.entries`tleft, v.b.table.entries`tright
    modifies n`tcpst, n`lifetime, n`timeout, v.heap.heap, v.heap.entries`heapIndex, buf4
    ensures v.Valid() && v.Cached() && v.b.ports.Owners() == old(v.b.ports.Owners())
    ensures v.Same(old(v.b.Region()), old(v.b.table.entries), old(v.b.ports.source), old(v.b.ports.ranges))
    ensures buf4[..] == if n.key.flags.prrNull then old(buf4[..]) else Delivered(old(buf4[..]), n.key)
    ensures TimerOf(n) == if n.key.flags.prrNull then old(TimerOf(n))
                          else AfterPacket(c, old(TimerOf(n)), n.key.proto == TCP, false, old(buf4[TCP_FLAGS]), now)
    ensures v.heap.heap == old(v.heap.heap) && v.cache.slots == old(v.cache.slots)
  {
    hide Nats.Valid, Nats.Cached, RegionOf, Rewritten, SlotOf, QuadAt, PairAt, AfterPacket, Delivered;
    v.b.Older();
    v.Outside();
    v.HeapWithin();
    v.CacheOutside();
    v.b.NatsOutside({n});
    if !n.key.flags.prrNull {
      Deliver(v, c, n, buf4, now);
    }
    v.Tables();
    if n != v.b.table.splays[SlotOf(n.key)].root {
      v.Bring(n);
    }
  }

  method Deliver(v: Nats, c: Config, n: Nat, buf4: array<Byte>, now: nat)
    requires v.Valid() && v.Cached() && c.Ok() && now > 0 && n in v.b.table.entries
    requires buf4.Length >= HEADERS && Translated(buf4[PROTO]) && buf4[PROTO] == n.key.proto
    requires (buf4 as object) !in v.b.Region() && (buf4 as object) != v.heap.heap
    modifies n`tcpst, n`lifetime, n`timeout, v.heap.heap, v.heap.entries`heapIndex, buf4
    ensures v.Valid() && v.Cached() && v.b.ports.Owners() == old(v.b.ports.Owners())
    ensures v.Same(old(v.b.Region()), old(v.b.table.entries), old(v.b.ports.source), old(v.b.ports.ranges))
    ensures buf4[..] == Delivered(old(buf4[..]), n.key)
    ensures TimerOf(n) == AfterPacket(c, old(TimerOf(n)), n.key.proto == TCP, false, old(buf4[TCP_FLAGS]), now)
    ensures v.heap.heap == old(v.heap.heap)
  {
    hide Nats.Valid, Nats.Cached, RegionOf, Rewritten, SlotOf, QuadAt, PairAt, AfterPacket;
    v.b.Older();
    v.Outside();
    v.HeapWithin();
    v.CacheOutside();
    RewrittenFlags(buf4[..], DST, TargetPort(n.key.proto), Change(n.key.nsrc, n.key.src),
      Change(n.key.nport, n.key.sport));
    RewritePacket(buf4, DST, TargetPort(n.key.proto), n.key.nsrc, n.key.src, n.key.nport, n.key.sport);
    Touch(v, c, n, false, buf4[TCP_FLAGS], now);
  }

  // ---------- There and back ----------

  /** q comes from where p went and goes where p came from */
  predicate IsReply(q: Bytes, p: Bytes) {
    && |q| >= HEADERS && |p| >= HEADERS && q[PROTO] == p[PROTO]
    && QuadAt(q, DST) == QuadAt(p, SRC) && QuadAt(q, SRC) == QuadAt(p, DST)
    && PairAt(q, TargetPort(q[PROTO])) == PairAt(p, SourcePort(p[PROTO]))
    && (q[PROTO] != ICMP ==> PairAt(q, SPORT) == PairAt(p, DPORT))
  }

  /** A reply to what was sent through a binding answers that binding, and is delivered to the original sender */
  lemma ReplyAnswers(t: int, s: Bytes, n: Nat, q: Bytes)
    requires |s| >= HEADERS && Translated(s[PROTO]) && Carries(n, InKey(t, s)) && IsReply(q, Sent(s, n.key))
    ensures OutKey(q).nsrc == n.key.nsrc && OutKey(q).nport == n.key.nport && OutKey(q).proto == n.key.proto
    ensures Answers(n, OutKey(q))
    ensures n.key.tunnel == t && QuadAt(Delivered(q, n.key), DST) == QuadAt(s, SRC)
    ensures PairAt(Delivered(q, n.key), TargetPort(q[PROTO])) == PairAt(s, SourcePort(s[PROTO]))
  {
    hide Rewritten;
    RewrittenFields(s, SRC, SourcePort(s[PROTO]), Change(n.key.src, n.key.nsrc), Change(n.key.sport, n.key.nport));
    RewrittenFields(q, DST, TargetPort(q[PROTO]), Change(n.key.nsrc, n.key.src), Change(n.key.nport, n.key.sport));
  }

  /** The state may have changed in any way since, as long as the binding lives: whatever natout finds
      for a reply is the binding itself, and it does find it unless a reload has passed it over.  The
      reply goes back to the tunnel, address and port the packet came from, and to no other. */
  lemma RoundTrip(v: Nats, t: int, s: Bytes, n: Nat, q: Bytes, found: Nat?, lastGen: nat)
    requires v.Valid() && n in v.b.table.entries && !n.key.flags.allDst
    requires |s| >= HEADERS && Translated(s[PROTO]) && Carries(n, InKey(t, s)) && IsReply(q, Sent(s, n.key))
    requires LookedUp(found, v.b.table.entries, OutKey(q), lastGen)
    ensures found == n || (found == null && Stale(n.generation, lastGen))
    ensures n.key.tunnel == t && QuadAt(Delivered(q, n.key), DST) == QuadAt(s, SRC)
    ensures PairAt(Delivered(q, n.key), TargetPort(q[PROTO])) == PairAt(s, SourcePort(s[PROTO]))
  {
    hide Nats.Valid, Rewritten, Stale;
    ReplyAnswers(t, s, n, q);
    if found != null {
      v.OnePerPort(found, n);
    } else {
      var x :| x in v.b.table.entries && Answers(x, OutKey(q)) && Stale(x.generation, lastGen);
      v.OnePerPort(x, n);
    }
  }
}
