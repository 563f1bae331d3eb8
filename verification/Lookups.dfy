/**
  Inputs on which lookups do not answer what they are for.  nat_lookup does not answer what
  the search in the tree would: two static entries of different kinds, and an entry that a
  reload has passed over.  The search of a tunnel's splay tree misses a wildcard.
 */
module Lookups {
  import opened NatEntry
  import opened NatTable
  import opened PortRange
  import opened PortPool
  import opened Binding
  import opened Caches
  import opened Aftr
  import opened Packet
  import opened Translation
  import opened Service
  import S = SplayTree

  const TUNNEL: int := 1
  const OUTER_ADDR := Quad(198, 51, 100, 1)
  const HOST := Quad(10, 0, 0, 2)
  const WEB := Pair(0, 80)
  const NEXT_PORT := Pair(0, 81)

  /** What add_prr enters, and add_snat0 for the same external address and port, and for the next port */
  const PRR := Key(TUNNEL, TCP, Flags(true, true, true, false), OUTER_ADDR, WEB, OUTER_ADDR, WEB, NO_ADDR, NO_PORT)
  const STATIC := Key(TUNNEL, TCP, Flags(true, false, true, false), HOST, WEB, OUTER_ADDR, WEB, NO_ADDR, NO_PORT)
  const OTHER := Key(TUNNEL, TCP, Flags(true, false, true, false), HOST, NEXT_PORT, OUTER_ADDR, NEXT_PORT,
                     NO_ADDR, NO_PORT)
  /** A packet from somewhere to that address and port */
  const PACKET := Key(0, TCP, Flags(false, false, true, false), NO_ADDR, NO_PORT, OUTER_ADDR, WEB,
                      Quad(203, 0, 113, 9), Pair(16, 0))

  /** Static entries of one tunnel, on ports under the dynamic range of their pool */
  ghost predicate Ready(v: Nats)
    reads v, v.b.table, v.b.ports, v.b.Region(), v.heap, v.heap.heap, v.heap.entries, v.b.table.entries, v.cache
    reads v.cache.slots
  {
    && v.Valid() && v.Cached() && v.b.Spans(Pool(OUTER_ADDR, 0), 1024, 65535)
    && (forall i: nat | i < PRCNT :: Slot(TUNNEL, i) in v.b.ports.source)
    && forall m <- v.b.table.entries :: m.key.flags.allDst
  }

  method Prepare(hash: HashKey -> nat) returns (v: Nats)
    ensures Ready(v) && v.b.table.entries == {} && fresh(v.b.Region()) && fresh(v) && fresh(v.cache)
    ensures fresh(v.cache.slots) && fresh(v.heap) && fresh(v.heap.heap)
  {
    hide Nats.Valid, Nats.Cached, Bindings.Region;
    v := Start([10, 10, 10], 120, 16, hash);
    v.b.Older();
    v.Outside();
    v.CacheOutside();
    v.AddPool(OUTER_ADDR, [1024, 1024, 1024], [65535, 65535, 65535]);
    v.Outside();
    v.CacheOutside();
    v.AddTunnel(TUNNEL, OUTER_ADDR);
  }

  /** add_prr or add_snat0, on a port that no entry has */
  method Declare(v: Nats, k: Key, generation: nat) returns (n: Nat)
    requires Ready(v) && k in {PRR, STATIC, OTHER}
    requires forall m <- v.b.table.entries :: TreeRank(m.key) != TreeRank(k) && SplayRank(m.key) != SplayRank(k)
    modifies v`counters, v.b.Region(), v.b.table.entries`left, v.b.table.entries`right, v.b.table.entries`parent
    modifies v.b.table.entries`red, v.b.table.entries`tleft, v.b.table.entries`tright
    ensures Ready(v) && fresh(n) && n.key == k && n.generation == generation
    ensures v.b.table.entries == old(v.b.table.entries) + {n} && v.b.Region() == old(v.b.Region())
    ensures v.cache.slots == old(v.cache.slots) && forall p: Key :: v.cache.At(p) == old(v.cache.At(p))
  {
    hide Nats.Valid, NatCache.Ok, Bindings.Region, TreeRank, SplayRank;
    v.CacheOutside();
    v.Outside();
    v.b.NatsOutside(v.b.table.entries);
    LowPort(v, k);
    var added := v.AddStatic(k, OUTER_ADDR, generation);
    n := added;
  }

  lemma LowPort(v: Nats, k: Key)
    requires Ready(v) && k in {PRR, STATIC, OTHER}
    ensures Admissible(k) && SlotOf(k) in v.b.ports.source
    ensures PoolOf(k) in v.b.ports.ranges && !InRange(v.b.ports.Owners(), k) && v.Housed(k.tunnel, OUTER_ADDR)
  {
    hide Bindings.Valid;
    v.b.DynamicPort(k);
  }

  /** nat_lookup for the packet */
  method Ask(v: Nats, lastGen: nat) returns (n: Nat?)
    requires Ready(v)
    modifies v.cache.slots, v.b.table.entries`hash
    ensures Ready(v) && v.b.table.entries == old(v.b.table.entries) && v.b.Region() == old(v.b.Region())
    ensures v.cache.slots == old(v.cache.slots)
    ensures n == old(FromCache(v.cache.At(PACKET), v.b.table.Sought(PACKET), PACKET, lastGen))
    ensures v.b.table.Sought(PACKET) == old(v.b.table.Sought(PACKET))
    ensures v.cache.At(PACKET) == if n == null then old(v.cache.At(PACKET)) else n
  {
    hide Nats.Valid, NatCache.Ok, Bindings.Region, FromCache, NatCache.At;
    v.CacheOutside();
    v.b.Older();
    n := Lookup(v, PACKET, lastGen);
  }

  /** A single entry that answers the packet is the answer, unless it is stale and not in the cache */
  lemma OnlyOne(v: Nats, n: Nat, lastGen: nat)
    requires Ready(v) && v.b.table.entries == {n} && Answers(n, PACKET)
    ensures v.cache.At(PACKET) == null || v.cache.At(PACKET) == n
    ensures FromCache(v.cache.At(PACKET), v.b.table.Sought(PACKET), PACKET, lastGen) ==
            if v.cache.At(PACKET) == null && Stale(n.generation, lastGen) then null else n
  {
    hide Nats.Valid, TreeCompareWild, Index;
    v.SoughtFinds(PACKET);
    FoundAnswers(v.b.table.entries, PACKET, v.b.table.Sought(PACKET));
    assert v.cache.SlotOk(v.cache.At(PACKET), v.cache.IndexOf(PACKET), v.b.table.entries);
  }

  lemma CacheAnswers(slot: Nat?, found: Nat?, lastGen: nat)
    requires slot != null && Answers(slot, PACKET)
    ensures FromCache(slot, found, PACKET, lastGen) == slot
  {
  }

  /** Of the three the search finds the second, which is at the root of the tree */
  lemma Middle(v: Nats, prr: Nat, snat: Nat, other: Nat)
    requires Ready(v) && v.b.table.entries == {prr, snat, other}
    requires prr.key == PRR && snat.key == STATIC && other.key == OTHER
    ensures v.b.table.Sought(PACKET) == snat
  {
    hide Table.Valid, Ports.Valid, TreeRank;
    Ranks();
    assert OfIndex(v.b.table.entries, 0) == {prr, snat, other};
    v.b.table.MiddleSought(PACKET, prr, snat, other);
  }

  lemma Ranks()
    ensures TreeRank(PRR) < TreeRank(STATIC) < TreeRank(OTHER) && TreeCompareWild(PACKET, STATIC) == 0
    ensures SplayRank(PRR) != SplayRank(STATIC) && SplayRank(PRR) != SplayRank(OTHER)
    ensures SplayRank(STATIC) != SplayRank(OTHER)
  {
  }

  /** An address that leaves packets as they are and a static binding on one external address and port: no entry is
      stale, the search in the tree finds the one, and nat_lookup, which has cached the other, answers with that */
  method TwoKinds(hash: HashKey -> nat, lastGen: nat) returns (v: Nats, prr: Nat, snat: Nat, n: Nat?)
    ensures Ready(v) && forall m <- v.b.table.entries :: !Stale(m.generation, lastGen)
    ensures prr.key == PRR && snat.key == STATIC && {prr, snat} <= v.b.table.entries
    ensures v.b.table.Sought(PACKET) == snat && n == prr
    ensures n == FromCache(v.cache.At(PACKET), v.b.table.Sought(PACKET), PACKET, lastGen)
  {
    hide Ready, TreeRank, SplayRank, Bindings.Region, FromCache, NatCache.At, Answers, Table.Sought;
    v, prr := OnePrr(hash, lastGen);
    var other;
    snat, other := TwoMore(v, prr);
    Middle(v, prr, snat, other);
    CacheAnswers(prr, snat, lastGen);
    n := Ask(v, lastGen);
  }

  method OnePrr(hash: HashKey -> nat, lastGen: nat) returns (v: Nats, prr: Nat)
    ensures Ready(v) && v.b.table.entries == {prr} && prr.key == PRR && prr.generation == 0
    ensures Answers(prr, PACKET) && v.cache.At(PACKET) == prr
    ensures fresh(v) && fresh(v.b.Region()) && fresh(v.cache.slots) && fresh(prr)
  {
    hide Ready, TreeRank, SplayRank, Bindings.Region, FromCache, NatCache.At;
    v := Prepare(hash);
    prr := Declare(v, PRR, 0);
    OnlyOne(v, prr, lastGen);
    var n := Ask(v, lastGen);
  }

  method TwoMore(v: Nats, prr: Nat) returns (snat: Nat, other: Nat)
    requires Ready(v) && v.b.table.entries == {prr} && prr.key == PRR
    modifies v`counters, v.b.Region(), v.b.table.entries`left, v.b.table.entries`right, v.b.table.entries`parent
    modifies v.b.table.entries`red, v.b.table.entries`tleft, v.b.table.entries`tright
    ensures Ready(v) && v.b.table.entries == {prr, snat, other} && snat.key == STATIC && other.key == OTHER
    ensures snat.generation == 0 && other.generation == 0
    ensures fresh(snat) && fresh(other) && v.cache.slots == old(v.cache.slots) && v.b.Region() == old(v.b.Region())
    ensures v.cache.At(PACKET) == old(v.cache.At(PACKET)) && prr.generation == old(prr.generation)
  {
    hide Ready, TreeRank, SplayRank, Bindings.Region, NatCache.At;
    Ranks();
    v.b.NatsOutside({prr});
    snat := Declare(v, STATIC, 0);
    v.b.NatsOutside({snat});
    v.b.Older();
    other := Declare(v, OTHER, 0);
  }

  /** A static entry of a generation that is current when the packet is first looked up and stale when it is looked
      up again: the cache hands it out, and once the cache is replaced nothing is found */
  method PassedOver(hash: HashKey -> nat, generation: nat, lastGen: nat) returns (v: Nats, s: Nat, n: Nat?, m: Nat?)
    requires FIRST_GEN <= generation < lastGen
    ensures Ready(v) && v.b.table.entries == {s} && Stale(s.generation, lastGen) && Answers(s, PACKET)
    ensures n == s && m == null
    ensures m == FromCache(v.cache.At(PACKET), v.b.table.Sought(PACKET), PACKET, lastGen)
  {
    hide Ready, TreeRank, SplayRank, Bindings.Region, FromCache, NatCache.At;
    v := Prepare(hash);
    s := Declare(v, STATIC, generation);
    OnlyOne(v, s, generation);
    n := Ask(v, generation);
    OnlyOne(v, s, lastGen);
    n := Ask(v, lastGen);
    Replace(v, hash);
    OnlyOne(v, s, lastGen);
    m := Ask(v, lastGen);
    OnlyOne(v, s, lastGen);
  }

  method Replace(v: Nats, hash: HashKey -> nat)
    requires Ready(v)
    modifies v.cache
    ensures Ready(v) && v.b.table.entries == old(v.b.table.entries) && v.cache.At(PACKET) == null
    ensures fresh(v.cache.slots) && v.b.Region() == old(v.b.Region())
  {
    hide Nats.Valid, RegionOf;
    v.CacheOutside();
    v.b.Older();
    v.cache.Resize(32, hash);
  }

  // ---------- A wildcard that the search from inside misses ----------

  /** Whatever the packet, the wildcard and the entry for a smaller destination on one internal address and port:
      when that entry has been brought to the root, as by a reply to it, the wildcard is not found */
  method HiddenWildcard(k: Key, wild: Key, exact: Key) returns (s: S.Splay, w: Nat, e: Nat, found: Nat?)
    requires Template(k) && Admissible(wild) && Admissible(exact) && wild.flags.allDst && !exact.flags.allDst
    requires SameInside(wild, k) && SameInside(exact, k) && DstRank(exact) < DstRank(k)
    ensures s.Valid() && s.nodes == {w, e} && w.key == wild && e.key == exact
    ensures SplayCompareWild(k, wild) == 0 && found == null
  {
    hide SplayRank, SplayCompareWild, DstRank;
    Compared(k, wild, exact);
    s := new S.Splay();
    e := new Nat(exact, 0, 0, 0);
    var same := s.Insert(e);
    w := new Nat(wild, 0, 0, 0);
    same := s.Insert(w);
    s.Bring(e);
    NothingLarger(s, w, e);
    found := s.Find(k, 0, false, true, 0);
  }

  lemma Compared(k: Key, wild: Key, exact: Key)
    requires Template(k) && Admissible(wild) && Admissible(exact) && wild.flags.allDst && !exact.flags.allDst
    requires SameInside(wild, k) && SameInside(exact, k) && DstRank(exact) < DstRank(k)
    ensures SplayRank(wild) < SplayRank(exact) && SplayCompareWild(k, wild) == 0 && SplayCompareWild(k, exact) > 0
  {
    MatchCarries(k, wild);
    SplayGroupOrder(k, exact);
    DstWildOrder(k, exact);
    QuadOrder(NO_ADDR, exact.dst);
  }

  lemma RightLarger(s: S.Splay)
    requires s.Valid() && s.shape.Node?
    ensures forall m <- S.Entries(s.shape.r) :: m in s.nodes && SplayRank(s.shape.n.key) < SplayRank(m.key)
    ensures s.shape.r.Node? ==> s.shape.r.n in S.Entries(s.shape.r)
  {
    hide SplayRank;
    var l, r := S.Entries(s.shape.l), S.Entries(s.shape.r);
    var all := l + [s.shape.n] + r;
    S.EntriesNodes(s.shape);
    assert S.Entries(s.shape) == all && all[|l|] == s.shape.n;
    forall m | m in r ensures SplayRank(s.shape.n.key) < SplayRank(m.key) && m in s.nodes {
      var j :| 0 <= j < |r| && r[j] == m;
      assert all[|l| + 1 + j] == m;
    }
  }

  lemma NothingLarger(s: S.Splay, w: Nat, e: Nat)
    requires s.Valid() && s.nodes == {w, e} && s.root == e && SplayRank(w.key) < SplayRank(e.key)
    ensures s.shape.Node? && s.shape.n == e && s.shape.r.Leaf?
  {
    hide SplayRank, S.Entries;
    RightLarger(s);
  }

  /** A wildcard hides nowhere if there are no entries for one destination on its internal address and port */
  lemma StillFound(s: set<Nat>, n: Nat, p: Key)
    requires Findable(s, p) && forall m <- s :: SameInside(m.key, n.key) ==> m.key.flags.allDst
    requires n.key.flags.allDst
    ensures Findable(s + {n}, p)
  {
  }
}
