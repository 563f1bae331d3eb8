/**
  The NAT entries together with the ports they use: creation,
  static entries, removal, and what a lookup from either side finds.
 */
module Binding {
  import opened NatEntry
  import opened NatTable
  import opened PortRange
  import opened PortPool
  import R = RbTree
  import S = SplayTree

  /** The natted source port is one of the pool's dynamic ports */
  ghost predicate InRange(o: map<Pool, Owners>, k: Key) { PoolOf(k) in o && k.nport.Value() in o[PoolOf(k)] }

  ghost predicate Uses(n: Nat, a: Pool, port: int) { PoolOf(n.key) == a && n.key.nport.Value() == port }

  /** Entries for one destination have dynamic ports, wildcards have static ones */
  ghost predicate Placed(o: map<Pool, Owners>, entries: set<Nat>) {
    forall n <- entries :: PoolOf(n.key) in o && (n.key.flags.allDst <==> !InRange(o, n.key))
  }

  /** The slot of a tunnel has a port in its bucket */
  ghost predicate HasPort(o: map<Pool, Owners>, source: map<int, Pool>, t: int) {
    t in source && source[t] in o && Ready(o[source[t]], t)
  }

  /** The slot gets a port just when it has one, or one of those drawn from its pool is free */
  ghost predicate Supply(o: map<Pool, Owners>, source: map<int, Pool>, t: int, draws: seq<int>, ok: bool) {
    t in source && source[t] in o && Obtained(o[source[t]], t, draws, ok)
  }

  /** All ports of the slot's pool are free */
  ghost predicate AllFree(o: map<Pool, Owners>, source: map<int, Pool>, t: int) {
    t in source && source[t] in o && forall p <- o[source[t]] :: o[source[t]][p].Free?
  }

  lemma SupplyFacts(o: map<Pool, Owners>, source: map<int, Pool>, t: int, draws: seq<int>, ok: bool)
    requires Supply(o, source, t, draws, ok)
    ensures HasPort(o, source, t) ==> ok
    ensures AllFree(o, source, t) ==> ok
  {
    var pool := o[source[t]];
    if !ok {
      var p := draws[0];
      assert p in pool && !pool[p].Free?;
      assert !forall q <- pool :: pool[q].Free?;
    }
  }

  /** The owners after a port has gone on hold */
  ghost function Released(o: map<Pool, Owners>, a: Pool, port: int, until: int): map<Pool, Owners>
    requires a in o
  {
    o[a := o[a][port := OnHold(o[a], until)]]
  }

  predicate SameSource(k: Key, k': Key) { PoolOf(k) == PoolOf(k') && k.nport == k'.nport }

  /** The dynamic ports of live entries are live, and no two entries share one */
  ghost predicate Owning(o: map<Pool, Owners>, entries: set<Nat>) {
    && (forall n <- entries :: InRange(o, n.key) ==> o[PoolOf(n.key)][n.key.nport.Value()] == Live)
    && forall m, n | m in entries && n in entries && InRange(o, m.key) && SameSource(m.key, n.key) :: m == n
  }

  /** Every live port but a given one has an entry */
  ghost predicate Owned(o: map<Pool, Owners>, entries: set<Nat>, but: set<(Pool, int)>) {
    && (forall a, p | a in o && p in o[a] && o[a][p].Live? && (a, p) !in but ::
      exists n :: n in entries && Uses(n, a, p))
    && (forall n <- entries :: (PoolOf(n.key), n.key.nport.Value()) !in but)
  }

  ghost predicate Linked(o: map<Pool, Owners>, entries: set<Nat>, but: set<(Pool, int)>) {
    Placed(o, entries) && Owning(o, entries) && Owned(o, entries, but)
  }

  ghost function RegionOf(
    table: Table, ports: Ports, splays: map<int, S.Splay>, ranges: map<Pool, Range>, buckets: map<int, Bucket>):
    (r: set<object>)
    ensures table in r && ports in r
  {
    {table, ports} + (set t | t in table.trees) + splays.Values + ranges.Values + buckets.Values + BitmapsOf(ranges)
  }

  class Bindings {
    const table: Table
    const ports: Ports

    /** All that belongs here, but for the entries themselves */
    ghost function Region(): set<object>
      reads table, ports
    {
      RegionOf(table, ports, table.splays, ports.ranges, ports.buckets)
    }

    /** The objects are those they were */
    ghost predicate Kept(splays: map<int, S.Splay>, ranges: map<Pool, Range>, source: map<int, Pool>, buckets: map<int,
        Bucket>)
      reads table, ports
    {
      table.splays == splays && ports.ranges == ranges && ports.source == source && ports.buckets == buckets
    }

    /** In order, but for dynamic ports that are live and have no entry yet, or no longer */
    ghost predicate ValidBut(but: set<(Pool, int)>)
      reads table, ports, Region(), table.entries`left, table.entries`right, table.entries`parent, table.entries`red
      reads table.entries`tleft, table.entries`tright
    {
      && table.Valid() && ports.Valid() && table.splays.Keys == ports.source.Keys
      && Linked(ports.Owners(), table.entries, but)
    }

    ghost predicate Valid()
      reads table, ports, Region(), table.entries`left, table.entries`right, table.entries`parent, table.entries`red
      reads table.entries`tleft, table.entries`tright
    {
      ValidBut({})
    }

    constructor ()
      ensures Valid() && table.entries == {} && ports.ranges == map[] && ports.source == map[]
      ensures fresh(table) && fresh(table.trees) && fresh(ports) && Kept(map[], map[], map[], map[])
    {
      table := new Table();
      ports := new Ports();
    }

    /** No two entries of one group of the tree differ in being wildcards */
    lemma TreeUnmixed(o: map<Pool, Owners>)
      requires Placed(o, table.entries)
      ensures R.Unmixed(table.entries)
    {
      forall m, n | m in table.entries && n in table.entries && TreeGroup(m.key) == TreeGroup(n.key)
        ensures m.key.flags.allDst == n.key.flags.allDst
      {
        TreeGroupOrder(m.key, n.key);
      }
    }

    /** The first half of new_nat: a port for an entry of the tunnel */
    method Allot(t: int, size: nat) returns (ok: bool, a: Pool, port: int, ghost draws: seq<int>)
      requires Valid() && t in ports.source && 1 <= size <= 255
      modifies Region()
      ensures Kept(old(table.splays), old(ports.ranges), old(ports.source), old(ports.buckets))
      ensures table.entries == old(table.entries)
      ensures !ok ==> Valid() && ports.Owners() == old(ports.Owners())
      ensures Supply(old(ports.Owners()), old(ports.source), t, draws, ok)
      ensures ok ==>
        && ValidBut({(a, port)}) && a == ports.source[t] && 0 <= port <= 65535 && a in ports.ranges
        && port in ports.ranges[a].owner
      ensures ok ==> Allotted(old(ports.Owners()[a]), ports.Owners()[a], t, ok, port)
      ensures ok ==> ports.Owners() == old(ports.Owners())[a := ports.Owners()[a]]
    {
      hide Table.Valid, Ports.RangesOk, Ports.BucketsOk, Linked, Obtained;
      a := ports.source[t];
      ok, port, draws := ports.Allot(t, size);
      if ok {
        PortBounds(a, port);
        LinkedAllotted(old(ports.Owners()), ports.Owners(), table.entries, a, port, t);
      }
    }

    /** What changes the table leaves the ports alone */
    method EnterTable(n: Nat) returns (ok: bool)
      requires table.Valid() && ports.Valid() && n !in table.entries && Admissible(n.key)
      requires SlotOf(n.key) in table.splays
      modifies Region()
      modifies table.entries`left, table.entries`right, table.entries`parent, table.entries`red
      modifies table.entries`tleft, table.entries`tright, n`left, n`right, n`parent, n`red, n`tleft, n`tright
      ensures Kept(old(table.splays), old(ports.ranges), old(ports.source), old(ports.buckets))
      ensures table.Valid() && ports.Valid() && ports.Owners() == old(ports.Owners())
      ensures table.entries == if ok then old(table.entries) + {n} else old(table.entries)
      ensures ok <==>
              && (forall m <- OfIndex(old(table.entries), Index(n.key.proto)) :: TreeRank(m.key) != TreeRank(n.key))
              && (forall m <- Of(old(table.entries), SlotOf(n.key)) :: SplayRank(m.key) != SplayRank(n.key))
    {
      hide Table.Valid, Ports.Valid, SplayRank, TreeRank, RegionOf;
      Separate();
      Inside();
      ok := table.Enter(n);
    }

    method LeaveTable(n: Nat)
      requires table.Valid() && ports.Valid() && n in table.entries && SlotOf(n.key) in table.splays
      modifies Region()
      modifies table.entries`left, table.entries`right, table.entries`parent, table.entries`red
      modifies table.entries`tleft, table.entries`tright
      ensures Kept(old(table.splays), old(ports.ranges), old(ports.source), old(ports.buckets))
      ensures table.Valid() && ports.Valid() && ports.Owners() == old(ports.Owners())
      ensures table.entries == old(table.entries) - {n}
    {
      hide Table.Valid, Ports.Valid, RegionOf;
      Separate();
      Inside();
      table.Leave(n);
    }

    /** The second half of new_nat: into both trees, with the port just drawn */
    method Bind(n: Nat, ghost a: Pool, ghost port: int) returns (ok: bool)
      requires ValidBut({(a, port)}) && n !in table.entries && Admissible(n.key) && !n.key.flags.allDst
      requires SlotOf(n.key) in ports.source && Uses(n, a, port)
      requires a in ports.ranges && port in ports.ranges[a].owner && ports.ranges[a].owner[port].Live?
      modifies Region()
      modifies table.entries`left, table.entries`right, table.entries`parent, table.entries`red
      modifies table.entries`tleft, table.entries`tright, n`left, n`right, n`parent, n`red, n`tleft, n`tright
      ensures Kept(old(table.splays), old(ports.ranges), old(ports.source), old(ports.buckets))
      ensures ports.Owners() == old(ports.Owners())
      ensures if ok then Valid() && table.entries == old(table.entries) + {n}
              else ValidBut({(a, port)}) && table.entries == old(table.entries)
      ensures ok <==> forall m <- Of(old(table.entries), SlotOf(n.key)) :: SplayRank(m.key) != SplayRank(n.key)
    {
      hide Table.Valid, Ports.Valid, Linked, SplayRank, TreeRank;
      TableFacts();
      LinkedBound(ports.Owners(), table.entries, n, a, port);
      NoEqualPort(ports.Owners(), table.entries, n, a, port);
      ok := EnterTable(n);
    }

    /** A port that is live without an entry goes on hold */
    method Release(a: Pool, port: int, until: int)
      requires ValidBut({(a, port)}) && a in ports.ranges && port in ports.ranges[a].owner
      requires ports.ranges[a].owner[port].Live?
      modifies Region()
      ensures Kept(old(table.splays), old(ports.ranges), old(ports.source), old(ports.buckets))
      ensures table.entries == old(table.entries)
      ensures Valid() && ports.Owners() == Released(old(ports.Owners()), a, port, until)
    {
      hide Table.Valid, Ports.RangesOk, Ports.BucketsOk, Linked;
      ghost var o := ports.Owners();
      LinkedReleased(o, Released(o, a, port, until), table.entries, a, port);
      ports.Release(a, port, until);
      assert ports.Owners() == Released(o, a, port, until);
    }

    /** del_nat, but for the heap and the counters: out of both trees, and a dynamic port goes on hold */
    method Unbind(n: Nat, until: int)
      requires Valid() && n in table.entries
      modifies Region()
      modifies table.entries`left, table.entries`right, table.entries`parent, table.entries`red
      modifies table.entries`tleft, table.entries`tright
      ensures Kept(old(table.splays), old(ports.ranges), old(ports.source), old(ports.buckets))
      ensures Valid() && table.entries == old(table.entries) - {n}
      ensures var a, port, o := PoolOf(n.key), n.key.nport.Value(), old(ports.Owners());
        a in o && ports.Owners() == if n.key.flags.allDst then o else Released(o, a, port, until)
    {
      hide Table.Valid, Ports.Valid, Linked;
      var a, port := PoolOf(n.key), n.key.nport.Value();
      LinkedEntry(ports.Owners(), table.entries, n);
      LinkedLeft(ports.Owners(), table.entries, n);
      TableFacts();
      RangeKeys(a, port);
      LeaveTable(n);
      var r := ports.ranges[a];
      if port < r.minport || port > r.maxport {
        return;
      }
      Release(a, port, until);
    }

    /** The insertions of add_snat0 and add_prr, on a port outside the dynamic range */
    method AddStatic(n: Nat) returns (ok: bool)
      requires Valid() && n !in table.entries && Admissible(n.key) && n.key.flags.allDst
      requires SlotOf(n.key) in ports.source
      requires PoolOf(n.key) in ports.ranges && !InRange(ports.Owners(), n.key)
      modifies Region()
      modifies table.entries`left, table.entries`right, table.entries`parent, table.entries`red
      modifies table.entries`tleft, table.entries`tright, n`left, n`right, n`parent, n`red, n`tleft, n`tright
      ensures Kept(old(table.splays), old(ports.ranges), old(ports.source), old(ports.buckets))
      ensures ports.Owners() == old(ports.Owners())
      ensures Valid() && table.entries == if ok then old(table.entries) + {n} else old(table.entries)
      ensures ok <==>
              && (forall m <- OfIndex(old(table.entries), Index(n.key.proto)) :: TreeRank(m.key) != TreeRank(n.key))
              && (forall m <- Of(old(table.entries), SlotOf(n.key)) :: SplayRank(m.key) != SplayRank(n.key))
    {
      hide Table.Valid, Ports.Valid, Linked, SplayRank, TreeRank, InRange;
      LinkedStatic(ports.Owners(), table.entries, n);
      ok := EnterTable(n);
    }

    /** What natin finds for a packet: an entry that matches it, if there is one */
    method FindIn(k: Key) returns (found: Nat?)
      requires Valid() && SlotOf(k) in ports.source && Template(k)
      modifies Region(), table.entries`tleft, table.entries`tright
      ensures Kept(old(table.splays), old(ports.ranges), old(ports.source), old(ports.buckets))
      ensures Valid() && table.entries == old(table.entries) && ports.Owners() == old(ports.Owners())
      ensures table.tnatcnt == old(table.tnatcnt)
      ensures found != null ==> found in Of(table.entries, SlotOf(k)) && SplayCompareWild(k, found.key) == 0
      ensures found == null && Findable(table.entries, k) ==>
        forall m <- Of(table.entries, SlotOf(k)) :: SplayCompareWild(k, m.key) != 0
    {
      hide Table.Valid, Ports.Valid, Linked, S.Unhidden, SplayCompareWild, RegionOf;
      Separate();
      Inside();
      FindableUnhidden(table.entries, k);
      found := table.FindIn(k);
    }

    method Bring(n: Nat)
      requires Valid() && n in table.entries
      modifies Region(), table.entries`tleft, table.entries`tright
      ensures Kept(old(table.splays), old(ports.ranges), old(ports.source), old(ports.buckets))
      ensures Valid() && table.entries == old(table.entries) && ports.Owners() == old(ports.Owners())
    {
      hide Table.Valid, Ports.Valid, Linked, RegionOf;
      Separate();
      Inside();
      TableFacts();
      table.Bring(n);
    }

    lemma SoughtFinds(k: Key)
      requires Valid() && Template(k)
      ensures table.Sought(k) != null ==>
        table.Sought(k) in OfIndex(table.entries, Index(k.proto)) && TreeCompareWild(k, table.Sought(k).key) == 0
      ensures table.Sought(k) == null ==>
        forall m <- OfIndex(table.entries, Index(k.proto)) :: TreeCompareWild(k, m.key) != 0
    {
      hide Table.Valid, Ports.Valid, TreeCompareWild, Owned;
      TreeUnmixed(ports.Owners());
      table.SoughtFinds(k);
    }

    /** What natout finds for a packet.  On a dynamic port it is the one entry that has the port, or nothing. */
    method FindOut(k: Key) returns (found: Nat?)
      requires Valid() && Template(k)
      ensures found == table.Sought(k)
      ensures found != null ==> found in OfIndex(table.entries, Index(k.proto)) && TreeCompareWild(k, found.key) == 0
      ensures found == null ==> forall m <- OfIndex(table.entries, Index(k.proto)) :: TreeCompareWild(k, m.key) != 0
      ensures found != null ==> PoolOf(found.key) == PoolOf(k) && found.key.nport == k.nport
      ensures found != null && InRange(ports.Owners(), k) ==>
        forall n <- table.entries :: PoolOf(n.key) == PoolOf(k) && n.key.nport == k.nport ==> n == found
    {
      hide Table.Valid, Ports.Valid, TreeCompareWild, Owned;
      TreeUnmixed(ports.Owners());
      found := table.FindOut(k);
      if found != null {
        SameGroup(k, found.key);
      }
    }

    /** The dynamic ports of a pool */
    ghost predicate Spans(a: Pool, minport: nat, maxport: nat)
      reads ports
    {
      a in ports.ranges && ports.ranges[a].minport == minport && ports.ranges[a].maxport == maxport
    }

    method AddPool(a: Pool, minport: nat, maxport: nat)
      requires Valid() && a !in ports.ranges && minport <= maxport <= 65535
      modifies Region()
      ensures Kept(old(table.splays), ports.ranges, old(ports.source), old(ports.buckets))
      ensures table.entries == old(table.entries)
      ensures Valid() && a in ports.ranges && fresh(ports.ranges[a]) && fresh(ports.ranges[a].freebm)
      ensures ports.ranges == old(ports.ranges)[a := ports.ranges[a]]
      ensures ports.Owners() == old(ports.Owners())[a := ports.ranges[a].owner]
      ensures Spans(a, minport, maxport)
      ensures forall p <- ports.ranges[a].owner :: ports.ranges[a].owner[p].Free?
    {
      hide Table.Valid, Ports.RangesOk, Ports.BucketsOk, Linked;
      ports.AddPool(a, minport, maxport);
      LinkedPool(old(ports.Owners()), ports.Owners(), table.entries, a);
    }

    method AddSlot(t: int, a: Pool)
      requires Valid() && t !in ports.source && a in ports.ranges
      modifies Region()
      ensures ports.ranges == old(ports.ranges) && table.entries == old(table.entries)
      ensures ports.Owners() == old(ports.Owners())
      ensures Valid() && ports.source == old(ports.source)[t := a] && fresh(table.splays[t]) && fresh(ports.buckets[t])
      ensures table.splays == old(table.splays)[t := table.splays[t]]
      ensures ports.buckets == old(ports.buckets)[t := ports.buckets[t]]
    {
      hide Table.Valid, Ports.Valid, Linked, RegionOf;
      TableFacts();
      Separate();
      Inside();
      ghost var bits: set<object> := set b | b in ports.Bitmaps() :: b;
      table.AddSlot(t);
      assert table.splays[t] !in bits && table.splays.Keys == old(table.splays).Keys + {t};
      ports.AddSlot(t, a);
    }

    /** The end of del_tunnel: the bucket goes back to the pool */
    method RemoveSlot(t: int)
      requires Valid() && t in ports.source && Of(table.entries, t) == {}
      modifies Region()
      ensures ports.ranges == old(ports.ranges) && table.entries == old(table.entries)
      ensures Valid() && ports.source == old(ports.source) - {t}
      ensures table.splays == old(table.splays) - {t} && ports.buckets == old(ports.buckets) - {t}
      ensures ports.Owners().Keys == old(ports.Owners()).Keys
      ensures forall a <- ports.ranges :: ReturnedOnly(old(ports.Owners()[a]), ports.Owners()[a], t)
    {
      hide Table.Valid, Ports.Valid, Linked, RegionOf;
      SourceFacts(t);
      Inside();
      DropSplay(t);
      Separate();
      ghost var o := ports.Owners();
      ports.RemoveSlot(t);
      LinkedSame(o, ports.Owners(), table.entries, t);
    }

    method DropSplay(t: int)
      requires table.Valid() && ports.Valid() && t in table.splays && Of(table.entries, t) == {}
      modifies table`splays, table`tnatcnt
      ensures table.Valid() && ports.Valid() && ports.Owners() == old(ports.Owners())
      ensures table.splays == old(table.splays) - {t} && table.splays.Keys == old(table.splays).Keys - {t}
    {
      hide Table.Valid, Ports.Valid;
      Separate();
      table.RemoveSlot(t);
    }

    /** free_heldnats */
    method FreeHelds(now: int)
      requires Valid()
      modifies Region()
      ensures Kept(old(table.splays), old(ports.ranges), old(ports.source), old(ports.buckets))
      ensures table.entries == old(table.entries)
      ensures Valid() && ports.Owners().Keys == old(ports.Owners()).Keys
      ensures forall a <- ports.ranges :: FreedOnly(old(ports.Owners()[a]), ports.Owners()[a], now)
      ensures forall a <- ports.ranges :: ports.ranges[a].helds != [] ==> ports.ranges[a].helds[0].timeout > now
    {
      hide Table.Valid, Ports.Valid, Linked, FreedOnly, Returned;
      Separate();
      ports.FreeHelds(now);
      forall a | a in ports.ranges ensures Returned(old(ports.Owners()[a]), ports.Owners()[a], -1) {
        FreedReturned(old(ports.Owners()[a]), ports.Owners()[a], now);
      }
      LinkedSame(old(ports.Owners()), ports.Owners(), table.entries, -1);
    }

    lemma SourceFacts(t: int)
      requires ports.Valid() && t in ports.source
      ensures t in ports.buckets && ports.source[t] in ports.ranges
    {
    }

    lemma TableFacts()
      requires table.Valid()
      ensures forall n <- table.entries :: Admissible(n.key) && SlotOf(n.key) in table.splays
    {
      forall n | n in table.entries ensures Admissible(n.key) {
        table.AdmissibleEntry(n);
      }
    }

    lemma Inside()
      ensures (forall t <- table.trees :: t in Region()) && (forall t <- table.splays :: table.splays[t] in Region())
      ensures (forall a <- ports.ranges :: ports.ranges[a] in Region() && ports.ranges[a].freebm in Region())
      ensures forall t <- ports.buckets :: ports.buckets[t] in Region()
    {
    }

    lemma AllAdmissible(but: set<(Pool, int)>)
      requires ValidBut(but)
      ensures forall n <- table.entries :: Admissible(n.key) && SlotOf(n.key) in ports.source
    {
      hide Table.Valid;
      TableFacts();
    }

    lemma OwnedEntry(n: Nat)
      requires Valid() && n in table.entries
      ensures !n.key.flags.allDst ==>
        InRange(ports.Owners(), n.key) && ports.Owners()[PoolOf(n.key)][n.key.nport.Value()] == Live
    {
    }

    lemma DynamicPort(k: Key)
      requires Valid() && PoolOf(k) in ports.ranges
      ensures InRange(ports.Owners(), k) <==>
        ports.ranges[PoolOf(k)].minport <= k.nport.Value() <= ports.ranges[PoolOf(k)].maxport
    {
      RangeKeys(PoolOf(k), k.nport.Value());
    }

    lemma RootOf(t: int)
      requires Valid() && t in ports.source
      ensures t in table.splays
      ensures table.splays[t].root != null ==> table.splays[t].root in Of(table.entries, t)
      ensures table.splays[t].root == null ==> Of(table.entries, t) == {}
    {
      hide Table.Valid;
      table.RootOf(t);
    }

    lemma ToBut()
      requires Valid()
      ensures ValidBut({})
    {
    }

    lemma FromBut()
      requires ValidBut({})
      ensures Valid()
    {
    }

    lemma OnePerPort(m: Nat, n: Nat)
      requires Valid() && m in table.entries && n in table.entries && !n.key.flags.allDst
      requires PoolOf(m.key) == PoolOf(n.key) && m.key.nport == n.key.nport
      ensures m == n
    {
      hide Table.Valid, Ports.Valid;
      assert InRange(ports.Owners(), n.key);
    }

    lemma OneOfKind(m: Nat, n: Nat)
      requires Valid() && m in table.entries && n in table.entries
      requires PoolOf(m.key) == PoolOf(n.key) && m.key.proto == n.key.proto && m.key.nport == n.key.nport
      requires m.key.flags.prrNull == n.key.flags.prrNull
      ensures m == n
    {
      hide Table.Valid, Ports.Valid, TreeRank;
      assert InRange(ports.Owners(), m.key) <==> InRange(ports.Owners(), n.key);
      if n.key.flags.allDst {
        SameWildcard(m.key, n.key);
        table.OneOfRank(m, n);
      } else {
        OnePerPort(m, n);
      }
    }

    // ---------- Where a port is ----------

    /** Its bit is set */
    ghost predicate InBitmap(a: Pool, p: int)
      reads ports, ports.ranges.Values, ports.Bitmaps()
    {
      a in ports.ranges && var r := ports.ranges[a];
      r.minport <= p <= r.maxport && p - r.minport < 8 * r.freebm.Length && Bit(r.freebm[..], p - r.minport)
    }

    /** It is at place i of the bucket of slot t */
    ghost predicate InBucket(a: Pool, p: int, t: int, i: int)
      reads ports, ports.buckets.Values
    {
      && t in ports.source && ports.source[t] == a && t in ports.buckets
      && 0 <= i < |ports.buckets[t].ports| && ports.buckets[t].ports[i] == p
    }

    /** It is the port of entry n */
    ghost predicate InUse(a: Pool, p: int, n: Nat)
      reads table
    {
      n in table.entries && Uses(n, a, p)
    }

    /** It is at place i of the hold queue */
    ghost predicate InQueue(a: Pool, p: int, i: int)
      reads ports, ports.ranges.Values
    {
      a in ports.ranges && 0 <= i < |ports.ranges[a].helds| && ports.ranges[a].helds[i].port == p
    }

    /** The port is in exactly one place, and there once: the one that its owner names */
    ghost predicate OnePlace(a: Pool, p: int)
      reads table, ports, ports.ranges.Values, ports.buckets.Values, ports.Bitmaps()
    {
      a in ports.ranges && p in ports.ranges[a].owner && var x := ports.ranges[a].owner[p];
      && (InBitmap(a, p) <==> x.Free?)
      && (x.Reserved? ==> exists i :: InBucket(a, p, x.tunnel, i))
      && (forall t, i :: InBucket(a, p, t, i) ==> x == Reserved(t))
      && (x.Live? <==> exists n :: n in table.entries && InUse(a, p, n))
      && (x.Held? ==> exists i :: InQueue(a, p, i) && ports.ranges[a].helds[i].timeout == x.until)
      && (forall i :: InQueue(a, p, i) ==> x.Held?)
      && (forall t, i, u, j :: InBucket(a, p, t, i) && InBucket(a, p, u, j) ==> t == u && i == j)
      && (forall m, n | m in table.entries && n in table.entries :: InUse(a, p, m) && InUse(a, p, n) ==> m == n)
      && (forall i, j :: InQueue(a, p, i) && InQueue(a, p, j) ==> i == j)
    }

    /** Every port of a range has its bit set, or is in one bucket, or has one live entry, or is on hold */
    lemma Partition(a: Pool, p: int)
      requires Valid() && a in ports.ranges && ports.ranges[a].minport <= p <= ports.ranges[a].maxport
      ensures OnePlace(a, p)
    {
      hide Table.Valid, Ports.Valid, Linked, InBitmap, InBucket, InUse, InQueue;
      RangeKeys(a, p);
      RangePlaces(a, p);
      BucketPlaces(a, p);
      UsePlaces(a, p);
    }

    lemma RangePlaces(a: Pool, p: int)
      requires ports.Valid() && a in ports.ranges && p in ports.ranges[a].owner
      ensures var x := ports.ranges[a].owner[p];
        && (InBitmap(a, p) <==> x.Free?)
        && (x.Held? ==> exists i :: InQueue(a, p, i) && ports.ranges[a].helds[i].timeout == x.until)
        && (forall i :: InQueue(a, p, i) ==> x.Held?) && forall i, j :: InQueue(a, p, i) && InQueue(a, p, j) ==> i == j
    {
      hide Range.Counting, Ports.BucketsOk, Ports.Apart;
      var r := ports.ranges[a];
      assert r.Valid();
      QueueOnce(r.owner, r.helds);
      if r.owner[p].Held? {
        assert OnQueue(r.helds, p);
        var x :| x in r.helds && x.port == p;
        var i :| 0 <= i < |r.helds| && r.helds[i] == x;
        assert InQueue(a, p, i) && Awaits(r.owner, x);
      }
      forall i | InQueue(a, p, i) ensures r.owner[p].Held? {
        assert Awaits(r.owner, r.helds[i]);
      }
    }

    lemma BucketPlaces(a: Pool, p: int)
      requires ports.Valid() && a in ports.ranges && p in ports.ranges[a].owner
      ensures ports.ranges[a].owner[p].Reserved? ==> exists i :: InBucket(a, p, ports.ranges[a].owner[p].tunnel, i)
      ensures forall t, i :: InBucket(a, p, t, i) ==> ports.ranges[a].owner[p] == Reserved(t)
      ensures forall t, i, u, j :: InBucket(a, p, t, i) && InBucket(a, p, u, j) ==> t == u && i == j
    {
      hide Range.Valid, Ports.Pooled;
      var o, x := ports.Owners(), ports.ranges[a].owner[p];
      assert o[a] == ports.ranges[a].owner;
      forall t, i | InBucket(a, p, t, i)
        ensures x == Reserved(t)
        ensures forall j :: InBucket(a, p, t, j) ==> i == j
      {
        assert ports.BucketOk(o, t);
      }
      if x.Reserved? {
        assert ports.BucketOk(o, x.tunnel);
        var i :| 0 <= i < |ports.buckets[x.tunnel].ports| && ports.buckets[x.tunnel].ports[i] == p;
        assert InBucket(a, p, x.tunnel, i);
      }
    }

    lemma UsePlaces(a: Pool, p: int)
      requires Valid() && a in ports.ranges && p in ports.ranges[a].owner
      ensures ports.ranges[a].owner[p].Live? ==> exists n :: n in table.entries && InUse(a, p, n)
      ensures forall n | n in table.entries :: InUse(a, p, n) ==> ports.ranges[a].owner[p].Live?
      ensures forall m, n | m in table.entries && n in table.entries :: InUse(a, p, m) && InUse(a, p, n) ==> m == n
    {
      hide Table.Valid, Ports.Valid;
      var o := ports.Owners();
      forall n | n in table.entries && InUse(a, p, n) ensures InRange(o, n.key) {
      }
      forall m, n | m in table.entries && n in table.entries && InUse(a, p, m) && InUse(a, p, n) ensures m == n {
        SamePort(m.key.nport, n.key.nport);
        assert InRange(o, m.key) && SameSource(m.key, n.key);
      }
      if o[a][p].Live? {
        assert (a, p) !in {};
        var n :| n in table.entries && Uses(n, a, p);
        assert InUse(a, p, n);
      }
    }

    /** The live entries that have a dynamic port of the pool */
    ghost function LiveOf(a: Pool): set<Nat>
      reads table, ports, ports.ranges.Values
    {
      set n | n in table.entries && PoolOf(n.key) == a && InRange(ports.Owners(), n.key)
    }

    /** What the program's own checks compare natcnt with: the entries on dynamic ports and the hold queue */
    lemma Counted(a: Pool)
      requires Valid() && a in ports.ranges
      ensures !ports.ranges[a].wrapped ==> ports.ranges[a].natcnt == |LiveOf(a)| + |ports.ranges[a].helds|
    {
      hide Table.Valid, Ports.Valid, Linked, InUse, InBitmap, InBucket, InQueue;
      var r := ports.ranges[a];
      var live, held := PortsOf(LiveOf(a)), HeldPorts(r.helds);
      RangeCount(a);
      HeldNumber(r.helds);
      UsedPlaces(a);
      PortsNumber(LiveOf(a));
      SplitNumber(live, held);
    }

    lemma RangeCount(a: Pool)
      requires ports.Valid() && a in ports.ranges
      ensures var r := ports.ranges[a];
        (forall i, j | 0 <= i < j < |r.helds| :: r.helds[i].port != r.helds[j].port)
        && (!r.wrapped ==> r.natcnt == |Used(r.owner)|)
    {
      assert ports.ranges[a].Valid();
    }

    lemma UsedPlaces(a: Pool)
      requires Valid() && a in ports.ranges
      ensures PortsOf(LiveOf(a)) + HeldPorts(ports.ranges[a].helds) == Used(ports.ranges[a].owner)
      ensures PortsOf(LiveOf(a)) !! HeldPorts(ports.ranges[a].helds)
      ensures forall m, n | m in LiveOf(a) && n in LiveOf(a) && m.key.nport.Value() == n.key.nport.Value() :: m == n
    {
      hide Table.Valid, Ports.Valid, Linked;
      var r := ports.ranges[a];
      forall p | p in r.owner
        ensures p in PortsOf(LiveOf(a)) <==> r.owner[p].Live?
        ensures p in HeldPorts(r.helds) <==> r.owner[p].Held?
      {
        RangePlaces(a, p);
        UsePlaces(a, p);
        LivePort(a, p);
        HeldPort(a, p);
      }
      forall p | p in PortsOf(LiveOf(a)) ensures p in r.owner {
      }
      forall p | p in HeldPorts(r.helds) ensures p in r.owner {
        HeldInside(a, p);
      }
      forall p ensures p in Used(r.owner) <==> p in PortsOf(LiveOf(a)) + HeldPorts(r.helds) {
        assert p in Used(r.owner) <==> p in r.owner && r.owner[p].Counted();
      }
      forall m, n | m in LiveOf(a) && n in LiveOf(a) && m.key.nport.Value() == n.key.nport.Value() ensures m == n {
        UsePlaces(a, m.key.nport.Value());
        assert InUse(a, m.key.nport.Value(), m) && InUse(a, m.key.nport.Value(), n);
      }
    }

    lemma LivePort(a: Pool, p: int)
      requires a in ports.ranges && p in ports.ranges[a].owner
      ensures p in PortsOf(LiveOf(a)) <==> exists n :: n in table.entries && InUse(a, p, n)
    {
      if n: Nat :| n in table.entries && InUse(a, p, n) {
        assert n in LiveOf(a) && n.key.nport.Value() == p;
      }
      if p in PortsOf(LiveOf(a)) {
        var n :| n in LiveOf(a) && n.key.nport.Value() == p;
        assert InUse(a, p, n);
      }
    }

    lemma HeldPort(a: Pool, p: int)
      requires a in ports.ranges
      ensures p in HeldPorts(ports.ranges[a].helds) <==> exists i :: InQueue(a, p, i)
    {
      var h := ports.ranges[a].helds;
      if p in HeldPorts(h) {
        var i :| 0 <= i < |h| && h[i].port == p;
        assert InQueue(a, p, i);
      }
    }

    lemma HeldInside(a: Pool, p: int)
      requires ports.Valid() && a in ports.ranges && p in HeldPorts(ports.ranges[a].helds)
      ensures p in ports.ranges[a].owner
    {
      var r := ports.ranges[a];
      assert r.Valid();
      var i :| 0 <= i < |r.helds| && r.helds[i].port == p;
      assert Awaits(r.owner, r.helds[i]);
    }

    lemma PortBounds(a: Pool, port: int)
      requires ports.Valid() && a in ports.ranges && port in ports.ranges[a].owner
      ensures 0 <= port <= 65535
    {
      assert ports.ranges[a].Valid();
    }

    lemma Older()
      ensures forall o <- Region() :: allocated(o)
    {
    }

    lemma NatsOutside(s: set<Nat>)
      ensures forall n <- s :: n !in Region()
    {
    }

    lemma Separate()
      ensures forall b: object | b in ports.Bitmaps() ::
        b != table && b !in table.trees && b !in table.splays.Values && b !in table.entries
      ensures forall b: object | b in ports.ranges.Values ::
        b != table && b !in table.trees && b !in table.splays.Values
    {
    }

    lemma RangeKeys(a: Pool, port: int)
      requires ports.Valid() && a in ports.ranges
      ensures port in ports.ranges[a].owner <==> ports.ranges[a].minport <= port <= ports.ranges[a].maxport
    {
    }
  }

  /** On the packet's internal address and port there is no wildcard, or no entry for a smaller destination */
  ghost predicate Findable(entries: set<Nat>, k: Key) {
    forall m, n | m in entries && n in entries && SameInside(m.key, k) && SameInside(n.key, k) ::
      m.key.flags.allDst && !n.key.flags.allDst ==> DstRank(k) <= DstRank(n.key)
  }

  predicate SameInside(m: Key, k: Key) {
    m.tunnel == k.tunnel && m.proto == k.proto && m.src == k.src && m.sport == k.sport
  }

  lemma FindableUnhidden(entries: set<Nat>, k: Key)
    ensures Findable(entries, k) ==> S.Unhidden(k, Of(entries, SlotOf(k)))
  {
    hide SplayGroup;
    forall m | m in entries && SplayGroup(m.key) == SplayGroup(k) ensures SameInside(m.key, k) {
      SplayGroupOrder(m.key, k);
    }
  }

  ghost function PortsOf(s: set<Nat>): set<int> { set n | n in s :: n.key.nport.Value() }

  ghost function HeldPorts(h: seq<HeldPort>): set<int> { set i | 0 <= i < |h| :: h[i].port }

  lemma {:induction false} PortsNumber(s: set<Nat>)
    requires forall m, n | m in s && n in s && m.key.nport.Value() == n.key.nport.Value() :: m == n
    ensures |PortsOf(s)| == |s|
  {
    if s != {} {
      var n :| n in s;
      PortsNumber(s - {n});
      assert PortsOf(s) == PortsOf(s - {n}) + {n.key.nport.Value()};
      assert n.key.nport.Value() !in PortsOf(s - {n});
    }
  }

  lemma {:induction false} HeldNumber(h: seq<HeldPort>)
    requires forall i, j | 0 <= i < j < |h| :: h[i].port != h[j].port
    ensures |HeldPorts(h)| == |h|
  {
    if h != [] {
      var last := |h| - 1;
      HeldNumber(h[..last]);
      assert HeldPorts(h) == HeldPorts(h[..last]) + {h[last].port};
      assert h[last].port !in HeldPorts(h[..last]);
    }
  }

  lemma SplitNumber(a: set<int>, b: set<int>)
    requires a !! b
    ensures |a + b| == |a| + |b|
  {
  }

  lemma LinkedEntry(o: map<Pool, Owners>, entries: set<Nat>, n: Nat)
    requires Linked(o, entries, {}) && n in entries
    ensures PoolOf(n.key) in o && (n.key.flags.allDst <==> !InRange(o, n.key))
    ensures InRange(o, n.key) ==> o[PoolOf(n.key)][n.key.nport.Value()] == Live
  {
  }

  lemma LinkedLeft(o: map<Pool, Owners>, entries: set<Nat>, n: Nat)
    requires Linked(o, entries, {}) && n in entries
    ensures Linked(o, entries - {n}, if n.key.flags.allDst then {} else {(PoolOf(n.key), n.key.nport.Value())})
  {
    var rest := entries - {n};
    if !n.key.flags.allDst {
      forall m | m in rest ensures (PoolOf(m.key), m.key.nport.Value()) != (PoolOf(n.key), n.key.nport.Value()) {
        if m.key.nport.Value() == n.key.nport.Value() {
          SamePort(m.key.nport, n.key.nport);
        }
        assert InRange(o, n.key);
      }
    }
    forall a, p | a in o && p in o[a] && o[a][p].Live?
                  && (n.key.flags.allDst || (a, p) != (PoolOf(n.key), n.key.nport.Value()))
      ensures exists m :: m in rest && Uses(m, a, p)
    {
      var m :| m in entries && Uses(m, a, p);
      assert InRange(o, n.key) <==> !n.key.flags.allDst;
      assert InRange(o, m.key);
    }
  }

  lemma SameGroup(k: Key, m: Key)
    requires TreeCompareWild(k, m) == 0
    ensures k.nsrc == m.nsrc && k.nport == m.nport && k.proto == m.proto
  {
    TreeGroupOrder(k, m);
  }

  lemma LinkedStatic(o: map<Pool, Owners>, entries: set<Nat>, n: Nat)
    requires Linked(o, entries, {}) && PoolOf(n.key) in o && n.key.flags.allDst && !InRange(o, n.key)
    ensures Linked(o, entries + {n}, {})
  {
    forall b, p | b in o && p in o[b] && o[b][p].Live? ensures exists m :: m in entries + {n} && Uses(m, b, p) {
      var m :| m in entries && Uses(m, b, p);
      assert m in entries + {n};
    }
  }

  lemma LinkedPool(o: map<Pool, Owners>, o': map<Pool, Owners>, entries: set<Nat>, a: Pool)
    requires Linked(o, entries, {}) && a !in o && a in o' && o' == o[a := o'[a]] && forall p <- o'[a] :: o'[a][p].Free?
    ensures Linked(o', entries, {})
  {
    forall n | n in entries ensures InRange(o', n.key) <==> InRange(o, n.key) {
    }
  }

  /** No live port is touched, and none becomes live */
  ghost predicate Returned(o: Owners, o': Owners, t: int) {
    o'.Keys == o.Keys && forall p <- o :: o'[p] == o[p] || (o'[p].Free? && (o[p] == Reserved(t) || o[p].Held?))
  }

  lemma FreedReturned(o: Owners, o': Owners, now: int)
    requires FreedOnly(o, o', now)
    ensures Returned(o, o', -1)
  {
  }

  lemma LinkedSame(o: map<Pool, Owners>, o': map<Pool, Owners>, entries: set<Nat>, t: int)
    requires Linked(o, entries, {}) && o'.Keys == o.Keys && forall a <- o :: Returned(o[a], o'[a], t)
    ensures Linked(o', entries, {})
  {
    forall n | n in entries ensures InRange(o', n.key) <==> InRange(o, n.key) {
      assert Returned(o[PoolOf(n.key)], o'[PoolOf(n.key)], t);
    }
    forall b, p | b in o' && p in o'[b] && o'[b][p].Live? ensures exists m :: m in entries && Uses(m, b, p) {
      assert Returned(o[b], o'[b], t);
    }
  }

  lemma SameWildcard(k: Key, k': Key)
    requires k.flags.allDst && k'.flags.allDst && k.flags.prrNull == k'.flags.prrNull
    requires PoolOf(k) == PoolOf(k') && k.proto == k'.proto && k.nport == k'.nport
    ensures TreeRank(k) == TreeRank(k')
  {
  }

  lemma SamePort(p: Pair, q: Pair)
    requires p.Value() == q.Value()
    ensures p == q
  {
  }

  /** A port drawn just now is used by no entry, so only the splay tree can know an equal one */
  lemma NoEqualPort(o: map<Pool, Owners>, entries: set<Nat>, n: Nat, a: Pool, port: int)
    requires Linked(o, entries, {(a, port)}) && Uses(n, a, port) && Admissible(n.key)
    requires forall m <- entries :: Admissible(m.key)
    ensures forall m <- entries :: TreeRank(m.key) != TreeRank(n.key)
  {
    hide TreeRank;
    forall m | m in entries ensures TreeRank(m.key) != TreeRank(n.key) {
      TreeOrder(m.key, n.key);
      TreeGroupOrder(m.key, n.key);
      assert (PoolOf(m.key), m.key.nport.Value()) !in {(a, port)};
    }
  }

  lemma LinkedBound(o: map<Pool, Owners>, entries: set<Nat>, n: Nat, a: Pool, port: int)
    requires Linked(o, entries, {(a, port)}) && a in o && port in o[a] && o[a][port].Live? && Uses(n, a, port)
    requires !n.key.flags.allDst
    ensures Linked(o, entries + {n}, {})
  {
    var all := entries + {n};
    forall x, y | x in all && y in all && InRange(o, x.key) && SameSource(x.key, y.key) ensures x == y {
      assert x in entries ==> (PoolOf(x.key), x.key.nport.Value()) !in {(a, port)};
      assert y in entries ==> (PoolOf(y.key), y.key.nport.Value()) !in {(a, port)};
    }
    forall b, p | b in o && p in o[b] && o[b][p].Live? ensures exists m :: m in all && Uses(m, b, p) {
      if (b, p) == (a, port) {
        assert n in all && Uses(n, b, p);
      } else {
        var m :| m in entries && Uses(m, b, p);
        assert m in all;
      }
    }
  }

  lemma LinkedReleased(o: map<Pool, Owners>, o': map<Pool, Owners>, entries: set<Nat>, a: Pool, port: int)
    requires Linked(o, entries, {(a, port)}) && a in o && a in o' && port in o[a] && port in o'[a]
    requires o'[a][port].Held? && o' == o[a := o[a][port := o'[a][port]]]
    ensures Linked(o', entries, {})
  {
    forall n | n in entries ensures InRange(o', n.key) <==> InRange(o, n.key) {
    }
    forall b, p | b in o' && p in o'[b] && o'[b][p].Live? ensures exists m :: m in entries && Uses(m, b, p) {
      assert o[b][p].Live? && (b, p) !in {(a, port)};
    }
  }

  lemma LinkedAllotted(o: map<Pool, Owners>, o': map<Pool, Owners>, entries: set<Nat>, a: Pool, port: int, t: int)
    requires Linked(o, entries, {}) && a in o && a in o' && o' == o[a := o'[a]] && Allotted(o[a], o'[a], t, true, port)
    ensures Linked(o', entries, {(a, port)})
  {
    forall n | n in entries ensures (PoolOf(n.key), n.key.nport.Value()) != (a, port) {
      assert InRange(o, n.key) <==> InRange(o', n.key);
    }
    forall b, p | b in o' && p in o'[b] && o'[b][p].Live? && (b, p) != (a, port)
      ensures exists n :: n in entries && Uses(n, b, p)
    {
      assert o[b][p].Live?;
    }
  }
}
