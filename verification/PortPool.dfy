/**
  The port ranges of all source order and protocols, and the buckets of the
  tunnels that draw from them.
 */
module PortPool {
  import opened NatEntry
  import opened PortRange

  ghost function BitmapsOf(ranges: map<Pool, Range>): set<array<bv8>> {
    set a | a in ranges :: ranges[a].freebm
  }

  /** Each pool is listed once, and no two share a range or a bitmap */
  ghost predicate PooledAs(order: seq<Pool>, ranges: map<Pool, Range>) {
    && (forall a, b | a in ranges && b in ranges && a != b ::
      ranges[a] != ranges[b] && ranges[a].freebm != ranges[b].freebm)
    && (forall i, j | 0 <= i < j < |order| :: order[i] != order[j])
    && (forall a <- order :: a in ranges) && (forall a <- ranges :: a in order)
  }

  lemma MorePooled(order: seq<Pool>, ranges: map<Pool, Range>, a: Pool, r: Range)
    requires PooledAs(order, ranges) && a !in ranges
    requires forall b <- ranges :: ranges[b] != r && ranges[b].freebm != r.freebm
    ensures PooledAs(order + [a], ranges[a := r])
  {
  }

  class Ports {
    /** pools[], by address and protocol, and the order free_heldnats visits them in */
    var order: seq<Pool>
    var ranges: map<Pool, Range>
    /** pools[t->srcidx] and t->bucket[] of every tunnel, by slot */
    var source: map<int, Pool>
    var buckets: map<int, Bucket>

    ghost function Bitmaps(): set<array<bv8>>
      reads this`ranges
    {
      BitmapsOf(ranges)
    }

    /** The pools are distinct, and so is all they own */
    ghost predicate Pooled()
      reads this`order, this`ranges
    {
      PooledAs(order, ranges)
    }

    ghost predicate Sourced()
      reads this`ranges, this`source, this`buckets
    {
      && (forall t, u | t in buckets && u in buckets && t != u :: buckets[t] != buckets[u])
      && buckets.Keys == source.Keys && forall t <- source :: source[t] in ranges
    }

    ghost predicate Apart()
      reads this`order, this`ranges, this`source, this`buckets
    {
      Pooled() && Sourced()
    }

    ghost predicate RangesOk()
      reads this`ranges, ranges.Values, Bitmaps()
    {
      forall a <- ranges :: ranges[a].Valid()
    }

    ghost function Owners(): map<Pool, Owners>
      reads this`ranges, ranges.Values
    {
      map a | a in ranges :: ranges[a].owner
    }

    /** A tunnel's bucket lists its ports of its own source address, and it has no others */
    ghost predicate BucketOk(o: map<Pool, Owners>, t: int)
      requires t in buckets && t in source
      reads this`source, this`buckets, buckets[t]
    {
      && source[t] in o && buckets[t].Lists(o[source[t]], t)
      && forall a, p | a in o && a != source[t] && p in o[a] :: o[a][p] != Reserved(t)
    }

    ghost predicate BucketsOk(o: map<Pool, Owners>)
      reads this`source, this`buckets, buckets.Values
    {
      && buckets.Keys == source.Keys && (forall t <- buckets :: BucketOk(o, t))
      && forall a, p | a in o && p in o[a] && o[a][p].Reserved? :: o[a][p].tunnel in buckets
    }

    ghost predicate Valid()
      reads this, ranges.Values, Bitmaps(), buckets.Values
    {
      Apart() && RangesOk() && BucketsOk(Owners())
    }

    constructor ()
      ensures Valid() && order == [] && ranges == map[] && source == map[] && buckets == map[]
    {
      order, ranges, source, buckets := [], map[], map[], map[];
    }

    /** The part of add_pool about one protocol */
    method AddPool(a: Pool, minport: nat, maxport: nat)
      requires Valid() && a !in ranges && minport <= maxport <= 65535
      modifies this`order, this`ranges
      ensures Valid() && a in ranges && fresh(ranges[a]) && fresh(ranges[a].freebm)
      ensures ranges == old(ranges)[a := ranges[a]] && Owners() == old(Owners())[a := ranges[a].owner]
      ensures ranges[a].minport == minport && ranges[a].maxport == maxport
      ensures forall p <- ranges[a].owner :: ranges[a].owner[p].Free?
    {
      hide Range.Valid, Bucket.Lists, BucketsOk, Apart;
      ghost var o := Owners();
      var r := new Range(minport, maxport);
      assert Owners() == o;
      Enlist(a, r);
      MoreFree(o, Owners(), a);
    }

    method Enlist(a: Pool, r: Range)
      requires Apart() && RangesOk() && BucketsOk(Owners()) && a !in ranges && r.Valid()
      requires forall b <- ranges :: ranges[b] != r && ranges[b].freebm != r.freebm
      modifies this`order, this`ranges
      ensures Apart() && RangesOk() && BucketsOk(old(Owners())) && ranges == old(ranges)[a := r]
      ensures Owners() == old(Owners())[a := r.owner]
    {
      hide Range.Valid, Bucket.Lists, BucketsOk, PooledAs;
      MorePooled(order, ranges, a, r);
      order := order + [a];
      ranges := ranges[a := r];
    }

    lemma MoreFree(o: map<Pool, Owners>, o': map<Pool, Owners>, a: Pool)
      requires BucketsOk(o) && a !in o && a in o' && o' == o[a := o'[a]] && forall p <- o'[a] :: o'[a][p].Free?
      ensures BucketsOk(o')
    {
      hide Bucket.Lists;
      forall u | u in buckets ensures BucketOk(o', u) {
        assert BucketOk(o, u);
      }
    }

    /** A slot of a new tunnel, which draws from one of the pools */
    method AddSlot(t: int, a: Pool)
      requires Valid() && t !in source && a in ranges
      modifies this`source, this`buckets
      ensures Valid() && source == old(source)[t := a] && Owners() == old(Owners())
      ensures t in buckets && fresh(buckets[t]) && buckets == old(buckets)[t := buckets[t]]
    {
      hide Range.Valid, Bucket.Lists, Pooled;
      ghost var o := Owners();
      var b := new Bucket();
      assert Owners() == o;
      EmptyLists(b, o[a], t);
      Open(t, a, b);
    }

    method Open(t: int, a: Pool, b: Bucket)
      requires Apart() && RangesOk() && BucketsOk(Owners()) && t !in source && a in ranges
      requires b.Lists(ranges[a].owner, t) && forall u <- buckets :: buckets[u] != b
      modifies this`source, this`buckets
      ensures Apart() && RangesOk() && BucketsOk(Owners()) && Owners() == old(Owners())
      ensures source == old(source)[t := a] && buckets == old(buckets)[t := b]
    {
      hide Range.Valid, Pooled, Bucket.Lists;
      ghost var o := Owners();
      source := source[t := a];
      buckets := buckets[t := b];
      forall u | u in buckets ensures BucketOk(o, u) {
        if u != t {
          assert old(BucketOk(Owners(), u));
        }
      }
      assert Owners() == o;
    }

    /** One range has changed hands as regards one tunnel, whose bucket has followed */
    lemma Settled(o: map<Pool, Owners>, o': map<Pool, Owners>, a: Pool, t: int)
      requires a in o && a in o' && o' == o[a := o'[a]] && o'[a].Keys == o[a].Keys
      requires forall p <- o[a] :: OwnerTouched(o[a][p], o'[a][p], t)
      requires buckets.Keys == source.Keys && (forall u <- buckets :: u != t ==> BucketOk(o, u))
      requires forall b, p | b in o && p in o[b] && o[b][p].Reserved? :: o[b][p].tunnel in buckets
      requires t in buckets ==> source[t] == a && buckets[t].Lists(o'[a], t)
      requires forall b, p | b in o && b != a && p in o[b] :: o[b][p] != Reserved(t)
      requires t !in buckets ==> forall p <- o'[a] :: o'[a][p] != Reserved(t)
      ensures BucketsOk(o')
    {
      hide Bucket.Lists;
      forall u | u in buckets ensures BucketOk(o', u) {
        if u != t {
          assert BucketOk(o, u);
          buckets[u].ListsSame(o[source[u]], o'[source[u]], u);
        }
      }
    }

    /** The port of a new entry: from the bucket, which is filled first when it is empty */
    method Allot(t: int, size: nat) returns (ok: bool, port: int, ghost draws: seq<int>)
      requires Valid() && t in buckets && 1 <= size <= 255
      modifies ranges[source[t]], ranges[source[t]].freebm, buckets[t]
      ensures Valid() && Owners() == old(Owners())[source[t] := ranges[source[t]].owner]
      ensures Allotted(old(ranges[source[t]].owner), ranges[source[t]].owner, t, ok, port)
      ensures !ok ==> Owners() == old(Owners())
      ensures Obtained(old(ranges[source[t]].owner), t, draws, ok)
    {
      hide Range.Valid, Bucket.Lists;
      ghost var o := Owners();
      assert BucketOk(o, t) && ranges[source[t]].Valid();
      ok, port, draws := Draw(ranges[source[t]], buckets[t], t, size);
      Settled(o, Owners(), source[t], t);
    }

    /** Reservations have stayed as they were */
    lemma Unreserved(o: map<Pool, Owners>, o': map<Pool, Owners>)
      requires BucketsOk(o) && o'.Keys == o.Keys && forall a <- o :: o'[a].Keys == o[a].Keys
      requires forall a, p | a in o && p in o[a] :: o'[a][p] == o[a][p] || (!o[a][p].Reserved? && !o'[a][p].Reserved?)
      ensures BucketsOk(o')
    {
      hide Bucket.Lists;
      forall u | u in buckets ensures BucketOk(o', u) {
        assert BucketOk(o, u);
        buckets[u].ListsSame(o[source[u]], o'[source[u]], u);
      }
    }

    /** The port of a live entry that goes is put on hold */
    method Release(a: Pool, port: int, until: int)
      requires Valid() && a in ranges && port in ranges[a].owner && ranges[a].owner[port].Live?
      modifies ranges[a]
      ensures Valid() && ranges[a].owner == old(ranges[a].owner)[port := OnHold(old(ranges[a].owner), until)]
      ensures forall b <- ranges :: b != a ==> ranges[b].owner == old(ranges[b].owner)
    {
      hide Range.Valid, Bucket.Lists, NextTurn;
      assert ranges[a].Valid();
      ghost var o := Owners();
      ranges[a].Hold(port, until);
      Unreserved(o, Owners());
    }

    /** The part of del_tunnel about its bucket; then the tunnel is gone */
    method RemoveSlot(t: int)
      requires Valid() && t in buckets
      modifies this`source, this`buckets, ranges[source[t]], ranges[source[t]].freebm, buckets[t]
      ensures Valid() && source == old(source) - {t} && buckets == old(buckets) - {t}
      ensures ranges == old(ranges) && forall b <- ranges :: ReturnedOnly(old(ranges[b].owner), ranges[b].owner, t)
    {
      hide Range.Valid, Bucket.Lists;
      EmptyBucket(t);
      DropSlot(t);
    }

    method EmptyBucket(t: int)
      requires Valid() && t in buckets
      modifies ranges[source[t]], ranges[source[t]].freebm, buckets[t]
      ensures Valid() && buckets[t].ports == []
      ensures forall b <- ranges :: ReturnedOnly(old(ranges[b].owner), ranges[b].owner, t)
    {
      hide Range.Valid, Bucket.Lists;
      ghost var o := Owners();
      assert BucketOk(o, t) && ranges[source[t]].Valid();
      ranges[source[t]].ReturnBucket(t, buckets[t]);
      NoBucket(buckets[t], ranges[source[t]].owner, t);
      Settled(o, Owners(), source[t], t);
      forall b | b in ranges ensures ReturnedOnly(o[b], ranges[b].owner, t) {
        if b != source[t] {
          assert ranges[b].owner == o[b] && forall p <- o[b] :: o[b][p] != Reserved(t);
        }
      }
    }

    method DropSlot(t: int)
      requires Valid() && t in buckets && buckets[t].ports == []
      modifies this`source, this`buckets
      ensures Valid() && source == old(source) - {t} && buckets == old(buckets) - {t}
    {
      hide Range.Valid, Bucket.Lists;
      ghost var o := Owners();
      assert BucketOk(o, t);
      NoBucket(buckets[t], ranges[source[t]].owner, t);
      source := source - {t};
      buckets := buckets - {t};
      forall u | u in buckets ensures BucketOk(o, u) {
        assert old(BucketOk(o, u));
      }
      assert Owners() == o;
    }

    lemma Visited(i: nat)
      requires Apart() && i < |order|
      ensures order[i] in ranges && order[i] !in order[..i]
    {
    }

    lemma AllVisited()
      requires Apart()
      ensures forall a <- ranges :: a in order[..|order|]
    {
    }

    lemma FreedKeeps(o: map<Pool, Owners>, o': map<Pool, Owners>, now: int)
      requires BucketsOk(o) && o'.Keys == o.Keys && forall a <- o :: FreedOnly(o[a], o'[a], now)
      ensures BucketsOk(o')
    {
      Unreserved(o, o');
    }

    method FreeRange(a: Pool, now: int)
      requires Apart() && RangesOk() && a in ranges
      modifies ranges[a], ranges[a].freebm
      ensures Apart() && RangesOk()
      ensures FreedOnly(old(ranges[a].owner), ranges[a].owner, now)
      ensures (ranges[a].helds != [] ==> ranges[a].helds[0].timeout > now)
      ensures forall b <- ranges ::
        b != a ==> ranges[b].owner == old(ranges[b].owner) && ranges[b].helds == old(ranges[b].helds)
    {
      hide Range.Valid, FreedOnly;
      assert ranges[a].Valid();
      ranges[a].FreeHelds(now);
      forall b | b in ranges ensures ranges[b].Valid() {
        assert b != a ==> old(ranges[b].Valid());
      }
    }

    /** free_heldnats, pool after pool */
    method FreeHelds(now: int)
      requires Valid()
      modifies ranges.Values, Bitmaps()
      ensures Valid()
      ensures forall a <- ranges :: FreedOnly(old(ranges[a].owner), ranges[a].owner, now)
      ensures forall a <- ranges :: ranges[a].helds != [] ==> ranges[a].helds[0].timeout > now
    {
      hide Range.Valid, Bucket.Lists, FreedOnly, Apart, RangesOk, BucketsOk;
      ghost var o := Owners();
      var i := 0;
      while i < |order|
        invariant i <= |order| && Apart() && RangesOk()
        invariant forall a <- ranges :: a !in order[..i] ==> ranges[a].owner == old(ranges[a].owner)
        invariant forall a <- ranges :: a in order[..i] ==> FreedOnly(old(ranges[a].owner), ranges[a].owner, now)
        invariant forall a <- ranges :: a in order[..i] && ranges[a].helds != [] ==> ranges[a].helds[0].timeout > now
      {
        Visited(i);
        FreeRange(order[i], now);
        i := i + 1;
      }
      AllVisited();
      FreedKeeps(o, Owners(), now);
    }
  }

  /** What the slot had reserved is free, nothing else has changed */
  ghost predicate ReturnedOnly(o: Owners, o': Owners, t: int) {
    o'.Keys == o.Keys && forall p <- o :: o'[p] == if o[p] == Reserved(t) then Free else o[p]
  }

  /** A port has not changed hands, or only to and from those without a tunnel and tunnel t */
  ghost predicate OwnerTouched(x: Owner, y: Owner, t: int) {
    x == y || ((x.Reserved? ==> x.tunnel == t) && (y.Reserved? ==> y.tunnel == t))
  }

  /** A port is to be had when one is in the bucket, or one of those drawn is free */
  ghost predicate Obtained(o: Owners, t: int, draws: seq<int>, ok: bool) {
    if Ready(o, t) then ok else Drawn(o, draws, ok)
  }

  method Draw(r: Range, b: Bucket, t: int, size: nat) returns (ok: bool, port: int, ghost draws: seq<int>)
    requires r.Valid() && b.Lists(r.owner, t) && 1 <= size <= 255
    modifies r, r.freebm, b
    ensures r.Valid() && b.Lists(r.owner, t) && Allotted(old(r.owner), r.owner, t, ok, port)
    ensures !ok ==> r.owner == old(r.owner)
    ensures Obtained(old(r.owner), t, draws, ok)
  {
    hide Range.Valid, Bucket.Lists, Drawn;
    NoBucket(b, r.owner, t);
    draws := [];
    if b.ports == [] {
      ghost var last;
      draws, last := r.FillBucket(t, b, size);
    }
    ok := b.present;
    port := 0;
    NoBucket(b, r.owner, t);
    ghost var o := r.owner;
    assert o.Keys == old(r.owner).Keys;
    if ok {
      port := r.Take(t, b);
      assert r.owner.Keys == o.Keys;
    } else {
      forall p | p in o ensures o[p] == old(r.owner)[p] {
      }
    }
  }

  /** The tunnel's bucket holds a port */
  ghost predicate Ready(o: Owners, t: int) { exists p :: p in o && o[p] == Reserved(t) }

  /** A port has become live, and the tunnel may have reserved more */
  ghost predicate Allotted(o: Owners, o': Owners, t: int, ok: bool, port: int) {
    && o'.Keys == o.Keys
    && (ok ==> port in o && o'[port] == Live && (o[port].Free? || o[port] == Reserved(t)))
    && forall p <- o' :: (ok && p == port) || o'[p] == o[p] || (o[p].Free? && o'[p] == Reserved(t))
  }

  lemma EmptyLists(b: Bucket, o: Owners, t: int)
    requires b.ports == [] && forall p <- o :: o[p] != Reserved(t)
    ensures b.Lists(o, t)
  {
  }

  lemma NoBucket(b: Bucket, o: Owners, t: int)
    requires b.Lists(o, t)
    ensures b.ports == [] <==> !Ready(o, t)
    ensures b.ports == [] ==> forall p <- o :: o[p] != Reserved(t)
    ensures !b.present ==> b.ports == []
  {
    if b.ports != [] {
      assert b.ports[0] in b.ports && o[b.ports[0]] == Reserved(t);
    }
  }
}
