/**
  Reloading the configuration: generations, the sliced collection of what a reload has
  not confirmed, and the sliced backtrack of a reload that failed.
 */
module Reload {
  import opened NatEntry
  import opened NatTable
  import opened Aftr
  import opened PortPool
  import opened Binding
  import opened Caches

  // ---------- Lists ----------

  ghost predicate Distinct(s: seq<Nat>) { forall i, j | 0 <= i < j < |s| :: s[i] != s[j] }

  /** What a reload that ended with generation last keeps: entries outside the configuration and confirmed ones */
  ghost predicate Keeps(n: Nat, last: nat)
    reads n`generation
  {
    n.generation < FIRST_GEN || n.generation >= last
  }

  /** The filter a collection in one go would be */
  ghost function Kept(s: seq<Nat>, last: nat): seq<Nat>
    reads s`generation
  {
    if s == [] then [] else Kept(s[..|s| - 1], last) + if Keeps(s[|s| - 1], last) then [s[|s| - 1]] else []
  }

  function Without(s: seq<Nat>, n: Nat): (r: seq<Nat>)
    ensures n !in r && forall m <- r :: m in s
  {
    if s == [] then [] else Without(s[..|s| - 1], n) + if s[|s| - 1] == n then [] else [s[|s| - 1]]
  }

  lemma {:induction false} KeptJoin(a: seq<Nat>, b: seq<Nat>, last: nat)
    ensures Kept(a + b, last) == Kept(a, last) + Kept(b, last)
  {
    if b == [] {
      assert a + b == a;
    } else {
      KeptJoin(a, b[..|b| - 1], last);
      assert (a + b)[..|a + b| - 1] == a + b[..|b| - 1];
    }
  }

  lemma {:induction false} KeptAll(s: seq<Nat>, last: nat)
    requires forall n <- s :: Keeps(n, last)
    ensures Kept(s, last) == s
  {
    if s != [] {
      KeptAll(s[..|s| - 1], last);
      assert s[|s| - 1] in s;
    }
  }

  lemma {:induction false} KeptWithout(s: seq<Nat>, n: Nat, last: nat)
    ensures Kept(Without(s, n), last) == Without(Kept(s, last), n)
  {
    if s != [] {
      var m, rest := s[|s| - 1], s[..|s| - 1];
      KeptWithout(rest, n, last);
      var x := if Keeps(m, last) then [m] else [];
      var y := if m == n then [] else [m];
      var both := if m == n then [] else x;
      WithoutJoin(Kept(rest, last), x, n);
      KeptJoin(Without(rest, n), y, last);
      Singles(m, n, last);
      assert Kept(y, last) == both && Without(x, n) == both;
    }
  }

  lemma Singles(m: Nat, n: Nat, last: nat)
    ensures Kept([m], last) == (if Keeps(m, last) then [m] else []) && Kept([], last) == []
    ensures Without([m], n) == (if m == n then [] else [m]) && Without([], n) == []
  {
    assert [m][..0] == [];
  }

  lemma WithoutEmpty(n: Nat)
    ensures Without([], n) == []
  {
  }

  lemma WithoutLast(s: seq<Nat>, n: Nat)
    requires s != []
    ensures Without(s, n) == Without(s[..|s| - 1], n) + if s[|s| - 1] == n then [] else [s[|s| - 1]]
  {
  }

  lemma {:induction false} WithoutJoin(a: seq<Nat>, b: seq<Nat>, n: Nat)
    ensures Without(a + b, n) == Without(a, n) + Without(b, n)
  {
    hide Without;
    if b == [] {
      assert a + b == a;
      WithoutEmpty(n);
    } else {
      WithoutJoin(a, b[..|b| - 1], n);
      assert (a + b)[..|a + b| - 1] == a + b[..|b| - 1];
      WithoutLast(b, n);
      WithoutLast(a + b, n);
    }
  }

  /** An entry of a list of distinct ones is cut out */
  lemma {:induction false} WithoutAt(s: seq<Nat>, i: nat)
    requires Distinct(s) && i < |s|
    ensures Without(s, s[i]) == s[..i] + s[i + 1..]
  {
    var m, rest := s[|s| - 1], s[..|s| - 1];
    if i == |s| - 1 {
      WithoutNone(rest, m);
      assert s[..i] + s[i + 1..] == rest;
    } else {
      WithoutAt(rest, i);
      assert s == rest + [m] && s[..i] == rest[..i] && s[i + 1..] == rest[i + 1..] + [m];
      assert s[..i] + s[i + 1..] == rest[..i] + rest[i + 1..] + [m];
    }
  }

  lemma {:induction false} WithoutNone(s: seq<Nat>, n: Nat)
    requires n !in s
    ensures Without(s, n) == s
  {
    if s != [] {
      WithoutNone(s[..|s| - 1], n);
    }
  }

  lemma WithoutDistinct(s: seq<Nat>, i: nat)
    requires Distinct(s) && i < |s|
    ensures Distinct(s[..i] + s[i + 1..]) && s[i] !in s[..i] + s[i + 1..]
  {
  }

  /** ISC_LIST_NEXT */
  function Next(s: seq<Nat>, n: Nat): Nat? {
    if s == [] then null else if s[0] == n then if |s| > 1 then s[1] else null else Next(s[1..], n)
  }

  lemma {:induction false} NextAt(s: seq<Nat>, i: nat)
    requires Distinct(s) && i < |s|
    ensures Next(s, s[i]) == if i + 1 < |s| then s[i + 1] else null
  {
    if i > 0 {
      NextAt(s[1..], i - 1);
    }
  }

  /** A cursor after the first done entries; before its first slice it is null */
  ghost function CursorAt(s: seq<Nat>, done: nat, need: nat): Nat?
    requires done <= |s|
  {
    if need == 2 || done == |s| then null else s[done]
  }

  /** Where cursor and count are when entry i has gone */
  lemma Stepped(s: seq<Nat>, i: nat, done: nat, need: nat)
    requires Distinct(s) && i < |s| && done <= |s| && (need == 2 ==> done == 0)
    ensures var ptr, rest, done' := CursorAt(s, done, need), Without(s, s[i]), if i < done then done - 1 else done;
      && done' <= |rest| && (need == 2 ==> done' == 0)
      && CursorAt(rest, done', need) == (if ptr == s[i] then Next(s, s[i]) else ptr)
      && forall j | 0 <= j < done' :: rest[j] in s[..done]
  {
    NextAt(s, i);
    WithoutAt(s, i);
    var rest, done' := Without(s, s[i]), if i < done then done - 1 else done;
    forall j | 0 <= j < done' ensures rest[j] in s[..done] {
      assert rest[j] == s[if j < i then j else j + 1];
    }
  }

  /** The cursor stands after the first done entries */
  ghost predicate Stands(s: seq<Nat>, done: nat, ptr: Nat?, need: nat) {
    done <= |s| && need <= 2 && (need == 2 ==> done == 0) && ptr == CursorAt(s, done, need)
  }

  ghost predicate Collects(s: seq<Nat>, done: nat, ptr: Nat?, need: nat, last: nat, goal: seq<Nat>)
    reads s`generation
  {
    Stands(s, done, ptr, need) && (forall n <- s[..done] :: Keeps(n, last)) && Kept(s, last) == goal
  }

  ghost predicate Backs(s: seq<Nat>, done: nat, ptr: Nat?, need: nat, last: nat)
    reads s`generation
  {
    Stands(s, done, ptr, need) && forall n <- s[..done] :: n.generation <= last
  }

  lemma BacksNext(s: seq<Nat>, done: nat, last: nat)
    requires done < |s| && (forall n <- s[..done] :: n.generation <= last) && s[done].generation <= last
    ensures Backs(s, done + 1, CursorAt(s, done + 1, 1), 1, last)
  {
    assert s[..done + 1] == s[..done] + [s[done]];
  }

  ghost function DoneWithout(done: nat, i: nat): nat { if i < done then done - 1 else done }

  lemma CollectsWithout(s: seq<Nat>, done: nat, ptr: Nat?, need: nat, last: nat, goal: seq<Nat>, i: nat)
    requires Distinct(s) && i < |s| && Collects(s, done, ptr, need, last, goal)
    ensures Collects(Without(s, s[i]), DoneWithout(done, i), if ptr == s[i] then Next(s, s[i]) else ptr,
                     need, last, Without(goal, s[i]))
  {
    hide Kept, CursorAt;
    Stepped(s, i, done, need);
    KeptWithout(s, s[i], last);
  }

  lemma GoalWithout(s: seq<Nat>, done: nat, ptr: Nat?, need: nat, last: nat, goal: seq<Nat>, n: Nat)
    requires Collects(s, done, ptr, need, last, goal) && n !in s
    ensures Without(goal, n) == goal
  {
    KeptMembers(s, last);
    WithoutNone(goal, n);
  }

  lemma GoalListed(s: seq<Nat>, done: nat, ptr: Nat?, need: nat, last: nat, goal: seq<Nat>)
    requires Collects(s, done, ptr, need, last, goal)
    ensures forall n <- goal :: n in s
  {
    KeptMembers(s, last);
  }

  lemma BacksWithout(s: seq<Nat>, done: nat, ptr: Nat?, need: nat, last: nat, i: nat)
    requires Distinct(s) && i < |s| && Backs(s, done, ptr, need, last)
    ensures Backs(Without(s, s[i]), DoneWithout(done, i), if ptr == s[i] then Next(s, s[i]) else ptr, need, last)
  {
    hide CursorAt;
    Stepped(s, i, done, need);
  }

  function Flat(lists: seq<seq<Nat>>): seq<Nat> {
    if lists == [] then [] else lists[0] + Flat(lists[1..])
  }

  /** An entry is taken off whichever of the lists it is on */
  function EachWithout(lists: seq<seq<Nat>>, n: Nat): (r: seq<seq<Nat>>)
    ensures |r| == |lists|
  {
    if lists == [] then [] else [Without(lists[0], n)] + EachWithout(lists[1..], n)
  }

  lemma {:induction false} FlatWithout(lists: seq<seq<Nat>>, n: Nat)
    ensures Flat(EachWithout(lists, n)) == Without(Flat(lists), n)
  {
    if lists != [] {
      FlatWithout(lists[1..], n);
      WithoutJoin(lists[0], Flat(lists[1..]), n);
      assert EachWithout(lists, n)[1..] == EachWithout(lists[1..], n);
    }
  }

  lemma MoreOrphans(list: seq<Nat>, lists: seq<seq<Nat>>)
    requires Distinct(list) && Distinct(Flat(lists)) && forall n <- list :: n !in Flat(lists)
    ensures Distinct(Flat([list] + lists)) && Flat([list] + lists) == list + Flat(lists)
  {
    assert ([list] + lists)[1..] == lists;
    var s, rest := list + Flat(lists), Flat(lists);
    forall i, j | 0 <= i < j < |s| ensures s[i] != s[j] {
      assert i >= |list| ==> rest[i - |list|] != rest[j - |list|];
      assert i < |list| <= j ==> rest[j - |list|] in rest;
    }
  }

  ghost predicate Outside(list: seq<Nat>, entries: set<Nat>)
    reads entries`generation
  {
    forall n <- entries :: n in list || n.generation <= FIRST_GEN
  }

  lemma {:induction false} OthersStay(s: seq<Nat>, n: Nat)
    ensures forall m <- s :: m == n || m in Without(s, n)
  {
    if s != [] {
      OthersStay(s[..|s| - 1], n);
      assert s == s[..|s| - 1] + [s[|s| - 1]];
    }
  }

  /** What a list still holds when a tunnel has gone */
  ghost function OtherTunnels(s: seq<Nat>, tunnel: int): seq<Nat> {
    if s == [] then [] else
      OtherTunnels(s[..|s| - 1], tunnel) + if s[|s| - 1].key.tunnel == tunnel then [] else [s[|s| - 1]]
  }

  lemma {:induction false} OtherTunnelsLess(s: seq<Nat>, tunnel: int, n: Nat)
    requires n.key.tunnel == tunnel
    ensures OtherTunnels(Without(s, n), tunnel) == OtherTunnels(s, tunnel)
  {
    if s != [] {
      var m, rest := s[|s| - 1], s[..|s| - 1];
      OtherTunnelsLess(rest, tunnel, n);
      if m == n {
        assert Without(s, n) == Without(rest, n);
      } else {
        var r := Without(s, n);
        assert r == Without(rest, n) + [m] && r[..|r| - 1] == Without(rest, n) && r[|r| - 1] == m;
      }
    }
  }

  lemma {:induction false} AllOther(s: seq<Nat>, tunnel: int)
    requires forall n <- s :: n.key.tunnel != tunnel
    ensures OtherTunnels(s, tunnel) == s
  {
    if s != [] {
      AllOther(s[..|s| - 1], tunnel);
      assert s[|s| - 1] in s;
    }
  }

  lemma {:induction false} WithoutLess(s: seq<Nat>, n: Nat)
    ensures |Without(s, n)| <= |s| && (n in s ==> |Without(s, n)| < |s|)
  {
    if s != [] {
      WithoutLess(s[..|s| - 1], n);
    }
  }

  lemma OutsideLess(list: seq<Nat>, entries: set<Nat>, n: Nat)
    requires Outside(list, entries)
    ensures Outside(Without(list, n), entries - {n})
  {
    OthersStay(list, n);
  }

  lemma Confirmed(list: seq<Nat>, n: Nat)
    requires Distinct(list)
    ensures Distinct([n] + Without(list, n)) && (forall m <- [n] + Without(list, n) :: m == n || m in list)
    ensures n in [n] + Without(list, n) && forall m <- list :: m in [n] + Without(list, n)
  {
    ListWithout(list, n);
    OthersStay(list, n);
  }

  lemma OutsideWithout(list: seq<Nat>, entries: set<Nat>, n: Nat)
    requires Outside(list, entries)
    ensures Outside(list, entries - {n})
  {
  }

  // ---------- The collector ----------

  class Collector {
    const v: Nats
    /** The entries of the configuration, and the lists of sessions that have ended */
    var confnats: seq<Nat>
    var orphans: seq<seq<Nat>>
    var gcPtr: Nat?
    var needgc: nat
    var btPtr: Nat?
    var needbt: nat
    var lastgen: nat
    var savedgen: nat
    var reloading: bool
    /** How far a collection or a backtrack has come, and what the collection is to leave */
    ghost var done: nat
    ghost var goal: seq<Nat>

    /** The lists share no entry, and all they hold is live */
    ghost predicate Lists()
      reads this`confnats, this`orphans, v.b.table`entries
    {
      && Distinct(confnats) && Distinct(Flat(orphans))
      && (forall n <- confnats :: n in v.b.table.entries && n !in Flat(orphans))
      && forall n <- Flat(orphans) :: n in v.b.table.entries
    }

    /** What no configuration listed has the generation of a session, or is about to be collected */
    ghost predicate Outer()
      reads this`confnats, v.b.table`entries, v.b.table.entries`generation
    {
      Outside(confnats, v.b.table.entries)
    }

    /** A collection started by a reload has kept what it has passed, and is to leave goal */
    ghost predicate Collecting()
      reads this`needgc, this`needbt, this`confnats, this`done, this`gcPtr, this`lastgen, this`goal, confnats`generation
    {
      needgc > 0 && needbt == 0 && Collects(confnats, done, gcPtr, needgc, lastgen, goal)
    }

    /** A backtrack has lowered the generations it has passed */
    ghost predicate Backing()
      reads this`needbt, this`confnats, this`done, this`btPtr, this`lastgen, confnats`generation
    {
      needbt > 0 && Backs(confnats, done, btPtr, needbt, lastgen)
    }

    /** What is going on between two calls: nothing, a collection or a backtrack started by a reload, the deletion of
        what an ended session has left, or a reload, which waits for the end of the others */
    ghost predicate Phase()
      reads this`needgc, this`needbt, this`confnats, this`done, this`gcPtr, this`btPtr, this`lastgen, this`savedgen
      reads this`goal, this`reloading, confnats`generation
    {
      && lastgen >= FIRST_GEN
      && (needgc == 0 || Collecting() || Idle()) && (needbt == 0 || Backing())
      && (reloading ==> savedgen >= FIRST_GEN && needbt == 0 && (needgc == 0 || Idle()))
    }

    /** Only the lists of ended sessions are to be emptied */
    ghost predicate Idle()
      reads this`needgc, this`gcPtr
    {
      needgc == 1 && gcPtr == null
    }

    /** The lists hold static entries, and those never time out */
    ghost predicate Static()
      reads this`confnats, this`orphans, v.b.table`entries, v.b.table.entries`timeout
    {
      && (forall n <- confnats :: n.key.flags.allDst) && (forall n <- Flat(orphans) :: n.key.flags.allDst)
      && forall n <- v.b.table.entries :: n.key.flags.allDst ==> n.timeout == 0
    }

    ghost predicate Settled()
      reads this, v.b.table, v.b.ports, v.b.table.entries`generation, v.b.table.entries`timeout, confnats`generation
    {
      Apart() && Lists() && Outer() && Static() && Phase()
    }

    ghost predicate SameRegion(region: set<object>, heap: array<Nat?>, slots: array<Nat?>)
      reads v.b.table, v.b.ports, v.heap, v.cache
    {
      v.b.Region() == region && v.heap.heap == heap && v.cache.slots == slots
    }

    /** No entry's generation has changed */
    ghost predicate SameGenerations(g: map<Nat, nat>)
      reads v.b.table, v.b.table.entries
    {
      forall n <- v.b.table.entries :: n in g && n.generation == g[n]
    }

    ghost function Generations(): map<Nat, nat>
      reads v.b.table, v.b.table.entries
    {
      map n | n in v.b.table.entries :: n.generation
    }

    ghost predicate Apart()
      reads v.b.table, v.b.ports
    {
      (this as object) !in v.b.Region()
    }

    constructor (v: Nats)
      requires v.Valid()
      ensures this.v == v && confnats == [] && orphans == [] && needgc == 0 && needbt == 0 && lastgen == FIRST_GEN
      ensures !reloading
      ensures (forall n <- v.b.table.entries ::
                n.generation <= FIRST_GEN && (n.key.flags.allDst ==> n.timeout == 0)) ==> Settled()
    {
      hide Nats.Valid, Bindings.Region;
      v.b.Older();
      this.v := v;
      confnats, orphans, gcPtr, needgc, btPtr, needbt := [], [], null, 0, null, 0;
      lastgen, savedgen, reloading, done, goal := FIRST_GEN, FIRST_GEN, false, 0, [];
    }

    /** cmd_reload and the start of reload_conf: refused while the last reload is not settled */
    method StartReload() returns (ok: bool)
      modifies this`lastgen, this`savedgen, this`reloading
      ensures ok <==> !old(reloading) && needgc == 0 && needbt == 0
      ensures old(Phase()) ==> Phase()
      ensures ok ==> reloading && savedgen == old(lastgen) && lastgen == old(lastgen) + 1
      ensures !ok ==> lastgen == old(lastgen) && savedgen == old(savedgen) && reloading == old(reloading)
    {
      if reloading || needgc != 0 || needbt != 0 {
        return false;
      }
      savedgen := lastgen;
      lastgen := lastgen + 1;
      reloading := true;
      ok := true;
    }

    /** An entry that the configuration being read declares: reload_snat or reload_prr on one that is there */
    method Confirm(n: Nat)
      requires v.Valid() && Settled() && reloading && n in v.b.table.entries && n.key.flags.allDst
      modifies this`confnats, this`orphans, n`generation
      ensures v.Valid() && Settled() && n in confnats && n.generation == lastgen
      ensures old(v.Cached()) ==> v.Cached()
      ensures confnats == if old(n.generation) > FIRST_GEN then old(confnats) else [n] + Without(old(confnats), n)
      ensures Flat(orphans) == Without(old(Flat(orphans)), n)
      ensures v.b.ports.Owners() == old(v.b.ports.Owners())
    {
      hide Nats.Valid, Nats.Cached, Distinct, Without, Flat, Kept, RegionOf;
      v.b.NatsOutside(v.b.table.entries);
      v.b.Older();
      ToHead(n);
      v.NoteGeneration(n, lastgen);
    }

    /** An entry without a generation of the configuration moves to the head of its list */
    method ToHead(n: Nat)
      requires Lists() && Outer() && Static() && n in v.b.table.entries && n.key.flags.allDst
      modifies this`confnats, this`orphans
      ensures Lists() && Outer() && Static() && n in confnats
      ensures confnats == if n.generation > FIRST_GEN then old(confnats) else [n] + Without(old(confnats), n)
      ensures Flat(orphans) == Without(old(Flat(orphans)), n)
    {
      hide Distinct, Without, Flat;
      FlatWithout(orphans, n);
      if n.generation <= FIRST_GEN {
        Confirmed(confnats, n);
        ListWithout(Flat(orphans), n);
        confnats := [n] + Without(confnats, n);
        orphans := EachWithout(orphans, n);
      } else {
        WithoutNone(Flat(orphans), n);
      }
    }

    /** add_snat0 or add_prr: in a configuration that is being read the new entry comes to the head of its list */
    method AddStatic(k: Key, addr: Quad, configured: bool, session: nat) returns (n: Nat?)
      requires v.Valid() && v.Cached() && Settled() && Admissible(k) && k.flags.allDst
      requires (!k.flags.prrNull ==> addr == k.nsrc) && (PoolOf(k) in v.b.ports.ranges ==> v.Housed(k.tunnel, addr))
      requires session < FIRST_GEN && (configured ==> reloading)
      modifies this`confnats, v`counters, v.b.Region()
      modifies v.b.table.entries`left, v.b.table.entries`right, v.b.table.entries`parent, v.b.table.entries`red
      modifies v.b.table.entries`tleft, v.b.table.entries`tright
      ensures v.Valid() && v.Cached() && Settled() && v.b.ports.Owners() == old(v.b.ports.Owners())
      ensures n != null <==>
              && PoolOf(k) in v.b.ports.ranges && !InRange(v.b.ports.Owners(), k)
              && (forall m <- OfIndex(old(v.b.table.entries), Index(k.proto)) :: TreeRank(m.key) != TreeRank(k))
              && (forall m <- Of(old(v.b.table.entries), SlotOf(k)) :: SplayRank(m.key) != SplayRank(k))
      ensures v.b.table.entries == if n == null then old(v.b.table.entries) else old(v.b.table.entries) + {n}
      ensures n != null ==> fresh(n) && n.key == k && n.generation == if configured then lastgen else session
      ensures confnats == if n != null && configured then [n] + old(confnats) else old(confnats)
      ensures v.b.ports.source == if PoolOf(k) in v.b.ports.ranges && !InRange(v.b.ports.Owners(), k)
        then WithTunnel(old(v.b.ports.source), k.tunnel, addr)
        else old(v.b.ports.source)
      ensures forall x <- v.b.Region() :: x in old(v.b.Region()) || fresh(x)
    {
      hide Nats.Valid, Nats.Cached, RegionOf, Admissible, SlotOf, TreeRank, SplayRank, Distinct, Flat, Phase, InRange,
        Of, OfIndex, Nats.Housed, WithTunnel, Ports.Owners;
      v.b.NatsOutside(v.b.table.entries);
      v.Outside();
      v.CacheOutside();
      v.b.Older();
      n := v.AddStatic(k, addr, if configured then lastgen else session);
      if n != null && configured {
        v.b.Older();
        Enlist(n);
      }
    }

    method Enlist(n: Nat)
      requires Apart() && Lists() && Static() && Phase() && reloading
      requires n in v.b.table.entries && n.key.flags.allDst && n !in confnats && n !in Flat(orphans)
      requires Outside(confnats, v.b.table.entries - {n})
      modifies this`confnats
      ensures Settled() && confnats == [n] + old(confnats)
    {
      confnats := [n] + confnats;
    }

    /** gc_session: what a session that ends has declared is about to be collected */
    method EndSession(list: seq<Nat>, generation: nat)
      requires v.Valid() && Settled() && Distinct(list)
      requires forall n <- list ::
        n in v.b.table.entries && n.key.flags.allDst && n !in confnats && n !in Flat(orphans)
      modifies this`orphans, this`needgc, this`gcPtr, list`generation
      ensures v.Valid() && Settled() && orphans == [list] + old(orphans)
      ensures old(v.Cached()) ==> v.Cached()
      ensures forall n <- list ::
        n.generation == if old(n.generation) == generation then FIRST_GEN else old(n.generation)
      ensures needgc == if old(needgc) == 0 then 1 else old(needgc)
      ensures v.b.ports.Owners() == old(v.b.ports.Owners())
    {
      hide Nats.Valid, Nats.Cached, Distinct, Flat, Collects, Backs, RegionOf;
      v.b.NatsOutside(v.b.table.entries);
      v.b.Older();
      Mark(list, generation);
      assert forall n <- confnats :: n !in list && n.generation == old(n.generation);
      assert Collecting() == old(Collecting()) && Backing() == old(Backing());
      assert Outer() && Phase();
      Orphan(list);
    }

    method Orphan(list: seq<Nat>)
      requires Settled() && Distinct(list)
      requires forall n <- list ::
        n in v.b.table.entries && n.key.flags.allDst && n !in confnats && n !in Flat(orphans)
      modifies this`orphans, this`needgc, this`gcPtr
      ensures Settled() && orphans == [list] + old(orphans)
      ensures needgc == if old(needgc) == 0 then 1 else old(needgc)
    {
      hide Distinct, Flat, Collects, Backs, RegionOf, Outside;
      MoreOrphans(list, orphans);
      orphans := [list] + orphans;
      if needgc == 0 {
        needgc, gcPtr := 1, null;
      }
    }

    method Mark(list: seq<Nat>, generation: nat)
      requires v.Valid() && Distinct(list) && forall n <- list :: n in v.b.table.entries
      modifies list`generation
      ensures v.Valid() && (old(v.Cached()) ==> v.Cached())
      ensures forall n <- list ::
        n.generation == if old(n.generation) == generation then FIRST_GEN else old(n.generation)
    {
      hide Nats.Valid, Nats.Cached, RegionOf;
      v.b.NatsOutside(v.b.table.entries);
      var i := 0;
      while i < |list|
        invariant i <= |list| && v.Valid() && (old(v.Cached()) ==> v.Cached())
        invariant forall j | 0 <= j < i ::
          list[j].generation == if old(list[j].generation) == generation then FIRST_GEN else old(list[j].generation)
        invariant forall j | i <= j < |list| :: list[j].generation == old(list[j].generation)
      {
        if list[i].generation == generation {
          v.NoteGeneration(list[i], FIRST_GEN);
        }
        i := i + 1;
      }
    }

    /** reload_finish: a reload that failed deletes nothing, it only takes generations back */
    method FinishReload(failed: bool)
      requires reloading && Phase()
      modifies this`reloading, this`lastgen, this`needgc, this`gcPtr, this`needbt, this`btPtr, this`done, this`goal
      ensures !reloading && Phase()
      ensures failed ==> lastgen == savedgen && needgc == old(needgc) && needbt == 2 && Backing()
      ensures !failed ==> lastgen == old(lastgen) && Collecting() && goal == Kept(confnats, lastgen)
    {
      reloading := false;
      done := 0;
      if failed {
        lastgen := savedgen;
        needbt, btPtr := 2, null;
      } else {
        goal := Kept(confnats, lastgen);
        needgc, gcPtr := 2, null;
      }
    }

    // ---------- One slice of the collection ----------

    /** The next entry is one to keep */
    method Skip()
      requires Distinct(confnats) && Collecting() && needgc == 1 && gcPtr != null && Keeps(gcPtr, lastgen)
      modifies this`gcPtr, this`done
      ensures Collecting() && needgc == 1 && done == old(done) + 1 && goal == old(goal)
    {
      NextAt(confnats, done);
      gcPtr := Next(confnats, gcPtr);
      done := done + 1;
    }

    /** The next entry has not been confirmed: it leaves the list and the NAT */
    method Drop(now: int)
      requires v.Valid() && v.Cached() && Apart() && Outer() && Lists() && Collecting() && needgc == 1 && gcPtr != null
      requires !Keeps(gcPtr, lastgen)
      modifies this`gcPtr, this`confnats, v`counters, v.b.Region(), v.heap, v.heap.heap
      modifies v.b.table.entries`left, v.b.table.entries`right, v.b.table.entries`parent, v.b.table.entries`red
      modifies v.b.table.entries`tleft, v.b.table.entries`tright, v.b.table.entries`heapIndex
      modifies v.cache.slots
      ensures v.Valid() && v.Cached() && Apart() && Outer() && Lists() && Collecting()
      ensures SameRegion(old(v.b.Region()), old(v.heap.heap), old(v.cache.slots)) && SameGenerations(old(Generations()))
      ensures confnats == Without(old(confnats), old(gcPtr))
      ensures v.b.table.entries == old(v.b.table.entries) - {old(gcPtr)}
      ensures |confnats| == |old(confnats)| - 1 && goal == old(goal) && old(gcPtr) in old(confnats)
      ensures Dropped(old(v.b.ports.Owners()), v.b.ports.Owners(), now + v.holdLifetime)
    {
      hide Nats.Valid, Nats.Cached, Outside, Collects, Keeps, Without, Distinct, Dropped, Ports.Owners;
      var n := gcPtr;
      CursorFacts();
      v.Outside();
      OutsideLess(confnats, v.b.table.entries, n);
      Unlink();
      DeleteListed(n, now);
    }

    method Unlink()
      requires Lists() && Collecting() && needgc == 1 && gcPtr != null && !Keeps(gcPtr, lastgen)
      modifies this`gcPtr, this`confnats
      ensures Collecting() && old(gcPtr) in v.b.table.entries && confnats == Without(old(confnats), old(gcPtr))
      ensures Lists() && old(gcPtr) !in confnats && old(gcPtr) !in Flat(orphans) && |confnats| == |old(confnats)| - 1
      ensures v.b.ports.Owners() == old(v.b.ports.Owners())
    {
      hide Kept, Without, Ports.Owners;
      var n := gcPtr;
      CollectsWithout(confnats, done, gcPtr, needgc, lastgen, goal, done);
      WithoutAt(confnats, done);
      ListWithout(confnats, n);
      NotKept(confnats, n, lastgen);
      gcPtr := Next(confnats, n);
      confnats := Without(confnats, n);
    }

    /** del_nat on an entry that is on none of the lists any more */
    method DeleteListed(n: Nat, now: int)
      requires v.Valid() && v.Cached() && Apart() && Lists() && n in v.b.table.entries && n !in confnats
      requires n !in Flat(orphans)
      modifies v`counters, v.b.Region(), v.heap, v.heap.heap, v.cache.slots
      modifies v.b.table.entries`left, v.b.table.entries`right, v.b.table.entries`parent, v.b.table.entries`red
      modifies v.b.table.entries`tleft, v.b.table.entries`tright, v.b.table.entries`heapIndex
      ensures v.Valid() && v.Cached() && Apart() && Lists()
      ensures SameRegion(old(v.b.Region()), old(v.heap.heap), old(v.cache.slots)) && SameGenerations(old(Generations()))
      ensures v.b.table.entries == old(v.b.table.entries) - {n} && (old(Collecting()) ==> Collecting())
      ensures (old(Backing()) ==> Backing())
      ensures old(Outside(confnats, v.b.table.entries - {n})) ==> Outer()
      ensures Dropped(old(v.b.ports.Owners()), v.b.ports.Owners(), now + v.holdLifetime)
    {
      hide Nats.Valid, Nats.Cached, Kept, RegionOf, Dropped;
      v.Outside();
      v.b.NatsOutside(v.b.table.entries);
      v.HeapWithin();
      v.DelNat(n, now);
    }

    /** An entry is deleted on some other account, while a collection or a backtrack may be under way */
    method Delete(n: Nat, now: int)
      requires v.Valid() && v.Cached() && Settled() && n in v.b.table.entries
      modifies this`gcPtr, this`btPtr, this`confnats, this`orphans, this`done, this`goal
      modifies v`counters, v.b.Region(), v.heap, v.heap.heap, v.cache.slots
      modifies v.b.table.entries`left, v.b.table.entries`right, v.b.table.entries`parent, v.b.table.entries`red
      modifies v.b.table.entries`tleft, v.b.table.entries`tright, v.b.table.entries`heapIndex
      ensures v.Valid() && v.Cached() && Settled()
      ensures SameRegion(old(v.b.Region()), old(v.heap.heap), old(v.cache.slots)) && SameGenerations(old(Generations()))
      ensures v.b.table.entries == old(v.b.table.entries) - {n}
      ensures confnats == Without(old(confnats), n) && Flat(orphans) == Without(old(Flat(orphans)), n)
      ensures old(Collecting()) ==> Collecting() && goal == Without(old(goal), n)
      ensures old(Backing()) ==> Backing()
      ensures Dropped(old(v.b.ports.Owners()), v.b.ports.Owners(), now + v.holdLifetime)
    {
      hide Nats.Valid, Nats.Cached, Outside, Collects, Backs, Keeps, Without, Flat, Distinct, Dropped, RegionOf;
      v.Outside();
      v.b.Older();
      v.b.NatsOutside(v.b.table.entries);
      OutsideLess(confnats, v.b.table.entries, n);
      Unlist(n);
      DeleteListed(n, now);
    }

    /** An entry that is about to go leaves the list it is on, if any */
    method Unlist(n: Nat)
      requires Lists() && Static() && Phase()
      modifies this`gcPtr, this`btPtr, this`confnats, this`orphans, this`done, this`goal
      ensures Lists() && Static() && Phase() && n !in confnats && n !in Flat(orphans)
      ensures confnats == Without(old(confnats), n) && Flat(orphans) == Without(old(Flat(orphans)), n)
      ensures old(Collecting()) ==> Collecting() && goal == Without(old(goal), n)
      ensures old(Backing()) ==> Backing()
    {
      hide Collects, Backs, Without, Flat, Distinct;
      FlatWithout(orphans, n);
      ListWithout(confnats, n);
      ListWithout(Flat(orphans), n);
      if n in confnats {
        WithoutNone(Flat(orphans), n);
        Unchain(n);
      } else {
        WithoutNone(confnats, n);
        if Collecting() {
          GoalWithout(confnats, done, gcPtr, needgc, lastgen, goal, n);
        }
      }
      orphans := EachWithout(orphans, n);
    }

    /** del_tunnel: its entries go, and each leaves the list it is on */
    method DelTunnel(tunnel: int, now: int)
      requires v.Valid() && v.Cached() && Settled() && forall i: nat | i < PRCNT :: Slot(tunnel, i) in v.b.ports.source
      modifies this`gcPtr, this`btPtr, this`confnats, this`orphans, this`done, this`goal
      modifies v`counters, v.b.Region(), v.heap, v.heap.heap, v.cache.slots
      modifies v.b.table.entries`left, v.b.table.entries`right, v.b.table.entries`parent, v.b.table.entries`red
      modifies v.b.table.entries`tleft, v.b.table.entries`tright, v.b.table.entries`heapIndex
      ensures v.Valid() && v.Cached() && Settled() && v.b.Region() <= old(v.b.Region())
      ensures v.b.table.entries == set n | n in old(v.b.table.entries) && n.key.tunnel != tunnel
      ensures confnats == OtherTunnels(old(confnats), tunnel)
      ensures old(Collecting()) ==> Collecting() && goal == OtherTunnels(old(goal), tunnel)
      ensures old(Backing()) ==> Backing()
      ensures Changed(old(v.b.ports.Owners()), v.b.ports.Owners(), now, v.holdLifetime)
    {
      hide Nats.Valid, Nats.Cached, Collects, Backs, Flat, Distinct, Changed, Withdrawn, RegionOf, OtherTunnels;
      v.Outside();
      v.HeapWithin();
      v.b.Older();
      v.b.NatsOutside(v.b.table.entries);
      UnlistTunnel(tunnel);
      v.DelTunnel(tunnel, now);
    }

    method UnlistTunnel(tunnel: int)
      requires Lists() && Static() && Phase() && Outer()
      modifies this`gcPtr, this`btPtr, this`confnats, this`orphans, this`done, this`goal
      ensures Lists() && Static() && Phase()
      ensures forall n | n in confnats || n in Flat(orphans) :: n.key.tunnel != tunnel
      ensures forall n <- v.b.table.entries ::
        n in confnats || n.generation <= FIRST_GEN || n.key.tunnel == tunnel
      ensures confnats == OtherTunnels(old(confnats), tunnel)
      ensures old(Collecting()) ==> Collecting() && goal == OtherTunnels(old(goal), tunnel)
      ensures old(Backing()) ==> Backing()
    {
      hide Collects, Backs, Without, Flat, Distinct, OtherTunnels;
      ghost var collecting := Collecting();
      while exists n :: n in confnats + Flat(orphans) && n.key.tunnel == tunnel
        invariant Lists() && Static() && Phase() && (collecting ==> Collecting()) && (old(Backing()) ==> Backing())
        invariant OtherTunnels(confnats, tunnel) == OtherTunnels(old(confnats), tunnel)
        invariant collecting ==> OtherTunnels(goal, tunnel) == OtherTunnels(old(goal), tunnel)
        invariant forall n <- v.b.table.entries ::
          n in confnats || n.generation <= FIRST_GEN || n.key.tunnel == tunnel
        decreases |confnats| + |Flat(orphans)|
      {
        var n :| n in confnats + Flat(orphans) && n.key.tunnel == tunnel;
        WithoutLess(confnats, n);
        WithoutLess(Flat(orphans), n);
        OthersStay(confnats, n);
        OtherTunnelsLess(confnats, tunnel, n);
        OtherTunnelsLess(goal, tunnel, n);
        Unlist(n);
      }
      forall n | n in confnats || n in Flat(orphans) ensures n.key.tunnel != tunnel {
        assert n in confnats + Flat(orphans);
      }
      AllOther(confnats, tunnel);
      if collecting {
        GoalListed(confnats, done, gcPtr, needgc, lastgen, goal);
        AllOther(goal, tunnel);
      }
    }

    /** The cursors step over an entry that is about to go */
    method Unchain(n: Nat)
      requires Lists() && n in confnats
      modifies this`gcPtr, this`btPtr, this`confnats, this`done, this`goal
      ensures Lists() && n !in confnats && n !in Flat(orphans) && confnats == Without(old(confnats), n)
      ensures old(Collecting()) ==> Collecting() && goal == Without(old(goal), n)
      ensures old(Backing()) ==> Backing()
      ensures v.b.ports.Owners() == old(v.b.ports.Owners()) && (old(Idle()) ==> Idle())
    {
      hide Collects, Backs, Without, Ports.Owners;
      ghost var i :| 0 <= i < |confnats| && confnats[i] == n;
      if Collecting() {
        CollectsWithout(confnats, done, gcPtr, needgc, lastgen, goal, i);
      }
      if Backing() {
        BacksWithout(confnats, done, btPtr, needbt, lastgen, i);
      }
      ListWithout(confnats, n);
      if n == gcPtr {
        gcPtr := Next(confnats, n);
      }
      if n == btPtr {
        btPtr := Next(confnats, n);
      }
      confnats := Without(confnats, n);
      goal := Without(goal, n);
      done := DoneWithout(done, i);
    }

    /** One turn of the loop over confnats */
    method Turn(now: int) returns (deleted: bool)
      requires v.Valid() && v.Cached() && Apart() && Outer() && Lists() && Collecting() && needgc == 1 && gcPtr != null
      modifies this`gcPtr, this`confnats, this`done, v`counters, v.b.Region(), v.heap, v.heap.heap
      modifies v.b.table.entries`left, v.b.table.entries`right, v.b.table.entries`parent, v.b.table.entries`red
      modifies v.b.table.entries`tleft, v.b.table.entries`tright, v.b.table.entries`heapIndex
      modifies v.cache.slots
      ensures v.Valid() && v.Cached() && Apart() && Outer() && Lists() && Collecting() && goal == old(goal)
      ensures SameRegion(old(v.b.Region()), old(v.heap.heap), old(v.cache.slots)) && SameGenerations(old(Generations()))
      ensures !deleted ==>
        v.b.table.entries == old(v.b.table.entries) && confnats == old(confnats) && done == old(done) + 1 <= |confnats|
      ensures deleted ==>
        && old(gcPtr) in old(confnats) && old(gcPtr) in old(v.b.table.entries)
        && FIRST_GEN <= old(gcPtr.generation) < lastgen
                          && v.b.table.entries == old(v.b.table.entries) - {old(gcPtr)}
                          && confnats == Without(old(confnats), old(gcPtr)) && |confnats| == |old(confnats)| - 1
                          && done == old(done)
      ensures Dropped(old(v.b.ports.Owners()), v.b.ports.Owners(), now + v.holdLifetime)
    {
      hide Nats.Valid, Nats.Cached, Outside, Collects, Without, Distinct, Keeps, Dropped;
      CursorFacts();
      SameDropped(v.b.ports.Owners(), now + v.holdLifetime);
      if gcPtr.generation < FIRST_GEN || gcPtr.generation >= lastgen {
        IsKept(gcPtr, lastgen);
        Skip();
        deleted := false;
      } else {
        NotKeptNow(gcPtr, lastgen);
        Drop(now);
        deleted := true;
      }
    }

    /** The loop over confnats: up to the end of the list, or until quantum entries have been deleted */
    method Scan(quantum: nat, now: int) returns (remains: nat, ghost count: nat)
      requires quantum > 0 && v.Valid() && v.Cached() && Apart() && Outer() && Lists() && Collecting() && needgc == 1
      modifies this`gcPtr, this`confnats, this`done, v`counters, v.b.Region(), v.heap, v.heap.heap
      modifies v.b.table.entries`left, v.b.table.entries`right, v.b.table.entries`parent, v.b.table.entries`red
      modifies v.b.table.entries`tleft, v.b.table.entries`tright, v.b.table.entries`heapIndex
      modifies v.cache.slots
      ensures v.Valid() && v.Cached() && Apart() && Outer() && Lists() && Collecting() && goal == old(goal)
      ensures SameRegion(old(v.b.Region()), old(v.heap.heap), old(v.cache.slots)) && SameGenerations(old(Generations()))
      ensures remains + count == quantum && (remains > 0 ==> gcPtr == null)
      ensures Deleted(old(Generations()), v.b.table.entries, count, old(confnats), lastgen)
      ensures Among(confnats, old(confnats))
      ensures Dropped(old(v.b.ports.Owners()), v.b.ports.Owners(), now + v.holdLifetime)
    {
      hide Nats.Valid, Nats.Cached, Outside, Collects, Distinct, Deleted, Lists, SameGenerations, Generations, Among,
        RegionOf, Dropped;
      remains, count := quantum, 0;
      ghost var g, list := Generations(), confnats;
      FirstGenerations();
      AmongItself(confnats);
      NoneDeleted(g, confnats, lastgen);
      ghost var o, until := v.b.ports.Owners(), now + v.holdLifetime;
      SameDropped(o, until);
      while gcPtr != null
        invariant 0 < remains && remains + count == quantum
        invariant v.Valid() && v.Cached() && Apart() && Outer() && Lists() && Collecting() && goal == old(goal)
        invariant v.b.Region() == old(v.b.Region()) && v.heap.heap == old(v.heap.heap)
        invariant v.cache.slots == old(v.cache.slots) && SameGenerations(g)
        invariant v.b.table.entries <= old(v.b.table.entries) && Among(confnats, list)
        invariant Deleted(g, v.b.table.entries, count, list, lastgen)
        invariant Dropped(o, v.b.ports.Owners(), until)
        decreases |confnats| - done
      {
        v.HeapWithin();
        ghost var o1 := v.b.ports.Owners();
        var deleted := ScanOne(now, g, list, count);
        DroppedTwice(o, o1, v.b.ports.Owners(), until);
        if deleted {
          count := count + 1;
          remains := remains - 1;
          if remains == 0 {
            return;
          }
        }
      }
    }

    method ScanOne(now: int, ghost g: map<Nat, nat>, ghost list: seq<Nat>, ghost count: nat) returns (deleted: bool)
      requires v.Valid() && v.Cached() && Apart() && Outer() && Lists() && Collecting() && needgc == 1 && gcPtr != null
      requires SameGenerations(g) && Among(confnats, list) && Deleted(g, v.b.table.entries, count, list, lastgen)
      modifies this`gcPtr, this`confnats, this`done, v`counters, v.b.Region(), v.heap, v.heap.heap
      modifies v.b.table.entries`left, v.b.table.entries`right, v.b.table.entries`parent, v.b.table.entries`red
      modifies v.b.table.entries`tleft, v.b.table.entries`tright, v.b.table.entries`heapIndex
      modifies v.cache.slots
      ensures v.Valid() && v.Cached() && Apart() && Outer() && Lists() && Collecting() && goal == old(goal)
      ensures v.b.Region() == old(v.b.Region()) && v.heap.heap == old(v.heap.heap)
      ensures v.cache.slots == old(v.cache.slots) && SameGenerations(g) && v.b.table.entries <= old(v.b.table.entries)
      ensures Among(confnats, list)
      ensures Deleted(g, v.b.table.entries, if deleted then count + 1 else count, list, lastgen)
      ensures |confnats| - done == |old(confnats)| - old(done) - 1 && 0 <= old(done) < |old(confnats)|
      ensures Dropped(old(v.b.ports.Owners()), v.b.ports.Owners(), now + v.holdLifetime)
    {
      hide Nats.Valid, Nats.Cached, Outside, Collects, Without, Distinct, Keeps, Deleted, Lists, SameGenerations,
        Generations, Among, RegionOf, Dropped;
      CursorFacts();
      ghost var n, before, g', gone := gcPtr, v.b.table.entries, Generations(), v.b.table.entries - {gcPtr};
      PartGenerations(g);
      AmongToo(confnats, list, n);
      if FIRST_GEN <= n.generation < lastgen {
        OneDeleted(g, before, n, count, list, lastgen);
      }
      deleted := Turn(now);
      AllGenerations(g, g');
      if deleted {
        assert v.b.table.entries == gone;
      }
    }

    method Unorphan()
      requires v.Valid() && v.Cached() && Apart() && Lists() && orphans != [] && orphans[0] != []
      modifies this`orphans
      ensures v.Valid() && v.Cached() && Apart() && Lists() && |orphans| == |old(orphans)|
      ensures orphans[0] == old(orphans)[0][1..]
      ensures var n := old(orphans)[0][0]; n in v.b.table.entries && n !in confnats && n !in Flat(orphans)
      ensures old(orphans)[0][0] in Flat(old(orphans)) && Among(Flat(orphans), Flat(old(orphans)))
      ensures v.b.ports.Owners() == old(v.b.ports.Owners())
    {
      hide Nats.Valid, Nats.Cached, Distinct, Ports.Owners;
      FirstOrphan(orphans);
      orphans := [orphans[0][1..]] + orphans[1..];
    }

    method DropOrphan(now: int)
      requires v.Valid() && v.Cached() && Apart() && Outer() && Lists() && orphans != [] && orphans[0] != []
      modifies this`orphans, v`counters, v.b.Region(), v.heap, v.heap.heap, v.cache.slots
      modifies v.b.table.entries`left, v.b.table.entries`right, v.b.table.entries`parent, v.b.table.entries`red
      modifies v.b.table.entries`tleft, v.b.table.entries`tright, v.b.table.entries`heapIndex
      ensures v.Valid() && v.Cached() && Apart() && Outer() && Lists() && (old(Collecting()) ==> Collecting())
      ensures (old(Backing()) ==> Backing())
      ensures SameRegion(old(v.b.Region()), old(v.heap.heap), old(v.cache.slots)) && |orphans| == |old(orphans)|
      ensures orphans[0] == old(orphans)[0][1..]
      ensures old(orphans)[0][0] in old(v.b.table.entries)
      ensures old(orphans)[0][0] in Flat(old(orphans)) && Among(Flat(orphans), Flat(old(orphans)))
      ensures v.b.table.entries == old(v.b.table.entries) - {old(orphans)[0][0]}
      ensures Dropped(old(v.b.ports.Owners()), v.b.ports.Owners(), now + v.holdLifetime)
    {
      hide Nats.Valid, Nats.Cached, Outside, Collecting, Backing, Generations, SameGenerations, Distinct, Lists,
        Dropped, Ports.Owners, Among;
      var n := orphans[0][0];
      v.Outside();
      OutsideWithout(confnats, v.b.table.entries, n);
      Unorphan();
      DeleteListed(n, now);
    }

    /** The inner loop over the entries of a session that has ended */
    method EmptySession(quantum: nat, now: int) returns (remains: nat)
      requires quantum > 0 && v.Valid() && v.Cached() && Apart() && Outer() && Lists() && orphans != []
      modifies this`orphans, v`counters, v.b.Region(), v.heap, v.heap.heap, v.cache.slots
      modifies v.b.table.entries`left, v.b.table.entries`right, v.b.table.entries`parent, v.b.table.entries`red
      modifies v.b.table.entries`tleft, v.b.table.entries`tright, v.b.table.entries`heapIndex
      ensures v.Valid() && v.Cached() && Apart() && Outer() && Lists() && (old(Collecting()) ==> Collecting())
      ensures (old(Backing()) ==> Backing())
      ensures SameRegion(old(v.b.Region()), old(v.heap.heap), old(v.cache.slots)) && remains <= quantum
      ensures |orphans| == |old(orphans)| && (remains > 0 ==> orphans[0] == [])
      ensures Fewer(v.b.table.entries, old(v.b.table.entries), quantum, remains)
      ensures Orphaned(old(v.b.table.entries), v.b.table.entries, Flat(old(orphans)))
      ensures Among(Flat(orphans), Flat(old(orphans)))
      ensures Dropped(old(v.b.ports.Owners()), v.b.ports.Owners(), now + v.holdLifetime)
    {
      hide Nats.Valid, Nats.Cached, Outside, Collecting, Backing, Generations, SameGenerations, Distinct, Fewer, Lists,
        RegionOf, Dropped, Orphaned, Among, Flat;
      remains := quantum;
      ghost var collecting, backing, before, list := Collecting(), Backing(), v.b.table.entries, Flat(orphans);
      SameNumber(before, quantum);
      NoneOrphaned(before, list);
      AmongItself(list);
      ghost var o, until := v.b.ports.Owners(), now + v.holdLifetime;
      SameDropped(o, until);
      while orphans[0] != []
        invariant 0 < remains <= quantum && |orphans| == |old(orphans)|
        invariant v.Valid() && v.Cached() && Apart() && Outer() && Lists() && (collecting ==> Collecting())
        invariant (backing ==> Backing())
        invariant v.b.Region() == old(v.b.Region()) && v.heap.heap == old(v.heap.heap)
        invariant v.cache.slots == old(v.cache.slots)
        invariant v.b.table.entries <= before && Fewer(v.b.table.entries, before, quantum, remains)
        invariant Orphaned(before, v.b.table.entries, list) && Among(Flat(orphans), list)
        invariant Dropped(o, v.b.ports.Owners(), until)
        decreases |orphans[0]|
      {
        OneFewer(v.b.table.entries, before, quantum, remains, orphans[0][0]);
        v.HeapWithin();
        ghost var o1, n, middle, lists := v.b.ports.Owners(), orphans[0][0], v.b.table.entries, orphans;
        DropOrphan(now);
        OneOrphaned(before, middle, n, Flat(lists), list);
        AmongTwice(Flat(orphans), Flat(lists), list);
        DroppedTwice(o, o1, v.b.ports.Owners(), until);
        remains := remains - 1;
        if remains == 0 {
          return;
        }
      }
    }

    /** The loop over the sessions that have ended */
    method Orphans(quantum: nat, now: int) returns (remains: nat)
      requires quantum > 0 && v.Valid() && v.Cached() && Apart() && Outer() && Lists()
      modifies this`orphans, v`counters, v.b.Region(), v.heap, v.heap.heap, v.cache.slots
      modifies v.b.table.entries`left, v.b.table.entries`right, v.b.table.entries`parent, v.b.table.entries`red
      modifies v.b.table.entries`tleft, v.b.table.entries`tright, v.b.table.entries`heapIndex
      ensures v.Valid() && v.Cached() && Apart() && Outer() && Lists() && (old(Collecting()) ==> Collecting())
      ensures (old(Backing()) ==> Backing())
      ensures SameRegion(old(v.b.Region()), old(v.heap.heap), old(v.cache.slots)) && remains <= quantum
      ensures remains > 0 ==> orphans == []
      ensures Fewer(v.b.table.entries, old(v.b.table.entries), quantum, remains)
      ensures Orphaned(old(v.b.table.entries), v.b.table.entries, Flat(old(orphans)))
      ensures Among(Flat(orphans), Flat(old(orphans)))
      ensures Dropped(old(v.b.ports.Owners()), v.b.ports.Owners(), now + v.holdLifetime)
    {
      hide Nats.Valid, Nats.Cached, Outside, Collecting, Backing, Distinct, Fewer, Lists, RegionOf, Dropped, Orphaned,
        Among, Flat;
      remains := quantum;
      ghost var collecting, backing, before, list := Collecting(), Backing(), v.b.table.entries, Flat(orphans);
      SameNumber(before, quantum);
      NoneOrphaned(before, list);
      AmongItself(list);
      ghost var o, until := v.b.ports.Owners(), now + v.holdLifetime;
      SameDropped(o, until);
      while orphans != []
        invariant 0 < remains <= quantum
        invariant v.Valid() && v.Cached() && Apart() && Outer() && Lists() && (collecting ==> Collecting())
        invariant (backing ==> Backing())
        invariant v.b.Region() == old(v.b.Region()) && v.heap.heap == old(v.heap.heap)
        invariant v.cache.slots == old(v.cache.slots)
        invariant v.b.table.entries <= before && Fewer(v.b.table.entries, before, quantum, remains)
        invariant Orphaned(before, v.b.table.entries, list) && Among(Flat(orphans), list)
        invariant Dropped(o, v.b.ports.Owners(), until)
        decreases |orphans|
      {
        ghost var between, middle := remains, v.b.table.entries;
        ghost var o1, lists := v.b.ports.Owners(), orphans;
        remains := EmptySession(remains, now);
        OrphanedTwice(before, middle, v.b.table.entries, list, Flat(lists));
        AmongTwice(Flat(orphans), Flat(lists), list);
        DroppedTwice(o, o1, v.b.ports.Owners(), until);
        FewerTwice(v.b.table.entries, middle, before, quantum, between, remains);
        if remains == 0 {
          return;
        }
        FirstDone();
      }
    }

    method FirstDone()
      requires v.Valid() && v.Cached() && Apart() && Outer() && Lists() && orphans != [] && orphans[0] == []
      modifies this`orphans
      ensures v.Valid() && v.Cached() && Apart() && Outer() && Lists() && orphans == old(orphans)[1..]
      ensures Flat(orphans) == Flat(old(orphans))
      ensures v.b.ports.Owners() == old(v.b.ports.Owners())
    {
      hide Nats.Valid, Nats.Cached, Distinct, Ports.Owners;
      EmptyFirst(orphans);
      orphans := orphans[1..];
    }

    method Begin()
      requires v.Valid() && v.Cached() && Apart() && Outer() && Lists() && Collecting() && needgc > 1
      modifies this`gcPtr, this`needgc
      ensures v.Valid() && v.Cached() && Apart() && Outer() && Lists() && Collecting() && needgc == 1
      ensures v.b.ports.Owners() == old(v.b.ports.Owners())
      ensures v.b.Region() == old(v.b.Region())
    {
      hide Nats.Valid, Nats.Cached, Outside, Distinct, Ports.Owners;
      if gcPtr == null {
        gcPtr := if confnats == [] then null else confnats[0];
      }
      needgc := 1;
    }

    method End()
      requires v.Valid() && v.Cached() && Apart() && Outer() && Lists()
      modifies this`needgc
      ensures v.Valid() && v.Cached() && Apart() && Outer() && Lists() && needgc == 0
      ensures v.b.ports.Owners() == old(v.b.ports.Owners())
      ensures v.b.Region() == old(v.b.Region())
    {
      hide Nats.Valid, Nats.Cached, Outside, Distinct, Ports.Owners;
      needgc := 0;
    }

    /** gc_incr: one slice.  It deletes what ended sessions have left, and then what the last reload has not
        confirmed.  Whatever else has been deleted since the reload, a collection that is done has left exactly what
        the filter in one go would have left of the rest; until then every slice deletes its full quantum. */
    method GcIncr(quantum: nat, now: int)
      requires quantum > 0 && v.Valid() && v.Cached() && Settled() && needgc > 0
      modifies this`orphans, this`confnats, this`gcPtr, this`needgc, this`done
      modifies v`counters, v.b.Region(), v.heap, v.heap.heap, v.cache.slots
      modifies v.b.table.entries`left, v.b.table.entries`right, v.b.table.entries`parent, v.b.table.entries`red
      modifies v.b.table.entries`tleft, v.b.table.entries`tright, v.b.table.entries`heapIndex
      ensures v.Valid() && v.Cached() && Settled() && (needgc == 0 ==> orphans == [])
      ensures old(Collecting()) ==> if needgc == 0 then confnats == goal else Collecting()
      ensures old(Idle()) ==> confnats == old(confnats) && (needgc == 0 || Idle())
      ensures needgc != 0 ==> |v.b.table.entries| + quantum == |old(v.b.table.entries)|
      ensures v.b.table.entries <= old(v.b.table.entries)
      ensures forall n <- old(v.b.table.entries) - v.b.table.entries ::
        n in old(Flat(orphans)) || (n in old(confnats) && FIRST_GEN <= old(n.generation) < lastgen)
      ensures Among(confnats, old(confnats)) && Among(Flat(orphans), old(Flat(orphans)))
      ensures Dropped(old(v.b.ports.Owners()), v.b.ports.Owners(), now + v.holdLifetime)
      ensures v.b.Region() == old(v.b.Region())
    {
      hide Nats.Valid, Nats.Cached, Outside, Collects, Backs, Distinct, Dropped, RegionOf, Flat;
      v.b.NatsOutside(v.b.table.entries);
      Slice(quantum, now);
    }

    method Slice(quantum: nat, now: int)
      requires quantum > 0 && v.Valid() && v.Cached() && Apart() && Outer() && Lists() && needgc > 0
      requires Collecting() || Idle()
      modifies this`orphans, this`confnats, this`gcPtr, this`needgc, this`done
      modifies v`counters, v.b.Region(), v.heap, v.heap.heap, v.cache.slots
      modifies v.b.table.entries`left, v.b.table.entries`right, v.b.table.entries`parent, v.b.table.entries`red
      modifies v.b.table.entries`tleft, v.b.table.entries`tright, v.b.table.entries`heapIndex
      ensures v.Valid() && v.Cached() && Apart() && Outer() && Lists()
      ensures needgc == 0 ==> orphans == []
      ensures old(Collecting()) ==> if needgc == 0 then confnats == goal else Collecting()
      ensures old(Idle()) ==>
        confnats == old(confnats) && (needgc == 0 || Idle()) && (old(Backing()) ==> Backing())
      ensures needgc != 0 ==> |v.b.table.entries| + quantum == |old(v.b.table.entries)|
      ensures v.b.table.entries <= old(v.b.table.entries)
      ensures forall n <- old(v.b.table.entries) - v.b.table.entries ::
        n in old(Flat(orphans)) || (n in old(confnats) && FIRST_GEN <= old(n.generation) < lastgen)
      ensures Among(confnats, old(confnats)) && Among(Flat(orphans), old(Flat(orphans)))
      ensures Dropped(old(v.b.ports.Owners()), v.b.ports.Owners(), now + v.holdLifetime)
      ensures v.b.Region() == old(v.b.Region())
    {
      hide Nats.Valid, Nats.Cached, Outside, Collecting, Backing, Distinct, Lists, Fewer, Dropped, RegionOf,
        Ports.Owners, Among, Orphaned, Flat;
      ghost var o := v.b.ports.Owners();
      v.b.NatsOutside(v.b.table.entries);
      AmongItself(confnats);
      var remains := Orphans(quantum, now);
      ghost var o1 := v.b.ports.Owners();
      FewerCount(v.b.table.entries, old(v.b.table.entries), quantum, remains);
      OrphanedWhich(old(v.b.table.entries), v.b.table.entries, Flat(old(orphans)));
      assert confnats == old(confnats) && lastgen == old(lastgen);
      assert forall n <- v.b.table.entries :: n.generation == old(n.generation);
      ghost var middle := v.b.table.entries;
      if remains == 0 {
        return;
      }
      Finish(remains, now);
      assert lastgen == old(lastgen);
      assert forall n <- middle - v.b.table.entries ::
        n in old(confnats) && FIRST_GEN <= old(n.generation) < lastgen;
      DroppedTwice(o, o1, v.b.ports.Owners(), now + v.holdLifetime);
    }

    /** The loop, with what it has deleted */
    method ScanSlice(quantum: nat, now: int) returns (remains: nat)
      requires quantum > 0 && v.Valid() && v.Cached() && Apart() && Outer() && Lists() && Collecting() && needgc == 1
      modifies this`gcPtr, this`confnats, this`done, v`counters, v.b.Region(), v.heap, v.heap.heap
      modifies v.b.table.entries`left, v.b.table.entries`right, v.b.table.entries`parent, v.b.table.entries`red
      modifies v.b.table.entries`tleft, v.b.table.entries`tright, v.b.table.entries`heapIndex
      modifies v.cache.slots
      ensures v.Valid() && v.Cached() && Apart() && Outer() && Lists() && Collecting() && goal == old(goal)
      ensures if remains == 0 then |v.b.table.entries| + quantum == |old(v.b.table.entries)| else gcPtr == null
      ensures v.b.table.entries <= old(v.b.table.entries) && Among(confnats, old(confnats))
      ensures forall n <- old(v.b.table.entries) - v.b.table.entries ::
        n in old(confnats) && FIRST_GEN <= old(n.generation) < lastgen
      ensures Dropped(old(v.b.ports.Owners()), v.b.ports.Owners(), now + v.holdLifetime)
      ensures v.b.Region() == old(v.b.Region())
    {
      hide Nats.Valid, Nats.Cached, Outside, Collecting, Distinct, Lists, SameGenerations, Generations, Deleted,
        RegionOf, Dropped;
      ghost var count, g, list := 0, Generations(), confnats;
      FirstGenerations();
      remains, count := Scan(quantum, now);
      DeletedCount(g, v.b.table.entries, count, list, lastgen);
    }

    /** The part of a slice about confnats */
    method Finish(quantum: nat, now: int)
      requires quantum > 0 && v.Valid() && v.Cached() && Apart() && Outer() && Lists() && needgc > 0
      requires Collecting() || Idle()
      modifies this`confnats, this`gcPtr, this`needgc, this`done
      modifies v`counters, v.b.Region(), v.heap, v.heap.heap, v.cache.slots
      modifies v.b.table.entries`left, v.b.table.entries`right, v.b.table.entries`parent, v.b.table.entries`red
      modifies v.b.table.entries`tleft, v.b.table.entries`tright, v.b.table.entries`heapIndex
      ensures v.Valid() && v.Cached() && Apart() && Outer() && Lists()
      ensures old(Collecting()) ==> if needgc == 0 then confnats == goal else Collecting()
      ensures old(Idle()) ==> confnats == old(confnats) && needgc == 0 && (old(Backing()) ==> Backing())
      ensures needgc != 0 ==> |v.b.table.entries| + quantum == |old(v.b.table.entries)|
      ensures v.b.table.entries <= old(v.b.table.entries) && Among(confnats, old(confnats))
      ensures forall n <- old(v.b.table.entries) - v.b.table.entries ::
        n in old(confnats) && FIRST_GEN <= old(n.generation) < lastgen
      ensures Dropped(old(v.b.ports.Owners()), v.b.ports.Owners(), now + v.holdLifetime)
      ensures v.b.Region() == old(v.b.Region())
    {
      hide Nats.Valid, Nats.Cached, Outside, Collects, Distinct, Lists, RegionOf, Dropped, Among;
      AmongItself(confnats);
      ghost var collecting := Collecting();
      if needgc > 1 {
        Begin();
      }
      SameDropped(v.b.ports.Owners(), now + v.holdLifetime);
      if gcPtr != null {
        var remains := ScanSlice(quantum, now);
        if remains == 0 {
          return;
        }
      }
      if collecting {
        AllKept(confnats, done, lastgen, goal);
      }
      End();
    }

    // ---------- One slice of a backtrack ----------

    method Lower(ghost g: map<Nat, nat>)
      requires v.Valid() && Apart() && Outer() && Lists() && Backing() && needbt == 1 && btPtr != null && Lowered(g)
      modifies this`btPtr, this`done, btPtr`generation
      ensures v.Valid() && Outer() && Lists() && Backing() && done == old(done) + 1 <= |confnats| && Lowered(g)
    {
      hide Nats.Valid, Lists, Distinct, Backs, CursorAt, Next, Lowered, Outside;
      BackFacts();
      var n := btPtr;
      LowerOne(n, g);
      btPtr := Next(confnats, n);
      done := done + 1;
      BacksNext(confnats, done - 1, lastgen);
    }

    method LowerOne(n: Nat, ghost g: map<Nat, nat>)
      requires v.Valid() && Apart() && Outer() && Lists() && n in confnats && n in v.b.table.entries && Lowered(g)
      modifies n`generation
      ensures v.Valid() && Outer() && Lists() && Lowered(g) && n.generation <= lastgen
      ensures n.generation <= old(n.generation)
    {
      hide Nats.Valid, Distinct;
      v.Outside();
      if n.generation > lastgen {
        v.NoteGeneration(n, lastgen);
      }
    }

    lemma BackAt()
      requires Lists() && Backing() && btPtr != null && needbt == 1
      ensures btPtr in v.b.table.entries
    {
      BackFacts();
    }

    lemma BackFacts()
      requires Lists() && Backing() && btPtr != null && needbt == 1
      ensures btPtr in confnats && btPtr in v.b.table.entries && done < |confnats| && btPtr == confnats[done]
      ensures Distinct(confnats)
      ensures Next(confnats, btPtr) == CursorAt(confnats, done + 1, 1)
      ensures forall n <- confnats[..done] :: n.generation <= lastgen
    {
      NextAt(confnats, done);
    }

    /** bt_incr: one slice.  No entry is deleted; in the end no generation is above the last good one. */
    method BtIncr(quantum: nat)
      requires quantum > 0 && v.Valid() && Settled() && needbt > 0
      modifies this`btPtr, this`needbt, this`done, v.b.table.entries`generation
      ensures v.Valid() && Settled() && v.b.ports.Owners() == old(v.b.ports.Owners())
      ensures old(v.Cached()) ==> v.Cached()
      ensures if needbt == 0 then forall n <- v.b.table.entries :: n.generation <= lastgen
              else Backing() && done == old(done) + 5 * quantum
      ensures forall n <- v.b.table.entries ::
        n.generation == old(n.generation) || (n in confnats && n.generation == lastgen < old(n.generation))
    {
      hide Nats.Valid, Nats.Cached, Outside, Collects, Backs, Distinct, RegionOf, Flat;
      v.b.NatsOutside(v.b.table.entries);
      v.b.Older();
      BackSlice(quantum);
    }

    method BackSlice(quantum: nat)
      requires quantum > 0 && v.Valid() && Apart() && Lists() && Backing() && Outer() && lastgen >= FIRST_GEN
      modifies this`btPtr, this`needbt, this`done, v.b.table.entries`generation
      ensures v.Valid() && Apart() && Lists() && Outer() && confnats == old(confnats)
      ensures v.b.table.entries == old(v.b.table.entries)
      ensures if needbt == 0 then forall n <- v.b.table.entries ::
        n.generation <= lastgen else Backing() && done == old(done) + 5 * quantum
      ensures forall n <- v.b.table.entries ::
        n.generation == old(n.generation) || (n in confnats && n.generation == lastgen < old(n.generation))
    {
      hide Nats.Valid, Distinct, Lists, Backs, CursorAt, Next, Lowered, Generations, Outside, RegionOf;
      ghost var g := Generations();
      LoweredFirst();
      if needbt > 1 {
        BeginBack();
      }
      var remains := Back(5 * quantum, g);
      LoweredAll(g);
      if remains == 0 {
        return;
      }
      AllLowered();
      EndBack();
    }

    /** The loop of a slice: to the end of confnats, or until quantum entries have been passed */
    method Back(quantum: nat, ghost g: map<Nat, nat>) returns (remains: nat)
      requires quantum > 0 && v.Valid() && Apart() && Outer() && Lists() && Backing() && needbt == 1 && Lowered(g)
      modifies this`btPtr, this`done, v.b.table.entries`generation
      ensures v.Valid() && Outer() && Apart() && Lists() && Backing() && Lowered(g)
      ensures remains <= quantum && done == old(done) + (quantum - remains) && (remains > 0 ==> btPtr == null)
    {
      hide Nats.Valid, Distinct, Lists, Backs, CursorAt, Next, Lowered, Generations, Outside;
      remains := quantum;
      while btPtr != null && remains > 0
        invariant v.Valid() && Outer() && Lists() && Backing() && done == old(done) + (quantum - remains)
        invariant remains <= quantum && Lowered(g)
      {
        BackAt();
        Lower(g);
        remains := remains - 1;
      }
    }

    method BeginBack()
      requires v.Valid() && Apart() && Outer() && Lists() && Backing() && needbt > 1
      modifies this`btPtr, this`needbt
      ensures v.Valid() && Apart() && Outer() && Lists() && Backing() && needbt == 1
    {
      hide Nats.Valid, Outside, Distinct;
      if btPtr == null {
        btPtr := if confnats == [] then null else confnats[0];
      }
      needbt := 1;
    }

    method EndBack()
      requires v.Valid() && Apart() && Outer() && Lists()
      modifies this`needbt
      ensures v.Valid() && Apart() && Outer() && Lists() && needbt == 0
    {
      hide Nats.Valid, Outside, Distinct;
      needbt := 0;
    }

    lemma AllLowered()
      requires Backing() && btPtr == null && needbt == 1 && Outer() && lastgen >= FIRST_GEN
      ensures forall n <- v.b.table.entries :: n.generation <= lastgen
    {
    }

    /** Since the generations were g, some listed entries have had theirs lowered to the last good one */
    ghost predicate Lowered(g: map<Nat, nat>)
      reads this`confnats, this`lastgen, v.b.table`entries, v.b.table.entries`generation
    {
      g.Keys == v.b.table.entries
      && forall n <- v.b.table.entries :: n.generation == g[n] || (n in confnats && n.generation == lastgen < g[n])
    }

    lemma LoweredFirst()
      ensures Lowered(Generations()) && Generations().Keys == v.b.table.entries
      ensures forall n <- v.b.table.entries :: Generations()[n] == n.generation
    {
    }

    lemma LoweredAll(g: map<Nat, nat>)
      requires Lowered(g)
      ensures g.Keys == v.b.table.entries
      ensures forall n <- v.b.table.entries :: n.generation == g[n] || (n in confnats && n.generation == lastgen < g[n])
    {
    }

    lemma FirstGenerations()
      ensures Generations().Keys == v.b.table.entries && SameGenerations(Generations())
      ensures forall n <- v.b.table.entries :: Generations()[n] == n.generation
    {
    }

    lemma PartGenerations(g: map<Nat, nat>)
      requires SameGenerations(g)
      ensures forall n <- v.b.table.entries ::
        n in g && n.generation == g[n] && n in Generations() && Generations()[n] == g[n]
      ensures Generations().Keys == v.b.table.entries
    {
    }

    lemma AllGenerations(g: map<Nat, nat>, g': map<Nat, nat>)
      requires SameGenerations(g') && forall n <- g' :: n in g && g'[n] == g[n]
      ensures SameGenerations(g)
    {
    }

    lemma CursorFacts()
      requires Lists() && Collecting() && gcPtr != null
      ensures gcPtr in confnats && gcPtr in v.b.table.entries && done < |confnats|
    {
    }
  }

  /** Of the entries with the generations g, count have gone, all of them listed and not to be kept */
  ghost predicate Deleted(g: map<Nat, nat>, after: set<Nat>, count: nat, list: seq<Nat>, last: nat) {
    && after <= g.Keys && |g.Keys| == |after| + count
    && forall n <- g.Keys - after :: n in list && FIRST_GEN <= g[n] < last
  }

  lemma NoneDeleted(g: map<Nat, nat>, list: seq<Nat>, last: nat)
    ensures Deleted(g, g.Keys, 0, list, last)
  {
  }

  lemma OneDeleted(g: map<Nat, nat>, after: set<Nat>, n: Nat, count: nat, list: seq<Nat>, last: nat)
    requires Deleted(g, after, count, list, last) && n in after && n in list && FIRST_GEN <= g[n] < last
    ensures Deleted(g, after - {n}, count + 1, list, last)
  {
  }

  /** One entry has gone for each of the quantum that does not remain */
  ghost predicate Fewer(after: set<Nat>, before: set<Nat>, quantum: nat, remains: nat) {
    after <= before && |after| + quantum == |before| + remains
  }

  lemma FewerCount(after: set<Nat>, before: set<Nat>, quantum: nat, remains: nat)
    requires Fewer(after, before, quantum, remains)
    ensures after <= before && |after| + quantum == |before| + remains
  {
  }

  lemma SameNumber(s: set<Nat>, quantum: nat)
    ensures Fewer(s, s, quantum, quantum)
  {
  }

  lemma OneFewer(after: set<Nat>, before: set<Nat>, quantum: nat, remains: nat, n: Nat)
    requires Fewer(after, before, quantum, remains) && remains > 0
    ensures n in after ==> Fewer(after - {n}, before, quantum, remains - 1)
  {
  }

  lemma FewerTwice(after: set<Nat>, middle: set<Nat>, before: set<Nat>, quantum: nat, between: nat, remains: nat)
    requires Fewer(middle, before, quantum, between) && Fewer(after, middle, between, remains)
    ensures Fewer(after, before, quantum, remains)
  {
  }

  lemma FirstOrphan(lists: seq<seq<Nat>>)
    requires lists != [] && lists[0] != [] && Distinct(Flat(lists))
    ensures var n, rest := lists[0][0], Flat([lists[0][1..]] + lists[1..]);
      Flat(lists) == [n] + rest && Distinct(rest) && n !in rest && forall m <- rest :: m in Flat(lists)
  {
    hide Distinct;
    var rest := [lists[0][1..]] + lists[1..];
    assert rest[1..] == lists[1..];
    assert Flat(lists) == [lists[0][0]] + (lists[0][1..] + Flat(lists[1..]));
    assert Flat(lists)[1..] == Flat(rest);
    TailDistinct(Flat(lists));
  }

  lemma EmptyFirst(lists: seq<seq<Nat>>)
    requires lists != [] && lists[0] == []
    ensures Flat(lists[1..]) == Flat(lists)
  {
  }

  lemma TailDistinct(s: seq<Nat>)
    requires Distinct(s) && s != []
    ensures Distinct(s[1..]) && s[0] !in s[1..] && forall m <- s[1..] :: m in s
  {
  }

  lemma DeletedCount(g: map<Nat, nat>, after: set<Nat>, count: nat, list: seq<Nat>, last: nat)
    requires Deleted(g, after, count, list, last)
    ensures after <= g.Keys && |g.Keys| == |after| + count
    ensures forall n <- g.Keys - after :: n in list && FIRST_GEN <= g[n] < last
  {
  }

  /** When the cursor has come to the end, all that is left is kept */
  lemma AllKept(s: seq<Nat>, done: nat, last: nat, goal: seq<Nat>)
    requires Collects(s, done, null, 1, last, goal)
    ensures s == goal
  {
    assert s[..|s|] == s;
    KeptAll(s, last);
  }

  /** What has gone was on the list */
  ghost predicate Orphaned(before: set<Nat>, after: set<Nat>, list: seq<Nat>) {
    after <= before && forall n <- before - after :: n in list
  }

  lemma NoneOrphaned(s: set<Nat>, list: seq<Nat>)
    ensures Orphaned(s, s, list)
  {
  }

  lemma OrphanedWhich(before: set<Nat>, after: set<Nat>, list: seq<Nat>)
    requires Orphaned(before, after, list)
    ensures after <= before && forall n <- before - after :: n in list
  {
  }

  lemma OneOrphaned(before: set<Nat>, middle: set<Nat>, n: Nat, now: seq<Nat>, list: seq<Nat>)
    requires Orphaned(before, middle, list) && n in now && Among(now, list)
    ensures Orphaned(before, middle - {n}, list)
  {
  }

  lemma OrphanedTwice(before: set<Nat>, middle: set<Nat>, after: set<Nat>, list: seq<Nat>, now: seq<Nat>)
    requires Orphaned(before, middle, list) && Orphaned(middle, after, now) && Among(now, list)
    ensures Orphaned(before, after, list)
  {
  }

  ghost predicate Among(a: seq<Nat>, b: seq<Nat>) { forall n <- a :: n in b }

  lemma AmongTwice(a: seq<Nat>, b: seq<Nat>, c: seq<Nat>)
    requires Among(a, b) && Among(b, c)
    ensures Among(a, c)
  {
  }

  lemma AmongItself(a: seq<Nat>)
    ensures Among(a, a)
  {
  }

  lemma AmongToo(a: seq<Nat>, b: seq<Nat>, n: Nat)
    requires Among(a, b) && n in a
    ensures n in b && Among(Without(a, n), b)
  {
  }

  lemma IsKept(n: Nat, last: nat)
    requires n.generation < FIRST_GEN || n.generation >= last
    ensures Keeps(n, last)
  {
  }

  lemma NotKeptNow(n: Nat, last: nat)
    requires !(n.generation < FIRST_GEN || n.generation >= last)
    ensures !Keeps(n, last)
  {
  }

  lemma {:induction false} NotKept(s: seq<Nat>, n: Nat, last: nat)
    requires !Keeps(n, last)
    ensures Without(Kept(s, last), n) == Kept(s, last)
  {
    KeptMembers(s, last);
    WithoutNone(Kept(s, last), n);
  }

  lemma {:induction false} KeptMembers(s: seq<Nat>, last: nat)
    ensures forall n <- Kept(s, last) :: n in s && Keeps(n, last)
  {
    if s != [] {
      KeptMembers(s[..|s| - 1], last);
    }
  }

  lemma {:induction false} ListWithout(s: seq<Nat>, n: Nat)
    requires Distinct(s)
    ensures Distinct(Without(s, n)) && n !in Without(s, n) && forall m <- Without(s, n) :: m in s
  {
    if n in s {
      var i :| 0 <= i < |s| && s[i] == n;
      WithoutAt(s, i);
      WithoutDistinct(s, i);
    } else {
      WithoutNone(s, n);
    }
  }
}
