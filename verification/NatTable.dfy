/**
  The two indexes of NAT entries: a red-black tree per protocol and a splay tree per
  tunnel and protocol, kept equal as sets.
 */
module NatTable {
  import opened NatEntry
  import R = RbTree
  import S = SplayTree

  method Plant() returns (trees: seq<R.NatTree>)
    ensures |trees| == PRCNT && fresh(trees) && forall i, j | 0 <= i < j < PRCNT :: trees[i] != trees[j]
    ensures forall i | 0 <= i < PRCNT :: trees[i].Valid() && trees[i].nodes == {}
  {
    hide R.NatTree.Valid;
    var tcp := new R.NatTree();
    var udp := new R.NatTree();
    var icmp := new R.NatTree();
    trees := [tcp, udp, icmp];
  }

  class Table {
    /** nat_tree[] */
    const trees: seq<R.NatTree>
    /** t->tnat_root[pr] and t->tnatcnt[pr] of every tunnel, by slot */
    var splays: map<int, S.Splay>
    var tnatcnt: map<int, nat>
    ghost var entries: set<Nat>

    ghost predicate Distinct()
      reads this`splays
    {
      && (forall t, u | t in splays && u in splays && t != u :: splays[t] != splays[u])
      && |trees| == PRCNT && forall i, j | 0 <= i < j < PRCNT :: trees[i] != trees[j]
    }

    ghost predicate SplayOk(t: int)
      requires t in splays
      reads this, splays[t], entries`tleft, entries`tright
    {
      && splays[t].nodes == Of(entries, t) && splays[t].Valid()
      && t in tnatcnt && tnatcnt[t] == |splays[t].nodes|
    }

    ghost predicate TreeOk(i: nat)
      requires i < |trees|
      reads this`entries, trees[i], entries`left, entries`right, entries`parent, entries`red
    {
      trees[i].nodes == OfIndex(entries, i) && trees[i].Valid()
    }

    ghost predicate TreesOk()
      reads this`entries, trees, entries`left, entries`right, entries`parent, entries`red
    {
      |trees| == PRCNT && forall i | 0 <= i < PRCNT :: TreeOk(i)
    }

    ghost predicate Valid()
      reads this, trees, splays.Values, entries`left, entries`right, entries`parent, entries`red, entries`tleft
      reads entries`tright
    {
      && TreesOk() && Distinct()
      && (forall t <- splays :: SplayOk(t))
      && (forall n <- entries :: SlotOf(n.key) in splays)
    }

    constructor ()
      ensures Valid() && entries == {} && splays == map[] && fresh(trees)
    {
      var planted := Plant();
      trees := planted;
      splays, tnatcnt, entries := map[], map[], {};
      new;
      hide R.NatTree.Valid, OfIndex;
      NoneIndexed();
    }

    /** The slot of a new tunnel, without entries */
    method AddSlot(t: int)
      requires Valid() && t !in splays
      modifies this`splays, this`tnatcnt
      ensures Valid() && entries == old(entries) && t in splays && splays == old(splays)[t := splays[t]]
      ensures fresh(splays[t])
    {
      hide R.NatTree.Valid, S.Splay.Valid;
      var s := new S.Splay();
      assert Of(entries, t) == {};
      splays := splays[t := s];
      tnatcnt := tnatcnt[t := 0];
    }

    /** A slot goes when it has no entries left */
    method RemoveSlot(t: int)
      requires Valid() && t in splays && Of(entries, t) == {}
      modifies this`splays, this`tnatcnt
      ensures Valid() && splays == old(splays) - {t}
    {
      hide R.NatTree.Valid, S.Splay.Valid;
      forall n | n in entries ensures SlotOf(n.key) != t {
        assert SlotOf(n.key) == t ==> n in Of(entries, t);
      }
      splays := splays - {t};
      tnatcnt := tnatcnt - {t};
      forall u | u in splays ensures SplayOk(u) {
        assert old(SplayOk(u));
      }
    }

    /** All tunnels but one are in order */
    ghost predicate OthersOk(t: int)
      reads this, splays.Values, entries`tleft, entries`tright
    {
      forall u <- splays :: u != t ==> SplayOk(u)
    }

    method IntoSplay(n: Nat) returns (ok: bool)
      requires Distinct() && (forall t <- splays :: SplayOk(t))
      requires n !in entries && Admissible(n.key) && SlotOf(n.key) in splays
      modifies splays[SlotOf(n.key)], entries`tleft, entries`tright, n`tleft, n`tright
      ensures OthersOk(SlotOf(n.key)) && splays[SlotOf(n.key)].Valid()
      ensures splays[SlotOf(n.key)].nodes == if ok then Of(entries, SlotOf(n.key)) + {n} else Of(entries, SlotOf(n.key))
      ensures ok <==> forall m <- Of(entries, SlotOf(n.key)) :: SplayRank(m.key) != SplayRank(n.key)
    {
      hide S.Splay.Valid, SplayRank;
      var t := SlotOf(n.key);
      assert SplayOk(t);
      var same := splays[t].Insert(n);
      ok := same == null;
      assert OthersOk(t) by {
        forall u | u in splays && u != t ensures SplayOk(u) {
          assert old(SplayOk(u));
        }
      }
    }

    /** All trees but one are in order */
    ghost predicate OtherTreesOk(i: nat)
      requires |trees| == PRCNT
      reads this`entries, trees, entries`left, entries`right, entries`parent, entries`red
    {
      forall j | 0 <= j < PRCNT && j != i :: TreeOk(j)
    }

    method IntoTree(n: Nat) returns (ok: bool)
      requires Distinct() && TreesOk() && n !in entries && Admissible(n.key)
      modifies trees[Index(n.key.proto)], entries`left, entries`right, entries`parent, entries`red
      modifies n`left, n`right, n`parent, n`red
      ensures OtherTreesOk(Index(n.key.proto)) && trees[Index(n.key.proto)].Valid()
      ensures trees[Index(n.key.proto)].nodes == if ok
        then OfIndex(entries, Index(n.key.proto)) + {n}
        else OfIndex(entries, Index(n.key.proto))
      ensures ok <==> forall m <- OfIndex(entries, Index(n.key.proto)) :: TreeRank(m.key) != TreeRank(n.key)
    {
      hide R.NatTree.Valid, TreeRank;
      var i := Index(n.key.proto);
      assert TreeOk(i);
      var found := trees[i].Insert(n);
      ok := found == null;
      forall j | 0 <= j < PRCNT && j != i ensures TreeOk(j) {
        assert old(TreeOk(j));
      }
    }

    /** A tree that holds n besides its entries loses it */
    method OutOfTree(n: Nat)
      requires Distinct() && OtherTreesOk(Index(n.key.proto)) && trees[Index(n.key.proto)].Valid()
      requires trees[Index(n.key.proto)].nodes == OfIndex(entries, Index(n.key.proto)) + {n}
      modifies trees[Index(n.key.proto)], entries`left, entries`right, entries`parent, entries`red
      modifies n`left, n`right, n`parent, n`red
      ensures OtherTreesOk(Index(n.key.proto)) && trees[Index(n.key.proto)].Valid()
      ensures trees[Index(n.key.proto)].nodes == OfIndex(entries, Index(n.key.proto)) - {n}
    {
      hide R.NatTree.Valid;
      var i := Index(n.key.proto);
      trees[i].Remove(n);
      forall j | 0 <= j < PRCNT && j != i ensures TreeOk(j) {
        assert old(TreeOk(j));
      }
    }

    method Count(n: Nat)
      requires Distinct() && OthersOk(SlotOf(n.key)) && n !in entries && SlotOf(n.key) in splays
      requires SlotOf(n.key) in tnatcnt
      requires splays[SlotOf(n.key)].Valid() && splays[SlotOf(n.key)].nodes == Of(entries, SlotOf(n.key)) + {n}
      requires OtherTreesOk(Index(n.key.proto)) && trees[Index(n.key.proto)].Valid()
      requires trees[Index(n.key.proto)].nodes == OfIndex(entries, Index(n.key.proto)) + {n}
      requires (forall m <- entries :: SlotOf(m.key) in splays)
      requires tnatcnt[SlotOf(n.key)] == |Of(entries, SlotOf(n.key))|
      modifies this`tnatcnt, this`entries
      ensures Valid() && entries == old(entries) + {n}
    {
      hide R.NatTree.Valid, S.Splay.Valid, SlotOf, Index, Of, OfIndex;
      var t := SlotOf(n.key);
      NotAmong(entries, n);
      tnatcnt := tnatcnt[t := tnatcnt[t] + 1];
      entries := entries + {n};
      assert TreesOk() by {
        Entered(old(entries), n);
        forall j | 0 <= j < PRCNT ensures TreeOk(j) {
          if j != Index(n.key.proto) {
            assert old(TreeOk(j));
          }
        }
      }
      assert forall u <- splays :: SplayOk(u) by {
        Entered(old(entries), n);
        forall u | u in splays ensures SplayOk(u) {
          if u != t {
            assert old(SplayOk(u));
          }
        }
      }
    }

    /** The insertions of new_nat, add_snat0 and add_prr; a collision in the second undoes the first */
    method Enter(n: Nat) returns (ok: bool)
      requires Valid() && n !in entries && Admissible(n.key) && SlotOf(n.key) in splays
      modifies this`tnatcnt, this`entries, trees, splays[SlotOf(n.key)], entries`left, entries`right, entries`parent
      modifies entries`red
      modifies entries`tleft, entries`tright, n`left, n`right, n`parent, n`red, n`tleft, n`tright
      ensures Valid() && entries == if ok then old(entries) + {n} else old(entries)
      ensures ok <==>
              && (forall m <- OfIndex(old(entries), Index(n.key.proto)) :: TreeRank(m.key) != TreeRank(n.key))
              && (forall m <- Of(old(entries), SlotOf(n.key)) :: SplayRank(m.key) != SplayRank(n.key))
    {
      hide R.NatTree.Valid, S.Splay.Valid, TreeRank, SplayRank, OthersOk, OtherTreesOk, Distinct, SlotOf, Index, Of,
        OfIndex;
      assert SplayOk(SlotOf(n.key));
      AllOthers(SlotOf(n.key));
      ok := IntoTree(n);
      if !ok {
        NotInTree(n);
        return;
      }
      ok := IntoSplay(n);
      if !ok {
        OutOfTree(n);
        NotAmong(entries, n);
        NotInTree(n);
        return;
      }
      Count(n);
    }

    lemma AllOthers(t: int)
      requires forall u <- splays :: SplayOk(u)
      ensures OthersOk(t)
    {
    }

    lemma NotInTree(n: Nat)
      requires n !in entries && Distinct() && OthersOk(SlotOf(n.key))
      requires OtherTreesOk(Index(n.key.proto)) && trees[Index(n.key.proto)].Valid()
      requires trees[Index(n.key.proto)].nodes == OfIndex(entries, Index(n.key.proto))
      requires SlotOf(n.key) in splays && splays[SlotOf(n.key)].Valid() && SlotOf(n.key) in tnatcnt
      requires splays[SlotOf(n.key)].nodes == Of(entries, SlotOf(n.key))
      requires tnatcnt[SlotOf(n.key)] == |Of(entries, SlotOf(n.key))| && forall m <- entries :: SlotOf(m.key) in splays
      ensures Valid()
    {
      hide R.NatTree.Valid, S.Splay.Valid;
      assert TreeOk(Index(n.key.proto)) && SplayOk(SlotOf(n.key));
    }

    /** The removals of del_nat; neither can fail on an entry of the table */
    method Leave(n: Nat)
      requires Valid() && n in entries
      modifies this`tnatcnt, this`entries, trees, splays[SlotOf(n.key)]
      modifies entries`left, entries`right, entries`parent, entries`red, entries`tleft, entries`tright
      ensures Valid() && entries == old(entries) - {n}
    {
      hide R.NatTree.Valid, S.Splay.Valid, TreeRank, SplayRank, OthersOk, OtherTreesOk, Distinct, SlotOf, Index, Of;
      assert SplayOk(SlotOf(n.key));
      AdmissibleEntry(n);
      TreeWith(n);
      OutOfTree(n);
      OutOfSplay(n);
      Uncount(n);
    }

    lemma TreeWith(n: Nat)
      requires TreesOk() && n in entries
      ensures OtherTreesOk(Index(n.key.proto)) && trees[Index(n.key.proto)].Valid()
      ensures trees[Index(n.key.proto)].nodes == OfIndex(entries, Index(n.key.proto)) + {n}
    {
      assert TreeOk(Index(n.key.proto)) && n in OfIndex(entries, Index(n.key.proto));
    }

    lemma AdmissibleEntry(n: Nat)
      requires TreesOk() && n in entries
      ensures Admissible(n.key)
    {
      assert TreeOk(Index(n.key.proto)) && n in trees[Index(n.key.proto)].nodes;
    }

    method OutOfSplay(n: Nat)
      requires Distinct() && (forall t <- splays :: SplayOk(t))
      requires n in entries && Admissible(n.key) && SlotOf(n.key) in splays
      modifies splays[SlotOf(n.key)], entries`tleft, entries`tright
      ensures OthersOk(SlotOf(n.key)) && splays[SlotOf(n.key)].Valid()
      ensures splays[SlotOf(n.key)].nodes == Of(entries, SlotOf(n.key)) - {n}
    {
      hide S.Splay.Valid, SplayRank;
      var t := SlotOf(n.key);
      assert SplayOk(t);
      forall m | m in splays[t].nodes && SplayRank(m.key) == SplayRank(n.key) ensures m == n {
        splays[t].OneOfRank(m, n);
      }
      var removed := splays[t].Remove(n);
      if !removed {
        assert false;
      }
      assert OthersOk(t) by {
        forall u | u in splays && u != t ensures SplayOk(u) {
          assert old(SplayOk(u));
        }
      }
    }

    method Uncount(n: Nat)
      requires Distinct() && OthersOk(SlotOf(n.key)) && n in entries && SlotOf(n.key) in splays
      requires SlotOf(n.key) in tnatcnt
      requires splays[SlotOf(n.key)].Valid() && splays[SlotOf(n.key)].nodes == Of(entries, SlotOf(n.key)) - {n}
      requires OtherTreesOk(Index(n.key.proto)) && trees[Index(n.key.proto)].Valid()
      requires trees[Index(n.key.proto)].nodes == OfIndex(entries, Index(n.key.proto)) - {n}
      requires (forall m <- entries :: SlotOf(m.key) in splays)
      requires tnatcnt[SlotOf(n.key)] == |Of(entries, SlotOf(n.key))|
      modifies this`tnatcnt, this`entries
      ensures Valid() && entries == old(entries) - {n}
    {
      hide R.NatTree.Valid, S.Splay.Valid, SlotOf, Index;
      var t := SlotOf(n.key);
      assert n in Of(entries, t);
      if tnatcnt[t] == 0 {
        assert false;
      }
      tnatcnt := tnatcnt[t := tnatcnt[t] - 1];
      entries := entries - {n};
      Left(old(entries), n);
      forall u | u in splays ensures SplayOk(u) {
        if u != SlotOf(n.key) {
          assert old(SplayOk(u));
        }
      }
      forall j | 0 <= j < PRCNT ensures TreeOk(j) {
        if j != Index(n.key.proto) {
          assert old(TreeOk(j));
        }
      }
    }

    /** The lookup of natin: an entry of the tunnel that matches the template, if there is one */
    method FindIn(k: Key) returns (found: Nat?)
      requires Valid() && SlotOf(k) in splays && Template(k)
      modifies splays[SlotOf(k)], entries`tleft, entries`tright
      ensures Valid()
      ensures found != null ==> found in Of(entries, SlotOf(k)) && SplayCompareWild(k, found.key) == 0
      ensures found == null && S.Unhidden(k, Of(entries, SlotOf(k))) ==>
        forall m <- Of(entries, SlotOf(k)) :: SplayCompareWild(k, m.key) != 0
    {
      hide R.NatTree.Valid, S.Splay.Valid, S.Unhidden, S.Searchable, SplayCompareWild;
      var t := SlotOf(k);
      assert SplayOk(t);
      if S.Unhidden(k, Of(entries, t)) {
        splays[t].SearchableNodes(k);
      }
      found := splays[t].Find(k, 0, false, false, 0);
      forall u | u in splays ensures SplayOk(u) {
        assert old(SplayOk(u));
      }
    }

    /** The entry becomes the root of its tunnel's splay tree */
    method Bring(n: Nat)
      requires Valid() && n in entries
      modifies splays[SlotOf(n.key)], entries`tleft, entries`tright
      ensures Valid()
    {
      hide R.NatTree.Valid, S.Splay.Valid;
      var t := SlotOf(n.key);
      assert SplayOk(t) && n in Of(entries, t);
      splays[t].Bring(n);
      forall u | u in splays ensures SplayOk(u) {
        assert old(SplayOk(u));
      }
    }

    /** The tree lookup of natout */
    lemma OneOfRank(m: Nat, n: Nat)
      requires Valid() && m in entries && n in entries && m.key.proto == n.key.proto
      requires TreeRank(m.key) == TreeRank(n.key)
      ensures m == n
    {
      hide R.NatTree.Valid, S.Splay.Valid, TreeRank;
      assert TreeOk(Index(m.key.proto));
      trees[Index(m.key.proto)].OneOfRank(m, n);
    }

    /** What nat_tree_find_wild finds in the tree of the packet's protocol */
    ghost function Sought(k: Key): Nat?
      reads trees
    {
      if |trees| == PRCNT then trees[Index(k.proto)].Sought(k) else null
    }

    lemma SoughtFinds(k: Key)
      requires Valid() && Template(k) && R.Unmixed(entries)
      ensures Sought(k) != null ==>
        Sought(k) in OfIndex(entries, Index(k.proto)) && TreeCompareWild(k, Sought(k).key) == 0
      ensures Sought(k) == null ==> forall m <- OfIndex(entries, Index(k.proto)) :: TreeCompareWild(k, m.key) != 0
    {
      hide R.NatTree.Valid, S.Splay.Valid, TreeCompareWild;
      assert TreeOk(Index(k.proto));
      trees[Index(k.proto)].SoughtFinds(k);
    }

    lemma MiddleSought(k: Key, lo: Nat, mid: Nat, hi: Nat)
      requires Valid() && OfIndex(entries, Index(k.proto)) == {lo, mid, hi} && TreeCompareWild(k, mid.key) == 0
      requires TreeRank(lo.key) < TreeRank(mid.key) < TreeRank(hi.key)
      ensures Sought(k) == mid
    {
      hide R.NatTree.Valid, S.Splay.Valid, TreeCompareWild, TreeRank;
      assert TreeOk(Index(k.proto));
      trees[Index(k.proto)].MiddleSought(k, lo, mid, hi);
    }

    method FindOut(k: Key) returns (found: Nat?)
      requires Valid() && Template(k) && R.Unmixed(entries)
      ensures found == Sought(k)
      ensures found != null ==> found in OfIndex(entries, Index(k.proto)) && TreeCompareWild(k, found.key) == 0
      ensures found == null ==> forall m <- OfIndex(entries, Index(k.proto)) :: TreeCompareWild(k, m.key) != 0
    {
      hide R.NatTree.Valid, S.Splay.Valid, TreeCompareWild;
      assert TreeOk(Index(k.proto));
      found := trees[Index(k.proto)].FindWild(k);
    }

    /** The root of a tunnel's splay tree is one of its entries, null only if it has none */
    lemma RootOf(t: int)
      requires Valid() && t in splays
      ensures splays[t].root != null ==> splays[t].root in Of(entries, t)
      ensures splays[t].root == null ==> Of(entries, t) == {}
    {
      assert SplayOk(t);
      splays[t].RootEntryOf();
    }

    /** What the checking code of the program looks for: every entry of a tree is the one its
        tunnel's splay tree finds */
    method CheckEntry(n: Nat) returns (found: Nat?)
      requires Valid() && n in entries
      ensures found == n
    {
      hide R.NatTree.Valid, S.Splay.Valid, SplayCompareAbs, SplayRank;
      AdmissibleEntry(n);
      var s := splays[SlotOf(n.key)];
      assert SplayOk(SlotOf(n.key));
      s.SearchableExactly(n.key);
      found := s.ReadOnlyFind(n.key, true);
      SplayOrder(n.key, n.key);
      if found != null {
        AdmissibleEntry(found);
        SplayOrder(n.key, found.key);
        s.OneOfRank(found, n);
      }
    }
  }

  ghost function Of(entries: set<Nat>, t: int): set<Nat> { set n | n in entries && SlotOf(n.key) == t }

  ghost function OfIndex(entries: set<Nat>, i: nat): set<Nat> { set n | n in entries && Index(n.key.proto) == i }

  lemma Entered(entries: set<Nat>, n: Nat)
    ensures forall t :: Of(entries + {n}, t) == if t == SlotOf(n.key) then Of(entries, t) + {n} else Of(entries, t)
    ensures forall i: nat ::
      OfIndex(entries + {n}, i) == if i == Index(n.key.proto) then OfIndex(entries, i) + {n} else OfIndex(entries, i)
  {
  }

  lemma NoneIndexed()
    ensures forall i: nat :: OfIndex({}, i) == {}
  {
  }

  lemma NotAmong(entries: set<Nat>, n: Nat)
    requires n !in entries
    ensures OfIndex(entries, Index(n.key.proto)) - {n} == OfIndex(entries, Index(n.key.proto))
    ensures n !in Of(entries, SlotOf(n.key))
  {
  }

  lemma Left(entries: set<Nat>, n: Nat)
    requires n in entries
    ensures forall t :: Of(entries - {n}, t) == if t == SlotOf(n.key) then Of(entries, t) - {n} else Of(entries, t)
    ensures forall i: nat ::
      OfIndex(entries - {n}, i) == if i == Index(n.key.proto) then OfIndex(entries, i) - {n} else OfIndex(entries, i)
  {
  }
}
