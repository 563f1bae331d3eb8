/**
  The direct-mapped caches in front of the NAT trees and of the tunnel tree.
 */
module Caches {
  import opened NatEntry
  import P = PatriciaTree

  /** What an entry and every packet for it are hashed by */
  datatype HashKey = HashKey(proto: Byte, nsrc: Quad, nport: Pair)

  function HashKeyOf(k: Key): HashKey { HashKey(k.proto, k.nsrc, k.nport) }

  class NatCache {
    var slots: array<Nat?>
    /** jhash_nat, with the random value of the day */
    var hash: HashKey -> nat

    ghost predicate Ok(live: set<Nat>)
      reads this, slots, live`hash
    {
      slots.Length > 0 && forall i | 0 <= i < slots.Length :: SlotOk(slots[i], i, live)
    }

    /** What is in a slot is live, knows the slot, and hashes to it */
    ghost predicate SlotOk(n: Nat?, i: nat, live: set<Nat>)
      requires slots.Length > 0
      reads this, live`hash
    {
      n != null ==> n in live && n.hash == i && hash(HashKeyOf(n.key)) % slots.Length == i
    }

    /** The slot of an entry or a packet, and what it holds */
    function IndexOf(k: Key): (i: nat)
      requires slots.Length > 0
      reads this
      ensures i < slots.Length
    {
      hash(HashKeyOf(k)) % slots.Length
    }

    function At(k: Key): Nat?
      requires slots.Length > 0
      reads this, slots
    {
      slots[IndexOf(k)]
    }

    constructor (size: nat, hash: HashKey -> nat)
      requires size > 0
      ensures forall live: set<Nat> :: Ok(live)
      ensures fresh(slots)
    {
      slots := new Nat?[size](_ => null);
      this.hash := hash;
    }

    /** Every 256 seconds the table may be replaced by an empty one of another size, with another hash */
    method Resize(size: nat, hash: HashKey -> nat)
      requires size > 0
      modifies this
      ensures fresh(slots) && slots.Length == size && this.hash == hash && forall live: set<Nat> :: Ok(live)
      ensures forall i | 0 <= i < slots.Length :: slots[i] == null
    {
      slots := new Nat?[size](_ => null);
      this.hash := hash;
    }

    /** New entries do not matter */
    lemma Grows(live: set<Nat>, more: set<Nat>)
      requires Ok(live)
      ensures Ok(live + more)
    {
      forall i | 0 <= i < slots.Length ensures SlotOk(slots[i], i, live + more) {
        assert SlotOk(slots[i], i, live);
      }
    }

    /** The clearing in del_nat: no slot is left pointing at the entry that is freed */
    method Forget(ghost live: set<Nat>, n: Nat)
      requires Ok(live) && n in live
      modifies slots
      ensures Ok(live) && Ok(live - {n})
      ensures forall i | 0 <= i < slots.Length :: slots[i] == if old(slots[i]) == n then null else old(slots[i])
    {
      forall i | 0 <= i < slots.Length && slots[i] == n ensures i == n.hash {
        assert SlotOk(slots[i], i, live);
      }
      if n.hash < slots.Length && slots[n.hash] == n {
        slots[n.hash] := null;
      }
      forall i | 0 <= i < slots.Length ensures SlotOk(slots[i], i, live) && SlotOk(slots[i], i, live - {n}) {
        assert old(SlotOk(slots[i], i, live));
      }
    }
  }

  // ---------- Tunnels ----------

  class TunnelCache {
    var slots: array<P.Tunnel?>
    /** jhash_tunnel */
    var hash: P.Octets -> nat

    ghost predicate SlotOk(t: P.Tunnel?, i: nat, live: set<P.Tunnel>)
      requires slots.Length > 0
      reads this, live`hash
    {
      t != null ==> t in live && t.hash == i && hash(t.key) % slots.Length == i
    }

    ghost predicate Ok(live: set<P.Tunnel>)
      reads this, slots, live`hash
    {
      slots.Length > 0 && forall i | 0 <= i < slots.Length :: SlotOk(slots[i], i, live)
    }

    constructor (size: nat, hash: P.Octets -> nat)
      requires size > 0
      ensures forall live: set<P.Tunnel> :: Ok(live)
      ensures fresh(slots)
    {
      slots := new P.Tunnel?[size](_ => null);
      this.hash := hash;
    }

    method Resize(size: nat, hash: P.Octets -> nat)
      requires size > 0
      modifies this
      ensures fresh(slots) && slots.Length == size && this.hash == hash && forall live: set<P.Tunnel> :: Ok(live)
    {
      slots := new P.Tunnel?[size](_ => null);
      this.hash := hash;
    }

    /** tunnel_lookup: what the tree holds, whatever has been looked up, removed or resized before */
    method Lookup(tree: P.TunnelTree, peer: P.Octets) returns (t: P.Tunnel?)
      requires tree.Valid() && Ok(tree.Held()) && |peer| == 16
      modifies slots, tree.nodes`hash
      ensures tree.Valid() && tree.Held() == old(tree.Held()) && Ok(tree.Held())
      ensures t != null ==> t in tree.Held() && t.key == peer
      ensures t == null ==> forall x <- tree.Held() :: x.key != peer
    {
      hide P.TunnelTree.Valid;
      var i := hash(peer) % slots.Length;
      t := slots[i];
      if t != null {
        assert SlotOk(t, i, tree.Held());
        if t.key == peer {
          return;
        }
      }
      t := tree.Find(peer);
      if t == null {
        return;
      }
      HeldAreNodes(tree);
      NoteHash(tree, t, i);
      slots[i] := t;
    }
  }

  /** del_tunnel, as far as the tree and its cache go: no slot is left pointing at the tunnel that is freed */
  method DelTunnel(c: TunnelCache, tree: P.TunnelTree, peer: P.Octets) returns (ok: bool)
    requires tree.Valid() && c.Ok(tree.Held()) && |peer| == 16
    modifies c.slots, tree, tree.nodes`hash, tree.nodes`left, tree.nodes`right, tree.nodes`parent
    ensures tree.Valid() && c.Ok(tree.Held())
    ensures ok <==> exists x :: x in old(tree.Held()) && x.key == peer
    ensures tree.Held() == set x | x in old(tree.Held()) && x.key != peer
  {
    hide P.TunnelTree.Valid, P.TunnelTree.Held;
    var t := c.Lookup(tree, peer);
    if t == null {
      return false;
    }
    forall i | 0 <= i < c.slots.Length && c.slots[i] == t ensures i == t.hash {
      assert c.SlotOk(c.slots[i], i, tree.Held());
    }
    ghost var live := tree.Held();
    forall x | x in live && x.key == peer ensures x == t {
      tree.OneTunnelPerKey(x, t);
    }
    if t.hash < c.slots.Length && c.slots[t.hash] == t {
      c.slots[t.hash] := null;
    }
    tree.Remove(t);
    forall i | 0 <= i < c.slots.Length ensures c.SlotOk(c.slots[i], i, tree.Held()) {
      assert c.slots[i] != t;
    }
    ok := true;
  }

  lemma HeldAreNodes(tree: P.TunnelTree)
    requires tree.Valid()
    ensures tree.Held() <= tree.nodes
  {
    if tree.shape.Some? {
      P.TunnelsAreNodes(tree.shape.value);
    }
  }

  method NoteHash(tree: P.TunnelTree, t: P.Tunnel, hash: nat)
    requires tree.Valid() && t in tree.nodes
    modifies t`hash
    ensures tree.Valid() && t.hash == hash
  {
    hide P.At, P.TrieOk;
    ghost var mem := tree.Mem();
    t.hash := hash;
    assert tree.Mem() == mem;
  }
}
