/**
  The tunnel tree: a Patricia tree over 128-bit keys with parent links, and the map
  from keys to tunnels that it implements.
 */
module PatriciaTree {
  import opened Options

  const MAXTUNBIT: nat := 128

  type Octets = seq<bv8>

  /** struct tunnel, as far as the tree and the hash cache go; a glue node only branches */
  class Tunnel {
    const key: Octets
    const glue: bool
    var left: Tunnel?
    var right: Tunnel?
    var parent: Tunnel?
    var bit: nat
    var hash: nat

    constructor (key: Octets)
      ensures this.key == key && !glue && left == right == parent == null && bit == 0 && hash == 0
    {
      this.key, glue := key, false;
      left, right, parent, bit, hash := null, null, null, 0, 0;
    }

    constructor Glue()
      ensures glue && left == right == parent == null && bit == 0
    {
      key, glue := [], true;
      left, right, parent, bit, hash := null, null, null, 0, 0;
    }
  }

  // ---------- Keys ----------

  /** 0x80 >> j */
  function Mask(j: nat): bv8 {
    if j == 0 then 0x80 else if j == 1 then 0x40 else if j == 2 then 0x20 else if j == 3 then 0x10
    else if j == 4 then 0x08 else if j == 5 then 0x04 else if j == 6 then 0x02 else 0x01
  }

  predicate KeyBit(key: Octets, i: nat)
    requires |key| == 16 && i < MAXTUNBIT
  {
    key[i / 8] & Mask(i % 8) != 0
  }

  /** The keys have their first n bits in common */
  ghost predicate SameUpTo(a: Octets, b: Octets, n: nat)
    requires |a| == |b| == 16 && n <= MAXTUNBIT
  {
    forall i | 0 <= i < n :: KeyBit(a, i) == KeyBit(b, i)
  }

  predicate OctetBit(x: bv8, j: nat) { x & Mask(j) != 0 }

  lemma XorBit(a: bv8, b: bv8, j: nat)
    requires j < 8
    ensures (a ^ b) & Mask(j) == 0 <==> OctetBit(a, j) == OctetBit(b, j)
  {
  }

  /** An octet without a set bit is zero */
  lemma NoBit(r: bv8)
    requires forall j | 0 <= j < 8 :: r & Mask(j) == 0
    ensures r == 0
  {
    assert r & Mask(0) == 0 && r & Mask(1) == 0 && r & Mask(2) == 0 && r & Mask(3) == 0;
    assert r & Mask(4) == 0 && r & Mask(5) == 0 && r & Mask(6) == 0 && r & Mask(7) == 0;
  }

  /** The highest bit two octets differ in, 8 if there is none */
  method OctetDifference(a: bv8, b: bv8) returns (j: nat)
    ensures j <= 8 && (j == 8 <==> a == b)
    ensures forall k | 0 <= k < j :: OctetBit(a, k) == OctetBit(b, k)
    ensures j < 8 ==> OctetBit(a, j) != OctetBit(b, j)
  {
    hide Mask, OctetBit;
    var r := a ^ b;
    if r == 0 {
      SameOctet(a, b);
      return 8;
    }
    j := 0;
    while j < 8 && r & Mask(j) == 0
      invariant j <= 8 && forall k | 0 <= k < j :: r & Mask(k) == 0
    {
      j := j + 1;
    }
    forall k | 0 <= k <= j && k < 8 ensures r & Mask(k) == 0 <==> OctetBit(a, k) == OctetBit(b, k) {
      XorBit(a, b, k);
    }
    if j == 8 {
      NoBit(r);
    }
    SameOctet(a, b);
  }

  lemma SameOctet(a: bv8, b: bv8)
    ensures a ^ b == 0 <==> a == b
  {
  }

  lemma SameFurther(a: Octets, b: Octets, i: nat, j: nat)
    requires |a| == |b| == 16 && i < 16 && j <= 8 && SameUpTo(a, b, i * 8)
    requires forall k | 0 <= k < j :: OctetBit(a[i], k) == OctetBit(b[i], k)
    ensures SameUpTo(a, b, i * 8 + j)
  {
    hide Mask;
    forall n | 0 <= n < i * 8 + j ensures KeyBit(a, n) == KeyBit(b, n) {
      if n >= i * 8 {
        assert n / 8 == i && n % 8 == n - i * 8;
        assert OctetBit(a[i], n - i * 8) == OctetBit(b[i], n - i * 8);
      }
    }
  }

  /** The first bit the keys differ in, 128 if there is none */
  method FirstDifference(a: Octets, b: Octets) returns (differ: nat)
    requires |a| == |b| == 16
    ensures differ <= MAXTUNBIT && SameUpTo(a, b, differ)
    ensures differ < MAXTUNBIT ==> KeyBit(a, differ) != KeyBit(b, differ)
    ensures differ == MAXTUNBIT ==> a == b
  {
    hide Mask;
    differ := 0;
    var i := 0;
    while i * 8 < MAXTUNBIT
      invariant 0 <= i <= 16 && differ == i * 8 && forall k | 0 <= k < i :: a[k] == b[k]
      invariant SameUpTo(a, b, differ)
    {
      var j := OctetDifference(a[i], b[i]);
      SameFurther(a, b, i, j);
      differ := i * 8 + j;
      if j < 8 {
        assert differ / 8 == i && differ % 8 == j;
        return;
      }
      i := i + 1;
    }
  }

  // ---------- The tree in memory ----------

  datatype Cell = Cell(left: Tunnel?, right: Tunnel?, parent: Tunnel?, bit: nat)

  type Memory = map<Tunnel, Cell>

  datatype Trie = Leaf(t: Tunnel) | Fork(n: Tunnel, bit: nat, l: Trie, r: Trie)

  /** The way up from a subtree: each node with the side the subtree hangs on and the other side */
  datatype Path = Top | Step(up: Path, n: Tunnel, bit: nat, onRight: bool, other: Trie)

  ghost function Root(t: Trie): Tunnel { if t.Leaf? then t.t else t.n }

  ghost function BitOf(t: Trie): nat { if t.Leaf? then MAXTUNBIT else t.bit }

  ghost function Tunnels(t: Trie): set<Tunnel> { if t.Leaf? then {t.t} else Tunnels(t.l) + Tunnels(t.r) }

  ghost function Nodes(t: Trie): set<Tunnel> { if t.Leaf? then {t.t} else {t.n} + Nodes(t.l) + Nodes(t.r) }

  ghost function PathNodes(p: Path): set<Tunnel> { if p.Top? then {} else {p.n} + PathNodes(p.up) + Nodes(p.other) }

  ghost function Joined(n: Tunnel, bit: nat, onRight: bool, t: Trie, other: Trie): Trie {
    if onRight then Fork(n, bit, other, t) else Fork(n, bit, t, other)
  }

  ghost function Plug(p: Path, t: Trie): Trie {
    if p.Top? then t else Plug(p.up, Joined(p.n, p.bit, p.onRight, t, p.other))
  }

  ghost function Above(p: Path): Tunnel? { if p.Top? then null else p.n }

  ghost predicate Apart(t: Trie) {
    t.Fork? ==> Apart(t.l) && Apart(t.r) && Nodes(t.l) !! Nodes(t.r) && t.n !in Nodes(t.l) && t.n !in Nodes(t.r)
  }

  ghost predicate PathApart(p: Path) {
    p.Step? ==>
      PathApart(p.up) && Apart(p.other) && PathNodes(p.up) !! Nodes(p.other)
      && p.n !in PathNodes(p.up) && p.n !in Nodes(p.other)
  }

  ghost predicate Linked(mem: Memory, parent: Tunnel?, t: Trie)
    decreases t
  {
    match t
    case Leaf(x) => !x.glue && x in mem && mem[x] == Cell(null, null, parent, MAXTUNBIT)
    case Fork(n, bit, l, r) =>
      && n.glue && n in mem && mem[n] == Cell(Root(l), Root(r), parent, bit)
      && Linked(mem, n, l) && Linked(mem, n, r)
  }

  /** The nodes above a subtree with this root */
  ghost predicate PathLinked(mem: Memory, p: Path, child: Tunnel) {
    p.Step? ==>
      && p.n.glue && p.n in mem && mem[p.n].parent == Above(p.up) && mem[p.n].bit == p.bit
      && (if p.onRight then mem[p.n].right == child && mem[p.n].left == Root(p.other)
          else mem[p.n].left == child && mem[p.n].right == Root(p.other))
      && Linked(mem, p.n, p.other) && PathLinked(mem, p.up, p.n)
  }

  ghost function Outermost(p: Path, child: Tunnel): Tunnel {
    if p.Top? then child else Outermost(p.up, p.n)
  }

  /** t hangs in memory below the path p */
  ghost predicate At(mem: Memory, root: Tunnel?, p: Path, t: Trie) {
    && root == Outermost(p, Root(t)) && Linked(mem, Above(p), t) && PathLinked(mem, p, Root(t))
    && Apart(t) && PathApart(p) && Nodes(t) !! PathNodes(p)
  }

  ghost predicate Agree(mem: Memory, mem': Memory, s: set<Tunnel>) {
    forall x | x in s && x in mem :: x in mem' && mem'[x] == mem[x]
  }

  lemma {:induction false} LinkedFrame(mem: Memory, mem': Memory, parent: Tunnel?, t: Trie)
    requires Linked(mem, parent, t) && Agree(mem, mem', Nodes(t))
    ensures Linked(mem', parent, t)
    decreases t
  {
    if t.Fork? {
      LinkedFrame(mem, mem', t.n, t.l);
      LinkedFrame(mem, mem', t.n, t.r);
    }
  }

  lemma {:induction false} PathFrame(mem: Memory, mem': Memory, p: Path, child: Tunnel)
    requires PathLinked(mem, p, child) && Agree(mem, mem', PathNodes(p))
    ensures PathLinked(mem', p, child)
    decreases p
  {
    if p.Step? {
      LinkedFrame(mem, mem', p.n, p.other);
      PathFrame(mem, mem', p.up, p.n);
    }
  }

  /** One step down to a side */
  ghost function Side(t: Trie, onRight: bool): Trie
    requires t.Fork?
  {
    if onRight then t.r else t.l
  }

  ghost function Further(p: Path, t: Trie, onRight: bool): Path
    requires t.Fork?
  {
    Step(p, t.n, t.bit, onRight, Side(t, !onRight))
  }

  lemma DownAt(mem: Memory, root: Tunnel?, p: Path, t: Trie, onRight: bool)
    requires t.Fork? && At(mem, root, p, t)
    ensures At(mem, root, Further(p, t, onRight), Side(t, onRight))
    ensures Plug(Further(p, t, onRight), Side(t, onRight)) == Plug(p, t)
  {
  }

  lemma UpAt(mem: Memory, root: Tunnel?, p: Path, t: Trie)
    requires p.Step? && At(mem, root, p, t)
    ensures At(mem, root, p.up, Joined(p.n, p.bit, p.onRight, t, p.other))
  {
  }

  lemma {:induction false} Closed(mem: Memory, root: Tunnel?, p: Path, t: Trie)
    requires At(mem, root, p, t)
    ensures At(mem, root, Top, Plug(p, t))
    ensures Nodes(Plug(p, t)) == Nodes(t) + PathNodes(p)
    decreases p
  {
    if p.Step? {
      UpAt(mem, root, p, t);
      Closed(mem, root, p.up, Joined(p.n, p.bit, p.onRight, t, p.other));
    }
  }

  // ---------- What the tree means ----------

  /** Keys of full length that agree below each fork up to its bit and part there, bits growing downwards */
  ghost predicate TrieOk(t: Trie) {
    match t
    case Leaf(x) => |x.key| == 16
    case Fork(n, bit, l, r) =>
      && TrieOk(l) && TrieOk(r) && bit < BitOf(l) && bit < BitOf(r) && bit < MAXTUNBIT
      && (forall x | x in Tunnels(l) + Tunnels(r) :: |x.key| == 16)
      && (forall x, y | x in Tunnels(l) && y in Tunnels(r) ::
            SameUpTo(x.key, y.key, bit) && !KeyBit(x.key, bit) && KeyBit(y.key, bit))
  }

  ghost predicate Keyed(t: Trie) { forall x <- Tunnels(t) :: |x.key| == 16 }

  lemma {:induction false} AllAgree(t: Trie, x: Tunnel, y: Tunnel)
    requires TrieOk(t) && x in Tunnels(t) && y in Tunnels(t)
    ensures |x.key| == |y.key| == 16 && SameUpTo(x.key, y.key, BitOf(t))
    decreases t
  {
    if t.Fork? {
      if x in Tunnels(t.l) && y in Tunnels(t.l) {
        AllAgree(t.l, x, y);
      } else if x in Tunnels(t.r) && y in Tunnels(t.r) {
        AllAgree(t.r, x, y);
      }
    }
  }

  /** Two tunnels of a tree never have the same key */
  lemma {:induction false} KeysDiffer(t: Trie, x: Tunnel, y: Tunnel)
    requires TrieOk(t) && x in Tunnels(t) && y in Tunnels(t) && x.key == y.key
    ensures x == y
    decreases t
  {
    if t.Fork? {
      if x in Tunnels(t.l) && y in Tunnels(t.l) {
        KeysDiffer(t.l, x, y);
      } else if x in Tunnels(t.r) && y in Tunnels(t.r) {
        KeysDiffer(t.r, x, y);
      }
    }
  }

  /** The side a key takes at a fork is the side of every tunnel with that key */
  lemma SideOf(t: Trie, key: Octets, x: Tunnel)
    requires TrieOk(t) && t.Fork? && x in Tunnels(t) && |key| == 16 && x.key == key
    ensures x in Tunnels(Side(t, KeyBit(key, t.bit)))
  {
    Inhabited(t.l);
    Inhabited(t.r);
    var y :| y in Tunnels(t.l);
    var z :| z in Tunnels(t.r);
    if x in Tunnels(t.l) {
      assert !KeyBit(x.key, t.bit) && KeyBit(z.key, t.bit);
    } else {
      assert KeyBit(x.key, t.bit) && !KeyBit(y.key, t.bit);
    }
  }

  lemma {:induction false} Inhabited(t: Trie)
    ensures Tunnels(t) != {}
  {
    if t.Fork? {
      Inhabited(t.l);
    }
  }

  /** The key takes the path's side at each of its forks */
  ghost predicate KeyOn(p: Path, key: Octets)
    requires |key| == 16
  {
    p.Step? ==> p.bit < MAXTUNBIT && KeyBit(key, p.bit) == p.onRight && KeyOn(p.up, key)
  }

  /** What is plugged into an admissible tree is admissible */
  lemma {:induction false} PluggedOk(p: Path, t: Trie)
    requires TrieOk(Plug(p, t))
    ensures TrieOk(t) && (p.Step? ==> p.bit < BitOf(t))
    decreases p
  {
    if p.Step? {
      PluggedOk(p.up, Joined(p.n, p.bit, p.onRight, t, p.other));
    }
  }

  ghost function PathTunnels(p: Path): set<Tunnel> {
    if p.Top? then {} else PathTunnels(p.up) + Tunnels(p.other)
  }

  lemma {:induction false} PluggedTunnels(p: Path, t: Trie)
    ensures Tunnels(Plug(p, t)) == PathTunnels(p) + Tunnels(t)
    decreases p
  {
    if p.Step? {
      PluggedTunnels(p.up, Joined(p.n, p.bit, p.onRight, t, p.other));
    }
  }

  lemma {:induction false} TunnelsAreNodes(t: Trie)
    ensures Tunnels(t) <= Nodes(t)
  {
    if t.Fork? {
      TunnelsAreNodes(t.l);
      TunnelsAreNodes(t.r);
    }
  }

  lemma {:induction false} PathTunnelsAreNodes(p: Path)
    ensures PathTunnels(p) <= PathNodes(p)
  {
    if p.Step? {
      TunnelsAreNodes(p.other);
      PathTunnelsAreNodes(p.up);
    }
  }

  /** A tunnel may join a subtree if it is on the path and agrees with the subtree beyond it */
  lemma {:induction false} GrownOk(p: Path, t: Trie, u: Trie, x: Tunnel, y: Tunnel)
    requires TrieOk(Plug(p, t)) && TrieOk(u) && |x.key| == 16 && y in Tunnels(t) && |y.key| == 16
    requires Tunnels(u) == Tunnels(t) + {x}
    requires p.Step? ==> p.bit < BitOf(u) && KeyOn(p, x.key) && SameUpTo(x.key, y.key, p.bit)
    ensures TrieOk(Plug(p, u))
    decreases p
  {
    hide TrieOk;
    PluggedOk(p, t);
    if p.Step? {
      var t', u' := Joined(p.n, p.bit, p.onRight, t, p.other), Joined(p.n, p.bit, p.onRight, u, p.other);
      PluggedOk(p.up, t');
      JoinedOk(p, t, u, x, y);
      GrownOk(p.up, t', u', x, y);
    }
  }

  lemma JoinedOk(p: Path, t: Trie, u: Trie, x: Tunnel, y: Tunnel)
    requires p.Step? && TrieOk(Joined(p.n, p.bit, p.onRight, t, p.other)) && TrieOk(u)
    requires |x.key| == 16 && y in Tunnels(t) && |y.key| == 16 && Tunnels(u) == Tunnels(t) + {x}
    requires p.bit < BitOf(u) && p.bit < MAXTUNBIT && KeyBit(x.key, p.bit) == p.onRight && SameUpTo(x.key, y.key, p.bit)
    ensures TrieOk(Joined(p.n, p.bit, p.onRight, u, p.other))
  {
    forall z | z in Tunnels(p.other)
      ensures |z.key| == 16 && SameUpTo(x.key, z.key, p.bit) && KeyBit(z.key, p.bit) != p.onRight
    {
      assert SameUpTo(z.key, y.key, p.bit);
    }
  }

  /** A subtree may lose tunnels and move its first bit down */
  lemma {:induction false} ShrunkOk(p: Path, t: Trie, u: Trie)
    requires TrieOk(Plug(p, t)) && TrieOk(u) && Tunnels(u) <= Tunnels(t) && BitOf(t) <= BitOf(u)
    ensures TrieOk(Plug(p, u))
    decreases p
  {
    if p.Step? {
      var t', u' := Joined(p.n, p.bit, p.onRight, t, p.other), Joined(p.n, p.bit, p.onRight, u, p.other);
      PluggedOk(p.up, t');
      ShrunkOk(p.up, t', u');
    }
  }

  // ---------- Changes in memory ----------

  ghost function CellFor(c: Cell, onRight: bool, child: Tunnel?): Cell {
    if onRight then c.(right := child) else c.(left := child)
  }

  /** Another subtree takes the place at the end of a path */
  lemma PathRehung(mem: Memory, mem': Memory, p: Path, child: Tunnel, child': Tunnel)
    requires PathLinked(mem, p, child) && PathApart(p)
    requires Agree(mem, mem', PathNodes(p) - {Above(p)})
    requires p.Step? ==> p.n in mem' && mem'[p.n] == CellFor(mem[p.n], p.onRight, child')
    ensures PathLinked(mem', p, child')
    ensures Outermost(p, child') == if p.Top? then child' else Outermost(p, child)
  {
    if p.Step? {
      LinkedFrame(mem, mem', p.n, p.other);
      PathFrame(mem, mem', p.up, p.n);
    }
  }

  /** The parent link of a subtree's root changes */
  lemma Reparented(mem: Memory, mem': Memory, parent: Tunnel?, parent': Tunnel?, t: Trie)
    requires Linked(mem, parent, t) && Apart(t) && Agree(mem, mem', Nodes(t) - {Root(t)})
    requires Root(t) in mem' && mem'[Root(t)] == mem[Root(t)].(parent := parent')
    ensures Linked(mem', parent', t)
  {
    if t.Fork? {
      LinkedFrame(mem, mem', t.n, t.l);
      LinkedFrame(mem, mem', t.n, t.r);
    }
  }

  /** A new leaf and the subtree that was at the end of the path, under a new fork */
  lemma Forked(mem: Memory, root: Tunnel?, p: Path, t: Trie, mem': Memory, root': Tunnel?, x: Tunnel, g: Tunnel,
      bit: nat, onRight: bool)
    requires At(mem, root, p, t) && x !in Nodes(t) + PathNodes(p) && g !in Nodes(t) + PathNodes(p) && x != g && g.glue
    requires !x.glue
    requires Agree(mem, mem', Nodes(t) + PathNodes(p) - {Root(t)} - {Above(p)})
    requires Root(t) in mem' && mem'[Root(t)] == mem[Root(t)].(parent := g)
    requires p.Step? ==> root' == root && p.n in mem' && mem'[p.n] == CellFor(mem[p.n], p.onRight, g)
    requires p.Top? ==> root' == g
    requires x in mem' && mem'[x] == Cell(null, null, g, MAXTUNBIT)
    requires g in mem' && mem'[g] == Cell(if onRight then Root(t) else x, if onRight then x else Root(t), Above(p), bit)
    ensures At(mem', root', p, Joined(g, bit, onRight, Leaf(x), t))
  {
    Reparented(mem, mem', Above(p), g, t);
    PathRehung(mem, mem', p, Root(t), g);
  }

  /** The end of the path and its leaf give way to the other side */
  lemma Unforked(mem: Memory, root: Tunnel?, p: Path, x: Tunnel, mem': Memory, root': Tunnel?)
    requires p.Step? && At(mem, root, p, Leaf(x))
    requires Agree(mem, mem', PathNodes(p) - {p.n} - {Root(p.other)} - {Above(p.up)})
    requires Root(p.other) in mem' && mem'[Root(p.other)] == mem[Root(p.other)].(parent := Above(p.up))
    requires p.up.Step? ==>
      && root' == root && p.up.n in mem && p.up.n in mem'
      && mem'[p.up.n] == CellFor(mem[p.up.n], p.up.onRight, Root(p.other))
    requires p.up.Top? ==> root' == Root(p.other)
    ensures At(mem', root', p.up, p.other)
  {
    Reparented(mem, mem', p.n, Above(p.up), p.other);
    PathRehung(mem, mem', p.up, p.n, Root(p.other));
  }

  class TunnelTree {
    var root: Tunnel?
    ghost var shape: Option<Trie>
    ghost var nodes: set<Tunnel>

    ghost function Mem(): Memory
      reads this`nodes, nodes
    {
      map x | x in nodes :: Cell(x.left, x.right, x.parent, x.bit)
    }

    /** The path p leads to t, and both together are the tree */
    ghost predicate Open(p: Path, t: Trie)
      reads this, nodes
    {
      && At(Mem(), root, p, t) && nodes == Nodes(t) + PathNodes(p)
      && shape == Some(Plug(p, t)) && TrieOk(Plug(p, t))
    }

    ghost predicate Valid()
      reads this, nodes
    {
      match shape
      case None => root == null && nodes == {}
      case Some(t) => At(Mem(), root, Top, t) && nodes == Nodes(t) && TrieOk(t)
    }

    /** The tunnels the tree holds */
    ghost function Held(): set<Tunnel>
      reads this`shape
    {
      if shape.None? then {} else Tunnels(shape.value)
    }

    constructor ()
      ensures Valid() && Held() == {} && nodes == {}
    {
      root, shape, nodes := null, None, {};
    }

    /** tunnel_tree_find */
    method Find(key: Octets) returns (found: Tunnel?)
      requires Valid() && |key| == 16
      ensures found != null ==> found in Held() && found.key == key
      ensures found == null ==> forall x <- Held() :: x.key != key
    {
      hide Apart;
      if root == null {
        return null;
      }
      var node: Tunnel := root;
      ghost var t, up: Tunnel? := shape.value, null;
      while node.bit < MAXTUNBIT
        invariant node == Root(t) && Linked(Mem(), up, t) && TrieOk(t) && Tunnels(t) <= Held()
        invariant forall x <- Held() :: x.key == key ==> x in Tunnels(t)
        decreases t
      {
        forall x | x in Held() && x.key == key ensures x in Tunnels(Side(t, KeyBit(key, t.bit))) {
          SideOf(t, key, x);
        }
        up := node;
        if KeyBit(key, node.bit) {
          node := node.right;
          t := t.r;
        } else {
          node := node.left;
          t := t.l;
        }
      }
      if node.key == key {
        return node;
      }
      return null;
    }

    /** The way down that the key's bits point out, to a leaf */
    method Descend(key: Octets) returns (node: Tunnel, ghost p: Path, ghost t: Trie)
      requires Valid() && root != null && |key| == 16
      ensures Open(p, t) && t == Leaf(node) && KeyOn(p, key)
    {
      hide At;
      node, p, t := root, Top, shape.value;
      OpenFacts(p, t);
      while node.bit < MAXTUNBIT || node.glue
        invariant Open(p, t) && node == Root(t) && KeyOn(p, key) && Faces(p, t, node)
        decreases t
      {
        ghost var onRight := KeyBit(key, node.bit);
        DownAt(Mem(), root, p, t, onRight);
        if KeyBit(key, node.bit) {
          node := node.right;
        } else {
          node := node.left;
        }
        p, t := Further(p, t, onRight), Side(t, onRight);
        OpenFacts(p, t);
      }
    }

    /** What the node at the end of a path shows */
    ghost predicate Faces(p: Path, t: Trie, node: Tunnel)
      reads this, nodes
    {
      && node in nodes && node.bit == BitOf(t) <= MAXTUNBIT && node.parent == Above(p)
      && (t.Leaf? <==> node.bit == MAXTUNBIT) && (t.Leaf? ==> !node.glue)
      && (t.Fork? ==> node.left == Root(t.l) && node.right == Root(t.r))
      && (p.Step? ==> p.n in nodes && p.n.bit == p.bit < BitOf(t))
      && (p.Top? ==> root == node)
    }

    lemma OpenFacts(p: Path, t: Trie)
      requires Open(p, t)
      ensures Faces(p, t, Root(t))
    {
      PluggedOk(p, t);
    }

    /** The way up to the lowest node whose parent branches before bit differ */
    method Climb(key: Octets, differ: nat, leaf: Tunnel, ghost p0: Path)
      returns (node: Tunnel, ghost p: Path, ghost t: Trie)
      requires |key| == 16 && differ <= MAXTUNBIT && Open(p0, Leaf(leaf)) && KeyOn(p0, key)
      requires |leaf.key| == 16 && SameUpTo(key, leaf.key, differ)
      requires differ < MAXTUNBIT ==> KeyBit(key, differ) != KeyBit(leaf.key, differ)
      ensures Open(p, t) && node == Root(t) && leaf in Tunnels(t) && KeyOn(p, key)
      ensures if differ == MAXTUNBIT then t == Leaf(leaf) else differ < BitOf(t) && (p.Step? ==> p.bit < differ)
    {
      hide At, TrieOk;
      node, p, t := leaf, p0, Leaf(leaf);
      OpenFacts(p, t);
      var parent := node.parent;
      while parent != null && parent.bit >= differ
        invariant Open(p, t) && node == Root(t) && Faces(p, t, node) && parent == Above(p)
        invariant leaf in Tunnels(t) && KeyOn(p, key)
        invariant if differ == MAXTUNBIT then t == Leaf(leaf) else differ < BitOf(t)
        decreases p
      {
        UpAt(Mem(), root, p, t);
        ghost var t' := Joined(p.n, p.bit, p.onRight, t, p.other);
        PluggedOk(p.up, t');
        OnSide(p, t, leaf);
        p, t := p.up, t';
        OpenFacts(p, t);
        node := parent;
        parent := node.parent;
      }
    }

    /** What is needed to hang something else at the end of a path */
    ghost predicate Hangs(p: Path, node: Tunnel)
      reads this, nodes
    {
      && node in nodes && node.parent == Above(p) && (p.Top? ==> root == node)
      && (p.Step? ==> p.n in nodes && p.n != node && (p.n.right == node <==> p.onRight))
    }

    lemma OpenHangs(p: Path, t: Trie)
      requires Open(p, t)
      ensures Hangs(p, Root(t))
    {
    }

    /** The new leaf t and node become the sides of a new fork in node's place */
    method Hook(t: Tunnel, glue: Tunnel, node: Tunnel, differ: nat, onRight: bool, ghost p: Path)
      requires Hangs(p, node) && t !in nodes && glue !in nodes && t != glue
      requires t.bit == MAXTUNBIT && t.left == t.right == null
      modifies this`root, this`nodes, glue, t, node, if p.Step? then {p.n} else {}
      ensures nodes == old(nodes) + {t, glue} && (if p.Top? then root == glue else root == old(root))
      ensures Agree(old(Mem()), Mem(), old(nodes) - {node} - {Above(p)})
      ensures Mem()[node] == old(Mem())[node].(parent := glue)
      ensures p.Step? ==> Mem()[p.n] == CellFor(old(Mem())[p.n], p.onRight, glue)
      ensures Mem()[t] == Cell(null, null, glue, MAXTUNBIT)
      ensures Mem()[glue] == Cell(if onRight then node else t, if onRight then t else node, Above(p), differ)
    {
      hide At, TrieOk, Plug;
      glue.parent := node.parent;
      glue.bit := differ;
      if onRight {
        glue.right := t;
        glue.left := node;
      } else {
        glue.right := node;
        glue.left := t;
      }
      t.parent := glue;
      if node.parent == null {
        root := glue;
      } else if node.parent.right == node {
        node.parent.right := glue;
      } else {
        node.parent.left := glue;
      }
      node.parent := glue;
      nodes := nodes + {t, glue};
    }

    /** tunnel_tree_insert: the tunnel that has the key already, or null when t went in */
    method Insert(t: Tunnel) returns (existing: Tunnel?)
      requires Valid() && t !in nodes && |t.key| == 16 && !t.glue && t.left == t.right == null
      modifies this, nodes, t
      ensures Valid() && fresh(nodes - old(nodes) - {t})
      ensures existing != null ==>
        Held() == old(Held()) && existing in Held() && existing.key == t.key && nodes == old(nodes)
      ensures existing == null ==> Held() == old(Held()) + {t} && forall x <- old(Held()) :: x.key != t.key
    {
      hide At, TrieOk, Plug, Agree;
      RootFacts();
      if root == null {
        t.parent, t.left, t.right := null, null, null;
        t.bit := MAXTUNBIT;
        root, shape, nodes := t, Some(Leaf(t)), {t};
        SingleOk(t);
        return null;
      }
      var leaf, p0, u0 := Descend(t.key);
      LeafKey(p0, leaf);
      var differ := FirstDifference(t.key, leaf.key);
      var node, p, u := Climb(t.key, differ, leaf, p0);
      OpenHangs(p, u);
      OpenFacts(p, u);
      if differ == MAXTUNBIT && node.bit == MAXTUNBIT {
        HeldBelow(p0, leaf);
        return node;
      }
      t.bit := MAXTUNBIT;
      if node.bit == differ || differ == MAXTUNBIT {
        assert false;
      }
      AddFork(t, node, differ, leaf, p, u);
      return null;
    }

    method AddFork(t: Tunnel, node: Tunnel, differ: nat, ghost leaf: Tunnel, ghost p: Path, ghost u: Trie)
      requires Open(p, u) && Hangs(p, node) && node == Root(u) && t !in nodes && |t.key| == 16 && !t.glue
      requires t.bit == MAXTUNBIT && t.left == t.right == null
      requires leaf in Tunnels(u) && |leaf.key| == 16 && differ < MAXTUNBIT && differ < BitOf(u)
      requires (p.Step? ==> p.bit < differ)
      requires KeyOn(p, t.key) && SameUpTo(t.key, leaf.key, differ) && KeyBit(t.key, differ) != KeyBit(leaf.key, differ)
      modifies this, t, node, if p.Step? then {p.n} else {}
      ensures Valid() && fresh(nodes - old(nodes) - {t})
      ensures Held() == old(Held()) + {t} && forall x <- old(Held()) :: x.key != t.key
    {
      hide At, TrieOk, Plug, Agree, KeyBit, SameUpTo;
      var glue := new Tunnel.Glue();
      var onRight := KeyBit(t.key, differ);
      Hook(t, glue, node, differ, onRight, p);
      Inserted(old(Mem()), old(root), p, u, Mem(), root, t, glue, differ, onRight, leaf);
      shape := Some(Plug(p, Joined(glue, differ, onRight, Leaf(t), u)));
    }

    lemma RootFacts()
      requires Valid()
      ensures root == null <==> shape.None?
    {
    }

    /** What is needed to take a leaf and its fork out */
    ghost predicate Unhangs(p: Path, t: Tunnel)
      reads this, nodes
    {
      && p.Step? && t in nodes && t.parent == p.n && t.left == null && t.right == null && !t.glue
      && p.n in nodes && p.n.glue && p.n != t && Root(p.other) in nodes && Root(p.other) != t && Root(p.other) != p.n
      && (if p.onRight then p.n.right == t && p.n.left == Root(p.other)
          else p.n.left == t && p.n.right == Root(p.other))
      && p.n.parent == Above(p.up) && (p.up.Top? ==> root == p.n)
      && (p.up.Step? ==> p.up.n in nodes && p.up.n != p.n && p.up.n != t && p.up.n != Root(p.other)
                         && (p.up.n.right == p.n <==> p.up.onRight))
    }

    lemma OpenUnhangs(p: Path, t: Tunnel)
      requires Open(p, Leaf(t)) && p.Step?
      ensures Unhangs(p, t)
    {
      UpAt(Mem(), root, p, Leaf(t));
    }

    method Unhook(t: Tunnel, parent: Tunnel, ghost p: Path)
      requires Unhangs(p, t) && parent == p.n
      modifies this`root, this`nodes, parent`left, parent`right, Root(p.other)`parent
      modifies (if p.up.Step? then {p.up.n} else {})`left, (if p.up.Step? then {p.up.n} else {})`right
      ensures nodes == old(nodes) - {t, parent} && (if p.up.Top? then root == Root(p.other) else root == old(root))
      ensures Agree(old(Mem()), Mem(), old(nodes) - {t} - {parent} - {Root(p.other)} - {Above(p.up)})
      ensures Root(p.other) in nodes && Mem()[Root(p.other)] == old(Mem())[Root(p.other)].(parent := Above(p.up))
      ensures p.up.Step? ==> Mem()[p.up.n] == CellFor(old(Mem())[p.up.n], p.up.onRight, Root(p.other))
    {
      var child: Tunnel;
      if parent.right == t {
        parent.right := null;
        child := parent.left;
      } else {
        parent.left := null;
        child := parent.right;
      }
      if !parent.glue {
        assert false;
      }
      if parent.parent == null {
        root := child;
      } else if parent.parent.right == parent {
        parent.parent.right := child;
      } else {
        parent.parent.left := child;
      }
      child.parent := parent.parent;
      nodes := nodes - {t, parent};
    }

    /** tunnel_tree_remove; the leaf's fork goes with it, and no other case arises */
    method Remove(t: Tunnel)
      requires Valid() && t in Held()
      modifies this, nodes`left, nodes`right, nodes`parent
      ensures Valid() && Held() == old(Held()) - {t}
      ensures nodes < old(nodes) && t !in nodes
    {
      hide At, TrieOk, Plug, Agree, PathNodes;
      RootFacts();
      ghost var p := Locate(Mem(), root, Top, shape.value, t);
      LocateFacts(p, t);
      OpenFacts(p, Leaf(t));
      OpenLeaf(p, t);
      var right, left := t.right, t.left;
      if right != null && left != null {
        assert false;
      }
      if right == null && left == null {
        var parent := t.parent;
        if parent == null {
          root, shape, nodes := null, None, {};
          return;
        }
        OpenUnhangs(p, t);
        Unhook(t, parent, p);
        Removed(old(Mem()), old(root), p, t, Mem(), root);
        shape := Some(Plug(p.up, p.other));
        return;
      }
      assert false;
    }

    lemma LocateFacts(p: Path, t: Tunnel)
      requires Valid() && shape.Some? && At(Mem(), root, p, Leaf(t)) && Plug(p, Leaf(t)) == Plug(Top, shape.value)
      ensures Open(p, Leaf(t))
    {
      Closed(Mem(), root, p, Leaf(t));
    }

    lemma OpenLeaf(p: Path, t: Tunnel)
      requires Open(p, Leaf(t))
      ensures t in nodes && t.left == null && t.right == null
      ensures p.Top? ==> shape == Some(Leaf(t)) && nodes == {t}
    {
    }

    /** The tree is a map: no two tunnels share a key, so what Find returns is the only candidate */
    lemma OneTunnelPerKey(x: Tunnel, y: Tunnel)
      requires Valid() && x in Held() && y in Held() && x.key == y.key
      ensures x == y
    {
      KeysDiffer(shape.value, x, y);
    }

    /** No glue node is left behind: there is one less than there are tunnels */
    lemma GlueCount()
      requires Valid() && Held() != {}
      ensures Held() <= nodes && |nodes - Held()| == |Held()| - 1
    {
      NodeCount(shape.value);
      TunnelsAreNodes(shape.value);
    }

    lemma SingleOk(t: Tunnel)
      requires nodes == {t} && |t.key| == 16 && !t.glue && t.left == t.right == t.parent == null && t.bit == MAXTUNBIT
      ensures At(Mem(), t, Top, Leaf(t)) && TrieOk(Leaf(t))
    {
    }

    lemma LeafKey(p: Path, leaf: Tunnel)
      requires Open(p, Leaf(leaf))
      ensures |leaf.key| == 16
    {
      PluggedOk(p, Leaf(leaf));
    }

    lemma HeldBelow(p: Path, leaf: Tunnel)
      requires Open(p, Leaf(leaf))
      ensures leaf in Held() && leaf in nodes
    {
      PluggedTunnels(p, Leaf(leaf));
    }
  }

  /** The tree after an insertion */
  lemma Inserted(mem: Memory, root: Tunnel?, p: Path, u: Trie, mem': Memory, root': Tunnel?,
                 x: Tunnel, g: Tunnel, differ: nat, onRight: bool, y: Tunnel)
    requires At(mem, root, p, u) && TrieOk(Plug(p, u)) && y in Tunnels(u) && |y.key| == 16
    requires mem.Keys == Nodes(u) + PathNodes(p) && x !in mem && g !in mem && x != g && g.glue && !x.glue
    requires |x.key| == 16
    requires differ < MAXTUNBIT && differ < BitOf(u) && KeyOn(p, x.key) && SameUpTo(x.key, y.key, differ)
    requires KeyBit(x.key, differ) == onRight != KeyBit(y.key, differ) && (p.Step? ==> p.bit < differ)
    requires Agree(mem, mem', mem.Keys - {Root(u)} - {Above(p)})
    requires Root(u) in mem && Root(u) in mem' && mem'[Root(u)] == mem[Root(u)].(parent := g)
    requires p.Step? ==> root' == root && p.n in mem && p.n in mem' && mem'[p.n] == CellFor(mem[p.n], p.onRight, g)
    requires p.Top? ==> root' == g
    requires x in mem' && mem'[x] == Cell(null, null, g, MAXTUNBIT)
    requires g in mem'
    requires mem'[g] == Cell(if onRight then Root(u) else x, if onRight then x else Root(u), Above(p), differ)
    ensures var tree := Plug(p, Joined(g, differ, onRight, Leaf(x), u));
      && At(mem', root', Top, tree) && TrieOk(tree) && Nodes(tree) == mem.Keys + {x, g}
      && Tunnels(tree) == Tunnels(Plug(p, u)) + {x} && forall z <- Tunnels(Plug(p, u)) :: z.key != x.key
  {
    hide At, TrieOk, Linked, PathLinked;
    var v := Joined(g, differ, onRight, Leaf(x), u);
    Forked(mem, root, p, u, mem', root', x, g, differ, onRight);
    Closed(mem', root', p, v);
    PluggedTunnels(p, u);
    PluggedTunnels(p, v);
    PluggedOk(p, u);
    ForkOk(u, x, g, differ, onRight, y);
    GrownOk(p, u, v, x, y);
    PathTunnelsAreNodes(p);
    TunnelsAreNodes(u);
    forall z | z in Tunnels(Plug(p, u)) ensures z.key != x.key {
      if z.key == x.key {
        KeysDiffer(Plug(p, v), z, x);
      }
    }
  }

  lemma ForkOk(u: Trie, x: Tunnel, g: Tunnel, differ: nat, onRight: bool, y: Tunnel)
    requires TrieOk(u) && y in Tunnels(u) && |x.key| == |y.key| == 16 && differ < BitOf(u) && differ < MAXTUNBIT
    requires SameUpTo(x.key, y.key, differ) && KeyBit(x.key, differ) == onRight != KeyBit(y.key, differ)
    ensures TrieOk(Joined(g, differ, onRight, Leaf(x), u))
  {
    forall z | z in Tunnels(u)
      ensures |z.key| == 16 && SameUpTo(x.key, z.key, differ) && KeyBit(z.key, differ) != onRight
    {
      AllAgree(u, y, z);
    }
  }

  /** The way to a tunnel of the tree */
  lemma {:induction false} Locate(mem: Memory, root: Tunnel?, p: Path, t: Trie, x: Tunnel) returns (q: Path)
    requires At(mem, root, p, t) && x in Tunnels(t)
    ensures At(mem, root, q, Leaf(x)) && Plug(q, Leaf(x)) == Plug(p, t)
    decreases t
  {
    hide At;
    q := p;
    if t.Fork? {
      var onRight := x in Tunnels(t.r);
      DownAt(mem, root, p, t, onRight);
      q := Locate(mem, root, Further(p, t, onRight), Side(t, onRight), x);
    }
  }

  /** The tree after a removal */
  lemma Removed(mem: Memory, root: Tunnel?, p: Path, x: Tunnel, mem': Memory, root': Tunnel?)
    requires p.Step? && At(mem, root, p, Leaf(x)) && TrieOk(Plug(p, Leaf(x)))
    requires mem.Keys == Nodes(Leaf(x)) + PathNodes(p) && mem'.Keys == mem.Keys - {x, p.n}
    requires Agree(mem, mem', mem.Keys - {x} - {p.n} - {Root(p.other)} - {Above(p.up)})
    requires Root(p.other) in mem && Root(p.other) in mem'
    requires mem'[Root(p.other)] == mem[Root(p.other)].(parent := Above(p.up))
    requires p.up.Step? ==>
      && root' == root && p.up.n in mem && p.up.n in mem'
      && mem'[p.up.n] == CellFor(mem[p.up.n], p.up.onRight, Root(p.other))
    requires p.up.Top? ==> root' == Root(p.other)
    ensures var tree := Plug(p.up, p.other);
      && At(mem', root', Top, tree) && TrieOk(tree) && Nodes(tree) == mem'.Keys
      && Tunnels(tree) == Tunnels(Plug(p, Leaf(x))) - {x}
  {
    hide TrieOk, Linked, PathLinked;
    var t' := Joined(p.n, p.bit, p.onRight, Leaf(x), p.other);
    assert Plug(p, Leaf(x)) == Plug(p.up, t');
    ApartFromLeaf(mem, root, p, x);
    Unforked(mem, root, p, x, mem', root');
    Closed(mem', root', p.up, p.other);
    PluggedTunnels(p.up, p.other);
    PluggedTunnels(p, Leaf(x));
    PluggedOk(p.up, t');
    OtherOk(p, x);
    ShrunkOk(p.up, t', p.other);
  }

  lemma ApartFromLeaf(mem: Memory, root: Tunnel?, p: Path, x: Tunnel)
    requires p.Step? && At(mem, root, p, Leaf(x))
    ensures x !in PathNodes(p) && p.n !in PathNodes(p.up) + Nodes(p.other)
    ensures x !in PathTunnels(p) && PathNodes(p) == {p.n} + PathNodes(p.up) + Nodes(p.other)
    ensures PathTunnels(p) == PathTunnels(p.up) + Tunnels(p.other)
  {
    PathTunnelsAreNodes(p);
  }

  lemma OtherOk(p: Path, x: Tunnel)
    requires p.Step? && TrieOk(Joined(p.n, p.bit, p.onRight, Leaf(x), p.other))
    ensures TrieOk(p.other) && p.bit <= BitOf(p.other)
  {
  }

  lemma {:induction false} NodeCount(t: Trie)
    requires Apart(t)
    ensures |Nodes(t)| == 2 * |Tunnels(t)| - 1
  {
    if t.Fork? {
      NodeCount(t.l);
      NodeCount(t.r);
      TunnelsAreNodes(t.l);
      TunnelsAreNodes(t.r);
      assert Nodes(t) == {t.n} + (Nodes(t.l) + Nodes(t.r));
    }
  }

  lemma OnSide(p: Path, t: Trie, y: Tunnel)
    requires p.Step? && TrieOk(Joined(p.n, p.bit, p.onRight, t, p.other)) && y in Tunnels(t)
    ensures p.bit < MAXTUNBIT && |y.key| == 16 && KeyBit(y.key, p.bit) == p.onRight
  {
    Inhabited(p.other);
  }
}
