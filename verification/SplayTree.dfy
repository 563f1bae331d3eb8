/**
  The splay tree of one tunnel and protocol: the top-down splay with its two
  hanging chains, and the set operations built on it.  The two splay routines of
  the source differ only in the comparison they call, so the comparison is a
  parameter here.
 */
module SplayTree {
  import opened NatEntry

  datatype Shape = Leaf | Node(l: Shape, n: Nat, r: Shape)

  /** A chain hanging from the header, innermost link first: entries put aside
      on one side, each with the subtree on its far side */
  datatype Chain = Hook | Link(up: Chain, n: Nat, sub: Shape)

  /** What the comparison answers for an entry: how the sought key compares to it */
  type Comparison = Key -> int

  ghost function Root(t: Shape): Nat? { if t.Leaf? then null else t.n }

  ghost function Entries(t: Shape): seq<Nat> {
    if t.Leaf? then [] else Entries(t.l) + [t.n] + Entries(t.r)
  }

  ghost function Nodes(t: Shape): set<Nat> {
    if t.Leaf? then {} else Nodes(t.l) + {t.n} + Nodes(t.r)
  }

  ghost function ChainNodes(c: Chain): set<Nat> {
    if c.Hook? then {} else ChainNodes(c.up) + {c.n} + Nodes(c.sub)
  }

  /** The smaller entries put aside, in order */
  ghost function Smaller(c: Chain): seq<Nat> {
    if c.Hook? then [] else Smaller(c.up) + Entries(c.sub) + [c.n]
  }

  /** The larger entries put aside, in order */
  ghost function Larger(c: Chain): seq<Nat> {
    if c.Hook? then [] else [c.n] + Entries(c.sub) + Larger(c.up)
  }

  ghost function CloseLeft(c: Chain, t: Shape): Shape {
    if c.Hook? then t else CloseLeft(c.up, Node(c.sub, c.n, t))
  }

  ghost function CloseRight(c: Chain, t: Shape): Shape {
    if c.Hook? then t else CloseRight(c.up, Node(t, c.n, c.sub))
  }

  ghost predicate Apart(t: Shape) {
    t.Node? ==>
      Apart(t.l) && Apart(t.r) && Nodes(t.l) !! Nodes(t.r) && t.n !in Nodes(t.l) && t.n !in Nodes(t.r)
  }

  ghost predicate ChainApart(c: Chain) {
    c.Link? ==>
      && ChainApart(c.up) && Apart(c.sub) && ChainNodes(c.up) !! Nodes(c.sub)
      && c.n !in ChainNodes(c.up) && c.n !in Nodes(c.sub)
  }

  // ---------- Links in memory ----------

  datatype Cell = Cell(left: Nat?, right: Nat?)

  type Memory = map<Nat, Cell>

  ghost predicate Linked(mem: Memory, t: Shape) {
    t.Node? ==>
      t.n in mem && mem[t.n] == Cell(Root(t.l), Root(t.r)) && Linked(mem, t.l) && Linked(mem, t.r)
  }

  ghost function End(c: Chain, header: Nat): Nat { if c.Hook? then header else c.n }

  /** Right links lead from the header down the chain of smaller entries */
  ghost predicate LeftLinked(mem: Memory, header: Nat, c: Chain) {
    c.Link? ==>
      && c.n in mem && mem[c.n].left == Root(c.sub) && Linked(mem, c.sub)
      && End(c.up, header) in mem && mem[End(c.up, header)].right == c.n && LeftLinked(mem, header, c.up)
  }

  /** Left links lead from the header down the chain of larger entries */
  ghost predicate RightLinked(mem: Memory, header: Nat, c: Chain) {
    c.Link? ==>
      && c.n in mem && mem[c.n].right == Root(c.sub) && Linked(mem, c.sub)
      && End(c.up, header) in mem && mem[End(c.up, header)].left == c.n && RightLinked(mem, header, c.up)
  }

  ghost predicate Disjoint(header: Nat, l: Chain, t: Shape, r: Chain) {
    && ChainApart(l) && Apart(t) && ChainApart(r)
    && ChainNodes(l) !! Nodes(t) && ChainNodes(l) !! ChainNodes(r) && Nodes(t) !! ChainNodes(r)
    && header !in ChainNodes(l) && header !in Nodes(t) && header !in ChainNodes(r)
  }

  /** Mid splay: t under the root, l and r hanging from the header */
  ghost predicate Torn(mem: Memory, root: Nat?, header: Nat, l: Chain, t: Shape, r: Chain) {
    && Disjoint(header, l, t, r) && root == Root(t) && header in mem
    && Linked(mem, t) && LeftLinked(mem, header, l) && RightLinked(mem, header, r)
  }

  ghost predicate Agree(mem: Memory, mem': Memory, s: set<Nat>) {
    forall x | x in s && x in mem :: x in mem' && mem'[x] == mem[x]
  }

  lemma {:induction false} LinkedFrame(mem: Memory, mem': Memory, t: Shape)
    requires Linked(mem, t) && Agree(mem, mem', Nodes(t))
    ensures Linked(mem', t)
  {
    if t.Node? {
      LinkedFrame(mem, mem', t.l);
      LinkedFrame(mem, mem', t.r);
    }
  }

  /** A chain survives any change to entries outside it, to its own dangling end
      and to the other link of the header */
  lemma {:induction false} LeftFrame(mem: Memory, mem': Memory, header: Nat, c: Chain)
    requires LeftLinked(mem, header, c) && ChainApart(c) && header !in ChainNodes(c)
    requires Agree(mem, mem', ChainNodes(c) - {End(c, header)})
    requires header in mem ==> header in mem' && (c.Link? ==> mem'[header].right == mem[header].right)
    requires c.Link? ==> c.n in mem' && mem'[c.n].left == mem[c.n].left
    ensures LeftLinked(mem', header, c)
  {
    if c.Link? {
      LinkedFrame(mem, mem', c.sub);
      LeftFrame(mem, mem', header, c.up);
    }
  }

  lemma {:induction false} RightFrame(mem: Memory, mem': Memory, header: Nat, c: Chain)
    requires RightLinked(mem, header, c) && ChainApart(c) && header !in ChainNodes(c)
    requires Agree(mem, mem', ChainNodes(c) - {End(c, header)})
    requires header in mem ==> header in mem' && (c.Link? ==> mem'[header].left == mem[header].left)
    requires c.Link? ==> c.n in mem' && mem'[c.n].right == mem[c.n].right
    ensures RightLinked(mem', header, c)
  {
    if c.Link? {
      LinkedFrame(mem, mem', c.sub);
      RightFrame(mem, mem', header, c.up);
    }
  }

  // ---------- The steps of a splay, on memory ----------

  /** nat_splay_link_right: the root joins the chain of smaller entries */
  lemma LinkedRight(mem: Memory, header: Nat, l: Chain, t: Shape, r: Chain, mem': Memory)
    requires t.Node? && Torn(mem, t.n, header, l, t, r)
    requires Agree(mem, mem', mem.Keys - {End(l, header)})
    requires End(l, header) in mem && End(l, header) in mem'
    requires mem'[End(l, header)] == mem[End(l, header)].(right := t.n)
    ensures Torn(mem', Root(t.r), header, Link(l, t.n, t.l), t.r, r)
  {
    LeftFrame(mem, mem', header, l);
    RightFrame(mem, mem', header, r);
    LinkedFrame(mem, mem', t);
  }

  lemma LinkedLeft(mem: Memory, header: Nat, l: Chain, t: Shape, r: Chain, mem': Memory)
    requires t.Node? && Torn(mem, t.n, header, l, t, r)
    requires Agree(mem, mem', mem.Keys - {End(r, header)})
    requires End(r, header) in mem && End(r, header) in mem'
    requires mem'[End(r, header)] == mem[End(r, header)].(left := t.n)
    ensures Torn(mem', Root(t.l), header, l, t.l, Link(r, t.n, t.r))
  {
    LeftFrame(mem, mem', header, l);
    RightFrame(mem, mem', header, r);
    LinkedFrame(mem, mem', t);
  }

  /** nat_splay_rotate_right */
  lemma TurnedRight(mem: Memory, header: Nat, l: Chain, a: Shape, m: Nat, b: Shape, n: Nat, c: Shape, r: Chain,
      mem': Memory)
    requires Torn(mem, n, header, l, Node(Node(a, m, b), n, c), r)
    requires Agree(mem, mem', mem.Keys - {m, n})
    requires m in mem' && mem'[m] == Cell(Root(a), n) && n in mem' && mem'[n] == Cell(Root(b), Root(c))
    ensures Torn(mem', m, header, l, Node(a, m, Node(b, n, c)), r)
  {
    var t := Node(a, m, Node(b, n, c));
    assert Linked(mem, Node(a, m, b)) && Apart(Node(a, m, b));
    assert LeftLinked(mem', header, l) by {
      LeftFrame(mem, mem', header, l);
    }
    assert RightLinked(mem', header, r) by {
      RightFrame(mem, mem', header, r);
    }
    assert Linked(mem', t) by {
      LinkedFrame(mem, mem', a);
      LinkedFrame(mem, mem', b);
      LinkedFrame(mem, mem', c);
    }
    hide Linked, LeftLinked, RightLinked, Agree;
    assert Nodes(t) == Nodes(Node(Node(a, m, b), n, c));
    assert Apart(Node(b, n, c));
  }

  /** nat_splay_rotate_left */
  lemma TurnedLeft(mem: Memory, header: Nat, l: Chain, a: Shape, n: Nat, b: Shape, m: Nat, c: Shape, r: Chain,
      mem': Memory)
    requires Torn(mem, n, header, l, Node(a, n, Node(b, m, c)), r)
    requires Agree(mem, mem', mem.Keys - {m, n})
    requires m in mem' && mem'[m] == Cell(n, Root(c)) && n in mem' && mem'[n] == Cell(Root(a), Root(b))
    ensures Torn(mem', m, header, l, Node(Node(a, n, b), m, c), r)
  {
    var t := Node(Node(a, n, b), m, c);
    assert Linked(mem, Node(b, m, c)) && Apart(Node(b, m, c));
    assert LeftLinked(mem', header, l) by {
      LeftFrame(mem, mem', header, l);
    }
    assert RightLinked(mem', header, r) by {
      RightFrame(mem, mem', header, r);
    }
    assert Linked(mem', t) by {
      LinkedFrame(mem, mem', a);
      LinkedFrame(mem, mem', b);
      LinkedFrame(mem, mem', c);
    }
    hide Linked, LeftLinked, RightLinked, Agree;
    assert Nodes(t) == Nodes(Node(a, n, Node(b, m, c)));
    assert Apart(Node(a, n, b));
  }

  lemma Assoc(a: seq<Nat>, b: seq<Nat>, c: seq<Nat>)
    ensures (a + b) + c == a + (b + c)
  {
  }

  lemma {:induction false} ClosedLeftEntries(c: Chain, t: Shape)
    ensures Entries(CloseLeft(c, t)) == Smaller(c) + Entries(t)
  {
    if c.Link? {
      ClosedLeftEntries(c.up, Node(c.sub, c.n, t));
      Assoc(Smaller(c.up), Entries(c.sub) + [c.n], Entries(t));
      assert Smaller(c) == Smaller(c.up) + (Entries(c.sub) + [c.n]);
    }
  }

  lemma {:induction false} ClosedRightEntries(c: Chain, t: Shape)
    ensures Entries(CloseRight(c, t)) == Entries(t) + Larger(c)
  {
    if c.Link? {
      ClosedRightEntries(c.up, Node(t, c.n, c.sub));
      Assoc(Entries(t), [c.n] + Entries(c.sub), Larger(c.up));
      Assoc(Entries(t), [c.n], Entries(c.sub));
      assert Larger(c) == ([c.n] + Entries(c.sub)) + Larger(c.up);
    }
  }

  lemma {:induction false} ClosedLeft(mem: Memory, header: Nat, c: Chain, t: Shape)
    requires LeftLinked(mem, header, c) && Linked(mem, t) && ChainApart(c) && Apart(t) && ChainNodes(c) !! Nodes(t)
    requires End(c, header) in mem && mem[End(c, header)].right == Root(t)
    ensures Linked(mem, CloseLeft(c, t)) && Apart(CloseLeft(c, t)) && Nodes(CloseLeft(c, t)) == ChainNodes(c) + Nodes(t)
    ensures header in mem && mem[header].right == Root(CloseLeft(c, t))
  {
    if c.Link? { ClosedLeft(mem, header, c.up, Node(c.sub, c.n, t)); }
  }

  lemma {:induction false} ClosedRight(mem: Memory, header: Nat, c: Chain, t: Shape)
    requires RightLinked(mem, header, c) && Linked(mem, t) && ChainApart(c) && Apart(t) && ChainNodes(c) !! Nodes(t)
    requires End(c, header) in mem && mem[End(c, header)].left == Root(t)
    ensures Linked(mem, CloseRight(c, t)) && Apart(CloseRight(c, t))
    ensures Nodes(CloseRight(c, t)) == ChainNodes(c) + Nodes(t)
    ensures header in mem && mem[header].left == Root(CloseRight(c, t))
  {
    if c.Link? { ClosedRight(mem, header, c.up, Node(t, c.n, c.sub)); }
  }

  ghost function Assembled(l: Chain, t: Shape, r: Chain): Shape
    requires t.Node?
  {
    Node(CloseLeft(l, t.l), t.n, CloseRight(r, t.r))
  }

  lemma AssembledEntries(l: Chain, t: Shape, r: Chain)
    requires t.Node?
    ensures Entries(Assembled(l, t, r)) == Smaller(l) + Entries(t) + Larger(r)
  {
    ClosedLeftEntries(l, t.l);
    ClosedRightEntries(r, t.r);
  }

  lemma EndFacts(mem: Memory, root: Nat?, header: Nat, l: Chain, t: Shape, r: Chain)
    requires Torn(mem, root, header, l, t, r) && t.Node?
    ensures root == t.n && t.n in mem && mem[t.n] == Cell(Root(t.l), Root(t.r)) && t.n != header
    ensures l.Link? ==> l.n in mem && l.n != header && l.n != t.n
    ensures r.Link? ==> r.n in mem && r.n != header && r.n != t.n
    ensures l.Link? && r.Link? ==> l.n != r.n
    ensures header !in ChainNodes(l) + Nodes(t) + ChainNodes(r)
  {
  }

  /** The first half of nat_splay_assemble: both chains closed over the root's subtrees */
  lemma ClosedChains(mem: Memory, header: Nat, l: Chain, t: Shape, r: Chain, mem': Memory)
    requires t.Node? && Torn(mem, t.n, header, l, t, r) && header in mem'
    requires Agree(mem, mem', mem.Keys - {End(l, header), End(r, header)})
    requires End(l, header) in mem' && mem'[End(l, header)].right == Root(t.l)
    requires End(r, header) in mem' && mem'[End(r, header)].left == Root(t.r)
    requires l.Link? ==> mem'[l.n].left == mem[l.n].left && mem'[header].right == mem[header].right
    requires r.Link? ==> mem'[r.n].right == mem[r.n].right && mem'[header].left == mem[header].left
    ensures Linked(mem', CloseLeft(l, t.l)) && mem'[header].right == Root(CloseLeft(l, t.l))
    ensures Linked(mem', CloseRight(r, t.r)) && mem'[header].left == Root(CloseRight(r, t.r))
    ensures Nodes(CloseLeft(l, t.l)) == ChainNodes(l) + Nodes(t.l) && Apart(CloseLeft(l, t.l))
    ensures Nodes(CloseRight(r, t.r)) == ChainNodes(r) + Nodes(t.r) && Apart(CloseRight(r, t.r))
  {
    LeftFrame(mem, mem', header, l);
    RightFrame(mem, mem', header, r);
    LinkedFrame(mem, mem', t.l);
    LinkedFrame(mem, mem', t.r);
    ClosedLeft(mem', header, l, t.l);
    ClosedRight(mem', header, r, t.r);
  }

  /** The second half: the root takes both chains as its subtrees */
  lemma CrownedRoot(mem: Memory, mem': Memory, l: Shape, n: Nat, r: Shape)
    requires Linked(mem, l) && Linked(mem, r) && Apart(l) && Apart(r)
    requires Nodes(l) !! Nodes(r) && n !in Nodes(l) && n !in Nodes(r)
    requires Agree(mem, mem', Nodes(l) + Nodes(r)) && n in mem' && mem'[n] == Cell(Root(l), Root(r))
    ensures Linked(mem', Node(l, n, r)) && Apart(Node(l, n, r))
    ensures Nodes(Node(l, n, r)) == Nodes(l) + {n} + Nodes(r) && Root(Node(l, n, r)) == n
  {
    LinkedFrame(mem, mem', l);
    LinkedFrame(mem, mem', r);
  }

  // ---------- What a comparison finds ----------

  ghost predicate AllAfter(cmp: Comparison, s: seq<Nat>) { forall m <- s :: cmp(m.key) > 0 }

  ghost predicate AllBefore(cmp: Comparison, s: seq<Nat>) { forall m <- s :: cmp(m.key) < 0 }

  /** Along the entries the comparison can only fall */
  ghost predicate Falling(cmp: Comparison, s: seq<Nat>) {
    forall i, j | 0 <= i < j < |s| ::
      (cmp(s[i].key) < 0 ==> cmp(s[j].key) < 0) && (cmp(s[j].key) > 0 ==> cmp(s[i].key) > 0)
  }

  lemma FallingParts(cmp: Comparison, b: seq<Nat>, l: seq<Nat>, n: Nat, r: seq<Nat>, a: seq<Nat>)
    requires Falling(cmp, b + (l + [n] + r) + a)
    ensures cmp(n.key) < 0 ==> AllBefore(cmp, [n] + r)
    ensures cmp(n.key) > 0 ==> AllAfter(cmp, l + [n])
  {
    var all, c := b + (l + [n] + r) + a, |b| + |l|;
    assert all[c] == n;
    forall i | 0 <= i < |l| ensures cmp(n.key) > 0 ==> cmp(l[i].key) > 0 { assert all[|b| + i] == l[i]; }
    forall i | 0 <= i < |r| ensures cmp(n.key) < 0 ==> cmp(r[i].key) < 0 { assert all[c + 1 + i] == r[i]; }
  }

  /** Everything put aside so far compares to the proper side */
  ghost predicate Aside(cmp: Comparison, all: seq<Nat>, l: Chain, t: Shape, r: Chain) {
    && Smaller(l) + Entries(t) + Larger(r) == all
    && (Falling(cmp, all) ==> AllAfter(cmp, Smaller(l)) && AllBefore(cmp, Larger(r)))
  }

  lemma AsideLeft(cmp: Comparison, all: seq<Nat>, l: Chain, t: Shape, r: Chain)
    requires Aside(cmp, all, l, t, r) && t.Node? && cmp(t.n.key) < 0
    ensures Aside(cmp, all, l, t.l, Link(r, t.n, t.r))
    ensures t.l.Node? ==> var m := t.l.n; Aside(cmp, all, l, Node(t.l.l, m, Node(t.l.r, t.n, t.r)), r)
  {
    hide Falling;
    assert Smaller(l) + Entries(t.l) + Larger(Link(r, t.n, t.r)) == Smaller(l) + Entries(t) + Larger(r);
    if t.l.Node? { assert Entries(Node(t.l.l, t.l.n, Node(t.l.r, t.n, t.r))) == Entries(t); }
    if Falling(cmp, all) {
      FallingParts(cmp, Smaller(l), Entries(t.l), t.n, Entries(t.r), Larger(r));
    }
  }

  lemma AsideRight(cmp: Comparison, all: seq<Nat>, l: Chain, t: Shape, r: Chain)
    requires Aside(cmp, all, l, t, r) && t.Node? && cmp(t.n.key) > 0
    ensures Aside(cmp, all, Link(l, t.n, t.l), t.r, r)
    ensures t.r.Node? ==> var m := t.r.n; Aside(cmp, all, l, Node(Node(t.l, t.n, t.r.l), m, t.r.r), r)
  {
    hide Falling;
    assert Smaller(Link(l, t.n, t.l)) + Entries(t.r) + Larger(r) == Smaller(l) + Entries(t) + Larger(r);
    if t.r.Node? { assert Entries(Node(Node(t.l, t.n, t.r.l), t.r.n, t.r.r)) == Entries(t); }
    if Falling(cmp, all) {
      FallingParts(cmp, Smaller(l), Entries(t.l), t.n, Entries(t.r), Larger(r));
    }
  }

  lemma {:induction false} EntriesNodes(t: Shape)
    ensures Nodes(t) == set n | n in Entries(t)
  {
    if t.Node? {
      EntriesNodes(t.l);
      EntriesNodes(t.r);
    }
  }

  /** The root matches, or tells on which side of it the key would be */
  ghost predicate Decides(cmp: Comparison, t: Shape) {
    t.Node? ==>
      && (cmp(t.n.key) < 0 ==> AllAfter(cmp, Entries(t.l)))
      && (cmp(t.n.key) > 0 ==> AllBefore(cmp, Entries(t.r)))
  }

  ghost function Size(t: Shape): nat { if t.Leaf? then 0 else Size(t.l) + 1 + Size(t.r) }

  lemma TopFacts(mem: Memory, root: Nat?, header: Nat, l: Chain, t: Shape, r: Chain)
    requires Torn(mem, root, header, l, t, r) && t.Node?
    ensures root == t.n && t.n in mem && mem[t.n] == Cell(Root(t.l), Root(t.r))
  {
  }

  lemma SplayStart(mem: Memory, mem': Memory, root: Nat?, header: Nat, t: Shape)
    requires Linked(mem, t) && Apart(t) && root == Root(t) && header !in Nodes(t)
    requires Agree(mem, mem', Nodes(t)) && header in mem'
    ensures Torn(mem', root, header, Hook, t, Hook)
  {
    LinkedFrame(mem, mem', t);
  }

  lemma AssembledDecides(cmp: Comparison, all: seq<Nat>, l: Chain, t: Shape, r: Chain)
    requires Aside(cmp, all, l, t, r) && t.Node?
    requires cmp(t.n.key) == 0 || (cmp(t.n.key) < 0 && t.l.Leaf?) || (cmp(t.n.key) > 0 && t.r.Leaf?)
    ensures Entries(Assembled(l, t, r)) == all
    ensures Falling(cmp, all) ==> Decides(cmp, Assembled(l, t, r))
  {
    AssembledEntries(l, t, r);
    ClosedLeftEntries(l, t.l);
    ClosedRightEntries(r, t.r);
  }

  // ---------- The two comparisons ----------

  ghost predicate Sorted(s: seq<Nat>) {
    forall i, j | 0 <= i < j < |s| :: SplayRank(s[i].key) < SplayRank(s[j].key)
  }

  ghost predicate AllAdmissible(s: seq<Nat>) { forall m <- s :: Admissible(m.key) }

  /** On the packet's internal address and port no entry for a smaller destination hides a wildcard */
  ghost predicate Unhidden(k: Key, s: set<Nat>) {
    forall m, n | m in s && n in s && SplayGroup(m.key) == SplayGroup(n.key) == SplayGroup(k) ::
      m.key.flags.allDst && !n.key.flags.allDst ==> DstRank(k) <= DstRank(n.key)
  }

  function Exactly(k: Key): Comparison { (m: Key) => SplayCompareAbs(k, m) }

  function Wildly(k: Key): Comparison { (m: Key) => SplayCompareWild(k, m) }

  lemma ExactlyFalls(k: Key, s: seq<Nat>)
    requires Sorted(s) && AllAdmissible(s) && Admissible(k)
    ensures Falling(Exactly(k), s)
    ensures forall m <- s :: SameSign(Exactly(k)(m.key), SplayRank(k) - SplayRank(m.key))
  {
    hide SplayRank, SplayCompareAbs;
    forall m | m in s ensures SameSign(Exactly(k)(m.key), SplayRank(k) - SplayRank(m.key)) {
      SplayOrder(k, m.key);
    }
    forall i, j | 0 <= i < j < |s|
      ensures Exactly(k)(s[i].key) < 0 ==> Exactly(k)(s[j].key) < 0
      ensures Exactly(k)(s[j].key) > 0 ==> Exactly(k)(s[i].key) > 0
    {
      assert SplayRank(s[i].key) < SplayRank(s[j].key);
    }
  }

  lemma WildlyFalls(k: Key, s: seq<Nat>)
    requires Sorted(s) && AllAdmissible(s) && Template(k) && Unhidden(k, set m | m in s)
    ensures Falling(Wildly(k), s)
  {
    hide SplayRank, SplayCompareWild, SplayGroup;
    forall i, j | 0 <= i < j < |s|
      ensures Wildly(k)(s[i].key) < 0 ==> Wildly(k)(s[j].key) < 0
      ensures Wildly(k)(s[j].key) > 0 ==> Wildly(k)(s[i].key) > 0
    {
      SplayWildMonotone(k, s[i].key, s[j].key);
    }
  }

  lemma FallingAt(cmp: Comparison, l: seq<Nat>, n: Nat, r: seq<Nat>)
    requires Falling(cmp, l + [n] + r)
    ensures cmp(n.key) < 0 ==> AllBefore(cmp, r)
    ensures cmp(n.key) > 0 ==> AllAfter(cmp, l)
  {
    var all := l + [n] + r;
    assert all[|l|] == n;
    forall i | 0 <= i < |l| ensures cmp(n.key) > 0 ==> cmp(l[i].key) > 0 { assert all[i] == l[i]; }
    forall i | 0 <= i < |r| ensures cmp(n.key) < 0 ==> cmp(r[i].key) < 0 { assert all[|l| + 1 + i] == r[i]; }
  }

  /** When the root does not match, nothing does */
  lemma NothingElse(cmp: Comparison, t: Shape)
    requires t.Node? && Decides(cmp, t) && Falling(cmp, Entries(t)) && cmp(t.n.key) != 0
    ensures forall m <- Entries(t) :: cmp(m.key) != 0
  {
    FallingAt(cmp, Entries(t.l), t.n, Entries(t.r));
  }

  lemma RootEntry(t: Shape)
    requires t.Node?
    ensures t.n in Entries(t) && t.n in Nodes(t)
  {
  }

  lemma InsertOrder(n: Nat, t: Shape)
    requires t.Node? && Sorted(Entries(t)) && AllAdmissible(Entries(t)) && Admissible(n.key)
    requires Decides(Exactly(n.key), t)
    ensures var c := SplayCompareAbs(n.key, t.n.key);
      && (c == 0 <==> SplayRank(n.key) == SplayRank(t.n.key))
      && (c != 0 ==> forall m <- Nodes(t) :: SplayRank(m.key) != SplayRank(n.key))
      && (c < 0 ==> InOrder(Node(t.l, n, Node(Leaf, t.n, t.r))))
      && (c > 0 ==> InOrder(Node(Node(t.l, t.n, Leaf), n, t.r)))
  {
    hide SplayRank, SplayCompareAbs, Sorted, Nodes, Decides;
    var cmp := Exactly(n.key);
    var c := cmp(t.n.key);
    EntriesNodes(t);
    ExactlyFalls(n.key, Entries(t));
    RootEntry(t);
    if c != 0 { NothingElse(cmp, t); }
    if c < 0 { InsertBefore(n, t); }
    if c > 0 { InsertAfter(n, t); }
  }

  ghost predicate InOrder(t: Shape) { Sorted(Entries(t)) && AllAdmissible(Entries(t)) }

  lemma InsertBefore(n: Nat, t: Shape)
    requires t.Node? && InOrder(t) && Admissible(n.key) && Decides(Exactly(n.key), t) && Exactly(n.key)(t.n.key) < 0
    ensures InOrder(Node(t.l, n, Node(Leaf, t.n, t.r)))
  {
    hide SplayRank, SplayCompareAbs, Sorted, Exactly, Falling, Admissible;
    var cmp, l, r := Exactly(n.key), Entries(t.l), Entries(t.r);
    ExactlyFalls(n.key, Entries(t));
    FallingAt(cmp, l, t.n, r);
    var u := Node(t.l, n, Node(Leaf, t.n, t.r));
    assert Entries(u.r) == [t.n] + r;
    assert Entries(t) == l + ([t.n] + r);
    assert forall m <- [t.n] + r :: m in Entries(t);
    SortedInsert(l, n, [t.n] + r);
    assert Entries(u) == l + [n] + ([t.n] + r);
    assert forall m <- Entries(u) :: m == n || m in Entries(t);
  }

  lemma InsertAfter(n: Nat, t: Shape)
    requires t.Node? && InOrder(t) && Admissible(n.key) && Decides(Exactly(n.key), t) && Exactly(n.key)(t.n.key) > 0
    ensures InOrder(Node(Node(t.l, t.n, Leaf), n, t.r))
  {
    hide SplayRank, SplayCompareAbs, Sorted, Exactly, Falling, Admissible;
    var cmp, l, r := Exactly(n.key), Entries(t.l), Entries(t.r);
    ExactlyFalls(n.key, Entries(t));
    FallingAt(cmp, l, t.n, r);
    var u := Node(Node(t.l, t.n, Leaf), n, t.r);
    assert Entries(u.l) == l + [t.n];
    assert forall m <- l + [t.n] :: m in Entries(t);
    SortedInsert(l + [t.n], n, r);
    assert Entries(u) == (l + [t.n]) + [n] + r;
    assert forall m <- Entries(u) :: m == n || m in Entries(t);
  }

  lemma SortedInsert(b: seq<Nat>, n: Nat, a: seq<Nat>)
    requires Sorted(b + a)
    requires forall m <- b :: SplayRank(m.key) < SplayRank(n.key)
    requires forall m <- a :: SplayRank(n.key) < SplayRank(m.key)
    ensures Sorted(b + [n] + a)
  {
    hide SplayRank;
    var s, u := b + a, b + [n] + a;
    forall i, j | 0 <= i < j < |u|
      ensures SplayRank(u[i].key) < SplayRank(u[j].key)
    {
      if i < |b| { assert u[i] == b[i] == s[i]; } else if i > |b| { assert u[i] == s[i - 1]; }
      if j < |b| { assert u[j] == s[j]; } else if j > |b| { assert u[j] == a[j - |b| - 1] == s[j - 1]; }
    }
  }

  lemma CrownedBefore(mem: Memory, mem': Memory, t: Shape, n: Nat)
    requires t.Node? && Linked(mem, t) && Apart(t) && n !in Nodes(t) && Agree(mem, mem', mem.Keys - {t.n, n})
    requires t.n in mem' && mem'[t.n] == Cell(null, Root(t.r)) && n in mem' && mem'[n] == Cell(Root(t.l), t.n)
    ensures var u := Node(t.l, n, Node(Leaf, t.n, t.r)); Linked(mem', u) && Apart(u) && Nodes(u) == Nodes(t) + {n}
  {
    LinkedFrame(mem, mem', t.l);
    LinkedFrame(mem, mem', t.r);
    var o := Node(Leaf, t.n, t.r);
    assert Nodes(o.l) == {} && Apart(o.l) && t.n !in Nodes(t.r) && Apart(t.r);
    assert Nodes(o) == {t.n} + Nodes(t.r) && Apart(o) && Linked(mem', o);
  }

  lemma CrownedAfter(mem: Memory, mem': Memory, t: Shape, n: Nat)
    requires t.Node? && Linked(mem, t) && Apart(t) && n !in Nodes(t) && Agree(mem, mem', mem.Keys - {t.n, n})
    requires t.n in mem' && mem'[t.n] == Cell(Root(t.l), null) && n in mem' && mem'[n] == Cell(t.n, Root(t.r))
    ensures var u := Node(Node(t.l, t.n, Leaf), n, t.r); Linked(mem', u) && Apart(u) && Nodes(u) == Nodes(t) + {n}
  {
    LinkedFrame(mem, mem', t.l);
    LinkedFrame(mem, mem', t.r);
    var o := Node(t.l, t.n, Leaf);
    assert Nodes(o.r) == {} && Apart(o.r) && t.n !in Nodes(t.l) && Apart(t.l);
    assert Nodes(o) == {t.n} + Nodes(t.l) && Apart(o) && Linked(mem', o);
  }

  lemma LeafEntries(t: Shape)
    ensures t.Leaf? <==> |Entries(t)| == 0
  {
  }

  /** When the key is beyond every entry, the root has no right subtree */
  lemma LastRoot(k: Key, was: Shape, t: Shape)
    requires was.Node? && Entries(t) == Entries(was) && AllAfter(Exactly(k), Entries(was)) && Decides(Exactly(k), t)
    ensures t.Node? && t.r.Leaf?
  {
    LeafEntries(was);
    LeafEntries(t);
    RootEntry(t);
    SubEntries(t);
    LeafEntries(t.r);
    if t.r.Node? {
      RightEntry(t);
      assert false;
    }
  }

  lemma RightEntry(t: Shape)
    requires t.Node? && t.r.Node?
    ensures t.r.n in Entries(t.r) && t.r.n in Entries(t)
  {
    RootEntry(t.r);
    SubEntries(t);
    assert t.r.n in Entries(t.l) + Entries(t.r);
  }

  lemma SubEntries(t: Shape)
    requires t.Node?
    ensures forall m <- Entries(t.l) + Entries(t.r) :: m in Entries(t)
  {
  }

  lemma NoEntries(t: Shape)
    requires t.Leaf?
    ensures Nodes(t) == {}
  {
  }

  lemma RemoveOrder(t: Shape, k: Key)
    requires t.Node? && InOrder(t) && Admissible(k) && SplayRank(k) == SplayRank(t.n.key)
    ensures InOrder(t.l) && Sorted(Entries(t.l) + Entries(t.r)) && AllAdmissible(Entries(t.l) + Entries(t.r))
    ensures AllAfter(Exactly(k), Entries(t.l))
  {
    hide SplayRank, Admissible, Exactly;
    var l, r := Entries(t.l), Entries(t.r);
    var s, u := Entries(t), l + r;
    assert forall i | 0 <= i < |l| :: l[i] == s[i];
    assert s[|l|] == t.n;
    forall i, j | 0 <= i < j < |u|
      ensures SplayRank(u[i].key) < SplayRank(u[j].key)
    {
      assert u[i] == s[if i < |l| then i else i + 1] && u[j] == s[if j < |l| then j else j + 1];
    }
    assert forall m <- u :: m in s;
    BeforeRoot(t, k);
  }

  lemma BeforeRoot(t: Shape, k: Key)
    requires t.Node? && InOrder(t) && Admissible(k) && SplayRank(k) == SplayRank(t.n.key)
    ensures AllAfter(Exactly(k), Entries(t.l))
  {
    hide SplayRank, Admissible, Exactly;
    var l, s := Entries(t.l), Entries(t);
    assert forall i | 0 <= i < |l| :: l[i] == s[i];
    assert s[|l|] == t.n;
    ExactlyFalls(k, s);
    forall m | m in l ensures Exactly(k)(m.key) > 0 {
      var i :| 0 <= i < |l| && l[i] == m;
      assert SplayRank(s[i].key) < SplayRank(s[|l|].key);
    }
  }

  ghost function MemOf(s: set<Nat>): Memory
    reads s`tleft, s`tright
  {
    map n | n in s :: Cell(n.tleft, n.tright)
  }

  /** A comparison that can be searched for: one of the two, on entries it falls along */
  ghost predicate Searchable(k: Key, exact: bool, s: seq<Nat>) {
    Sorted(s) && AllAdmissible(s) && (if exact then Admissible(k) else Template(k) && Unhidden(k, set m | m in s))
  }

  /** What is sought is larger than the root, which has nothing larger under it */
  ghost predicate Last(cmp: Comparison, t: Shape) { t.Node? && t.r.Leaf? && cmp(t.n.key) > 0 }

  function Chosen(k: Key, exact: bool): Comparison { if exact then Exactly(k) else Wildly(k) }

  lemma ChosenFalls(k: Key, exact: bool, s: seq<Nat>)
    requires Searchable(k, exact, s)
    ensures Falling(Chosen(k, exact), s)
  {
    hide SplayRank, SplayGroup, SplayCompareAbs, SplayCompareWild;
    if exact { ExactlyFalls(k, s); } else { WildlyFalls(k, s); }
  }

  lemma FallingHalves(cmp: Comparison, t: Shape)
    requires t.Node? && Falling(cmp, Entries(t))
    ensures Falling(cmp, Entries(t.l)) && Falling(cmp, Entries(t.r))
    ensures cmp(t.n.key) < 0 ==> forall m | m in Entries(t) && cmp(m.key) == 0 :: m in Entries(t.l)
    ensures cmp(t.n.key) > 0 ==> forall m | m in Entries(t) && cmp(m.key) == 0 :: m in Entries(t.r)
  {
    var l, r := Entries(t.l), Entries(t.r);
    hide Entries;
    assert Entries(t) == l + [t.n] + r by {
      EntriesNode(t);
    }
    FallingAt(cmp, l, t.n, r);
    FallingEnds(cmp, l, t.n, r);
    hide Falling;
    forall m | m in Entries(t) && cmp(m.key) == 0 ensures cmp(t.n.key) < 0 ==> m in l {
    }
    forall m | m in Entries(t) && cmp(m.key) == 0 ensures cmp(t.n.key) > 0 ==> m in r {
    }
  }

  lemma EntriesNode(t: Shape)
    requires t.Node?
    ensures Entries(t) == Entries(t.l) + [t.n] + Entries(t.r)
  {
  }

  lemma FallingEnds(cmp: Comparison, l: seq<Nat>, n: Nat, r: seq<Nat>)
    requires Falling(cmp, l + [n] + r)
    ensures Falling(cmp, l) && Falling(cmp, r)
  {
    var s := l + [n] + r;
    assert forall i | 0 <= i < |l| :: l[i] == s[i];
    assert forall i | 0 <= i < |r| :: r[i] == s[|l| + 1 + i];
  }

  class Splay {
    var root: Nat?
    ghost var nodes: set<Nat>
    ghost var shape: Shape

    ghost function Mem(extra: set<Nat>): Memory
      reads this`nodes, nodes`tleft, nodes`tright, extra`tleft, extra`tright
    {
      MemOf(nodes + extra)
    }

    /** The links in memory are those of shape */
    ghost predicate Shaped()
      reads this, nodes`tleft, nodes`tright
    {
      Linked(Mem({}), shape) && Apart(shape) && Nodes(shape) == nodes && root == Root(shape)
    }

    ghost predicate Splaying(header: Nat, l: Chain, t: Shape, r: Chain)
      reads this`nodes, this`root, nodes`tleft, nodes`tright, header`tleft, header`tright
    {
      && Torn(Mem({header}), root, header, l, t, r) && t.Node?
      && ChainNodes(l) + Nodes(t) + ChainNodes(r) == nodes
    }

    method RotateRight(tmp: Nat, ghost header: Nat, ghost l: Chain, ghost t: Shape, ghost r: Chain)
      requires Splaying(header, l, t, r) && t.l.Node? && t.l.n == tmp
      modifies this`root, nodes`tleft, nodes`tright
      ensures Splaying(header, l, Node(t.l.l, tmp, Node(t.l.r, t.n, t.r)), r)
    {
      ghost var mem := Mem({header});
      assert Linked(mem, t.l) && tmp != root && tmp in nodes;
      root.tleft := tmp.tright;
      tmp.tright := root;
      root := tmp;
      TurnedRight(mem, header, l, t.l.l, tmp, t.l.r, t.n, t.r, r, Mem({header}));
    }

    method RotateLeft(tmp: Nat, ghost header: Nat, ghost l: Chain, ghost t: Shape, ghost r: Chain)
      requires Splaying(header, l, t, r) && t.r.Node? && t.r.n == tmp
      modifies this`root, nodes`tleft, nodes`tright
      ensures Splaying(header, l, Node(Node(t.l, t.n, t.r.l), tmp, t.r.r), r)
    {
      ghost var mem := Mem({header});
      assert Linked(mem, t.r) && tmp != root && tmp in nodes;
      root.tright := tmp.tleft;
      tmp.tleft := root;
      root := tmp;
      TurnedLeft(mem, header, l, t.l, t.n, t.r.l, tmp, t.r.r, r, Mem({header}));
    }

    /** The root is put aside on the left, the search goes on in its right subtree */
    method LinkRight(left: Nat, ghost header: Nat, ghost l: Chain, ghost t: Shape, ghost r: Chain) returns (left': Nat)
      requires Splaying(header, l, t, r) && t.r.Node? && left == End(l, header)
      modifies this`root, nodes`tright, header`tright
      ensures left' == t.n && Splaying(header, Link(l, t.n, t.l), t.r, r)
    {
      ghost var mem := Mem({header});
      left.tright := root;
      left' := root;
      root := root.tright;
      LinkedRight(mem, header, l, t, r, Mem({header}));
    }

    method LinkLeft(right: Nat, ghost header: Nat, ghost l: Chain, ghost t: Shape, ghost r: Chain) returns (right': Nat)
      requires Splaying(header, l, t, r) && t.l.Node? && right == End(r, header)
      modifies this`root, nodes`tleft, header`tleft
      ensures right' == t.n && Splaying(header, l, t.l, Link(r, t.n, t.r))
    {
      ghost var mem := Mem({header});
      right.tleft := root;
      right' := root;
      root := root.tleft;
      LinkedLeft(mem, header, l, t, r, Mem({header}));
    }

    /** nat_splay_assemble */
    method Assemble(header: Nat, left: Nat, right: Nat, ghost l: Chain, ghost t: Shape, ghost r: Chain)
      requires Splaying(header, l, t, r) && left == End(l, header) && right == End(r, header)
      modifies this`shape, nodes`tleft, nodes`tright, header`tleft, header`tright
      ensures Shaped() && shape == Assembled(l, t, r)
    {
      hide Disjoint, Linked, Apart, ChainNodes, End, Nodes, Root, CloseLeft, CloseRight, Splaying;
      CloseChains(header, left, right, l, t, r);
      ghost var mem, lt, rt := Mem({header}), CloseLeft(l, t.l), CloseRight(r, t.r);
      root.tleft := header.tright;
      root.tright := header.tleft;
      shape := Assembled(l, t, r);
      CrownedRoot(mem, Mem({}), lt, t.n, rt);
    }

    method CloseChains(header: Nat, left: Nat, right: Nat, ghost l: Chain, ghost t: Shape, ghost r: Chain)
      requires Splaying(header, l, t, r) && left == End(l, header) && right == End(r, header)
      modifies nodes`tleft, nodes`tright, header`tleft, header`tright
      ensures t.Node?
      ensures var lt, rt := CloseLeft(l, t.l), CloseRight(r, t.r);
        && Linked(Mem({header}), lt) && Linked(Mem({header}), rt) && Apart(lt) && Apart(rt)
        && header.tright == Root(lt) && header.tleft == Root(rt)
        && Nodes(lt) !! Nodes(rt) && t.n !in Nodes(lt) && t.n !in Nodes(rt)
        && t.n == root && t.n in nodes && header != t.n
        && Nodes(lt) + {t.n} + Nodes(rt) == nodes && header !in Nodes(lt) && header !in Nodes(rt)
    {
      ghost var mem := Mem({header});
      EndFacts(mem, root, header, l, t, r);
      left.tright := root.tleft;
      right.tleft := root.tright;
      ClosedChains(mem, header, l, t, r, Mem({header}));
    }

    /** The branch of the splay loop for a key below the root */
    method ZigLeft(cmp: Comparison, right: Nat, ghost header: Nat, ghost all: seq<Nat>, ghost l: Chain, ghost t: Shape,
        ghost r: Chain)
      returns (stop: bool, right': Nat, ghost t': Shape, ghost r': Chain)
      requires Splaying(header, l, t, r) && Aside(cmp, all, l, t, r) && right == End(r, header) && cmp(t.n.key) < 0
      modifies this`root, nodes`tleft, nodes`tright, header`tleft
      ensures Splaying(header, l, t', r') && Aside(cmp, all, l, t', r') && right' == End(r', header)
      ensures stop ==> cmp(t'.n.key) < 0 && t'.l.Leaf?
      ensures !stop ==> Size(t') < Size(t)
    {
      hide Torn, Aside, ChainNodes, Nodes;
      right', t', r' := right, t, r;
      TopFacts(Mem({header}), root, header, l, t', r);
      AsideLeft(cmp, all, l, t', r);
      var tmp := root.tleft;
      if tmp == null {
        stop := true;
        return;
      }
      if cmp(tmp.key) < 0 {
        RotateRight(tmp, header, l, t', r);
        t' := Node(t.l.l, tmp, Node(t.l.r, t.n, t.r));
        TopFacts(Mem({header}), root, header, l, t', r);
        AsideLeft(cmp, all, l, t', r);
        if root.tleft == null {
          stop := true;
          return;
        }
      }
      right' := LinkLeft(right, header, l, t', r);
      t', r' := t'.l, Link(r, t'.n, t'.r);
      stop := false;
    }

    /** The branch for a key beyond the root */
    method ZigRight(cmp: Comparison, left: Nat, ghost header: Nat, ghost all: seq<Nat>, ghost l: Chain, ghost t: Shape,
        ghost r: Chain)
      returns (stop: bool, left': Nat, ghost l': Chain, ghost t': Shape)
      requires Splaying(header, l, t, r) && Aside(cmp, all, l, t, r) && left == End(l, header) && cmp(t.n.key) > 0
      modifies this`root, nodes`tleft, nodes`tright, header`tright
      ensures Splaying(header, l', t', r) && Aside(cmp, all, l', t', r) && left' == End(l', header)
      ensures stop ==> cmp(t'.n.key) > 0 && t'.r.Leaf?
      ensures t.r.Leaf? ==> stop && l' == l && t' == t
      ensures !stop ==> Size(t') < Size(t)
    {
      hide Torn, Aside, ChainNodes, Nodes;
      left', t', l' := left, t, l;
      TopFacts(Mem({header}), root, header, l, t', r);
      AsideRight(cmp, all, l, t', r);
      var tmp := root.tright;
      if tmp == null {
        stop := true;
        return;
      }
      if cmp(tmp.key) > 0 {
        RotateLeft(tmp, header, l, t', r);
        t' := Node(Node(t.l, t.n, t.r.l), tmp, t.r.r);
        TopFacts(Mem({header}), root, header, l, t', r);
        AsideRight(cmp, all, l, t', r);
        if root.tright == null {
          stop := true;
          return;
        }
      }
      left' := LinkRight(left, header, l, t', r);
      l', t' := Link(l, t'.n, t'.l), t'.r;
      stop := false;
    }

    /**
      nat_splay_splay and nat_splay_splay_wild.  Whatever the comparison answers,
      the entries stay in order; if it falls along them, the root decides whether
      any entry matches.
     */
    method SplayTo(cmp: Comparison)
      requires Shaped()
      modifies this`root, this`shape, nodes`tleft, nodes`tright
      ensures Shaped() && Entries(shape) == old(Entries(shape)) && (root == null <==> old(root) == null)
      ensures Falling(cmp, Entries(shape)) ==> Decides(cmp, shape)
      ensures Last(cmp, old(shape)) ==> shape == old(shape)
    {
      if root == null {
        return;
      }
      var header := new Nat(root.key, 0, 0, 0);
      ghost var l, t, r, all := Hook, shape, Hook, Entries(shape);
      SplayStart(Mem({}), Mem({header}), root, header, t);
      hide Splaying, Aside, Falling, Decides, Nodes, Entries;
      var left, right;
      left, right, l, t, r := SplayLoop(cmp, header, all, t);
      Assemble(header, left, right, l, t, r);
      AssembledEntries(l, t, r);
      AssembledDecides(cmp, all, l, t, r);
    }

    /** From the root down, until it matches or there is nothing more to bring up */
    method SplayLoop(cmp: Comparison, header: Nat, ghost all: seq<Nat>, ghost t0: Shape)
      returns (left: Nat, right: Nat, ghost l: Chain, ghost t: Shape, ghost r: Chain)
      requires Splaying(header, Hook, t0, Hook) && Aside(cmp, all, Hook, t0, Hook) && root == t0.n
      modifies this`root, nodes`tleft, nodes`tright, header`tleft, header`tright
      ensures Splaying(header, l, t, r) && Aside(cmp, all, l, t, r) && root == t.n
      ensures left == End(l, header) && right == End(r, header)
      ensures cmp(t.n.key) == 0 || (cmp(t.n.key) < 0 && t.l.Leaf?) || (cmp(t.n.key) > 0 && t.r.Leaf?)
      ensures cmp(t0.n.key) > 0 && t0.r.Leaf? ==> l == Hook && t == t0 && r == Hook
    {
      left, right, l, t, r := header, header, Hook, t0, Hook;
      hide Torn, Aside, ChainNodes, Nodes, Linked, Apart;
      var stop := false;
      while !stop && cmp(root.key) != 0
        invariant Splaying(header, l, t, r) && Aside(cmp, all, l, t, r) && root == t.n
        invariant left == End(l, header) && right == End(r, header)
        invariant cmp(t0.n.key) > 0 && t0.r.Leaf? ==> l == Hook && t == t0 && r == Hook
        invariant stop ==> (cmp(t.n.key) < 0 && t.l.Leaf?) || (cmp(t.n.key) > 0 && t.r.Leaf?)
        decreases !stop, Size(t)
      {
        if cmp(root.key) < 0 {
          stop, right, t, r := ZigLeft(cmp, right, header, all, l, t, r);
        } else {
          stop, left, l, t := ZigRight(cmp, left, header, all, l, t, r);
        }
        TopFacts(Mem({header}), root, header, l, t, r);
      }
    }

    // ---------- The set of one tunnel's entries ----------

    ghost predicate Valid()
      reads this, nodes`tleft, nodes`tright
    {
      Shaped() && Sorted(Entries(shape)) && AllAdmissible(Entries(shape))
    }

    constructor ()
      ensures Valid() && nodes == {}
    {
      root, nodes, shape := null, {}, Leaf;
    }

    /** n becomes the root, the old root and all beyond it go right */
    method CrownBefore(n: Nat)
      requires Shaped() && root != null && n !in nodes
      modifies this, nodes`tleft, n`tleft, n`tright
      ensures Shaped() && nodes == old(nodes) + {n}
      ensures shape == Node(old(shape.l), n, Node(Leaf, old(shape.n), old(shape.r)))
    {
      ghost var mem, t := Mem({}), shape;
      n.tleft := root.tleft;
      n.tright := root;
      root.tleft := null;
      shape := Node(t.l, n, Node(Leaf, root, t.r));
      root := n;
      nodes := nodes + {n};
      CrownedBefore(mem, Mem({}), t, n);
    }

    /** n becomes the root, the old root and all below it go left */
    method CrownAfter(n: Nat)
      requires Shaped() && root != null && n !in nodes
      modifies this, nodes`tright, n`tleft, n`tright
      ensures Shaped() && nodes == old(nodes) + {n}
      ensures shape == Node(Node(old(shape.l), old(shape.n), Leaf), n, old(shape.r))
    {
      ghost var mem, t := Mem({}), shape;
      n.tright := root.tright;
      n.tleft := root;
      root.tright := null;
      shape := Node(Node(t.l, root, Leaf), n, t.r);
      root := n;
      nodes := nodes + {n};
      CrownedAfter(mem, Mem({}), t, n);
    }

    /** nat_splay_insert: null, or the entry that compares equal to n */
    method Insert(n: Nat) returns (found: Nat?)
      requires Valid() && n !in nodes && Admissible(n.key)
      modifies this, nodes`tleft, nodes`tright, n`tleft, n`tright
      ensures Valid()
      ensures found == null ==>
        nodes == old(nodes) + {n} && forall m <- old(nodes) :: SplayRank(m.key) != SplayRank(n.key)
      ensures found != null ==> nodes == old(nodes) && found in nodes && SplayRank(found.key) == SplayRank(n.key)
    {
      hide Linked, Apart, Decides, Sorted, AllAdmissible, SplayCompareAbs, SplayRank, Nodes, Entries;
      if root == null {
        PlantFirst(n);
        return null;
      }
      ExactlyFalls(n.key, Entries(shape));
      SplayTo(Exactly(n.key));
      ghost var t := shape;
      EntriesNodes(t);
      RootEntry(t);
      InsertOrder(n, t);
      var comp := SplayCompareAbs(n.key, root.key);
      if comp < 0 {
        CrownBefore(n);
      } else if comp > 0 {
        CrownAfter(n);
      } else {
        return root;
      }
      return null;
    }

    method PlantFirst(n: Nat)
      requires Valid() && root == null && Admissible(n.key)
      modifies this, n`tleft, n`tright
      ensures Valid() && nodes == old(nodes) + {n} && old(nodes) == {}
    {
      n.tleft, n.tright := null, null;
      shape := Node(Leaf, n, Leaf);
      root := n;
      nodes := nodes + {n};
    }

    /** nat_splay_remove: whether an entry that compares equal to n was there */
    method Remove(n: Nat) returns (removed: bool)
      requires Valid() && Admissible(n.key)
      modifies this, nodes`tleft, nodes`tright
      ensures Valid()
      ensures removed ==> exists m <- old(nodes) :: nodes == old(nodes) - {m} && SplayRank(m.key) == SplayRank(n.key)
      ensures !removed ==> nodes == old(nodes) && forall m <- nodes :: SplayRank(m.key) != SplayRank(n.key)
    {
      hide Linked, Apart, Decides, Sorted, AllAdmissible, SplayCompareAbs, SplayRank, Nodes, Entries;
      if root == null {
        NoEntries(shape);
        return false;
      }
      ExactlyFalls(n.key, Entries(shape));
      SplayTo(Exactly(n.key));
      ghost var t := shape;
      EntriesNodes(t);
      RootEntry(t);
      InsertOrder(n, t);
      if SplayCompareAbs(n.key, root.key) == 0 {
        RemoveOrder(t, n.key);
        RemoveRoot(n);
        return true;
      }
      return false;
    }

    /** The root goes, its left subtree's last entry takes over the right subtree */
    method RemoveRoot(n: Nat)
      requires Shaped() && root != null && InOrder(shape.l) && Admissible(n.key)
      requires AllAfter(Exactly(n.key), Entries(shape.l))
      modifies this, nodes`tleft, nodes`tright
      ensures Shaped() && nodes == old(nodes) - {old(root)}
      ensures Entries(shape) == old(Entries(shape.l) + Entries(shape.r))
    {
      hide Exactly, InOrder, Admissible;
      if root.tleft == null {
        DropRoot();
      } else {
        ghost var mem, t := Mem({}), shape;
        var tmp := root.tright;
        SplayLeft(n);
        LinkedFrame(mem, MemOf(Nodes(t.r)), t.r);
        EntriesNodes(t.l);
        EntriesNodes(shape);
        JoinRight(tmp, shape, t.r);
      }
    }

    method DropRoot()
      requires Shaped() && root != null && shape.l.Leaf?
      modifies this
      ensures Shaped() && nodes == old(nodes) - {old(root)}
      ensures Entries(shape) == old(Entries(shape.l) + Entries(shape.r))
    {
      ghost var mem, t := Mem({}), shape;
      root := root.tright;
      nodes, shape := nodes - {t.n}, t.r;
      LinkedFrame(mem, Mem({}), t.r);
    }

    /** The tree is cut down to the root's left subtree, with its last entry brought up */
    method SplayLeft(n: Nat)
      requires Shaped() && root != null && shape.l.Node? && InOrder(shape.l) && Admissible(n.key)
      requires AllAfter(Exactly(n.key), Entries(shape.l))
      modifies this, Nodes(shape.l)`tleft, Nodes(shape.l)`tright
      ensures Shaped() && nodes == Nodes(old(shape.l)) && Entries(shape) == Entries(old(shape.l))
      ensures shape.Node? && shape.r.Leaf?
    {
      ghost var mem, l := Mem({}), shape.l;
      root := root.tleft;
      nodes, shape := Nodes(l), l;
      LinkedFrame(mem, Mem({}), l);
      ExactlyFalls(n.key, Entries(l));
      SplayTo(Exactly(n.key));
      LastRoot(n.key, l, shape);
    }

    /** The right subtree, still in memory, is hung under the root */
    method JoinRight(tmp: Nat?, ghost l: Shape, ghost r: Shape)
      requires Shaped() && shape == l && l.Node? && l.r.Leaf? && tmp == Root(r)
      requires Apart(r) && Nodes(l) !! Nodes(r) && Linked(MemOf(Nodes(r)), r)
      modifies this`nodes, this`shape, root`tright
      ensures Shaped() && nodes == Nodes(l) + Nodes(r) && Entries(shape) == Entries(l) + Entries(r)
    {
      ghost var mem, memr := Mem({}), MemOf(Nodes(r));
      root.tright := tmp;
      nodes, shape := nodes + Nodes(r), Node(l.l, l.n, r);
      LinkedFrame(mem, Mem({}), l.l);
      LinkedFrame(memr, Mem({}), r);
    }

    /** nat_splay_find.  The generation tested for staleness is the template's.  What it finds always matches; that it
        finds a match if there is one needs a comparison that can be searched for. */
    method Find(k: Key, generation: nat, exact: bool, stale: bool, lastGen: nat) returns (found: Nat?)
      requires Valid()
      modifies this, nodes`tleft, nodes`tright
      ensures Valid() && nodes == old(nodes) && Entries(shape) == old(Entries(shape))
      ensures found != null ==> found in nodes && Chosen(k, exact)(found.key) == 0
      ensures Last(Chosen(k, exact), old(shape)) ==> found == null
      ensures found == null && (stale || generation < FIRST_GEN) && Searchable(k, exact, Entries(shape)) ==>
        forall m <- nodes :: Chosen(k, exact)(m.key) != 0
    {
      hide Linked, Apart, Sorted, AllAdmissible, Searchable, Falling, Decides, SplayCompareAbs, SplayCompareWild;
      if root == null {
        NoEntries(shape);
        return null;
      }
      EntriesNodes(shape);
      ghost var searchable := Searchable(k, exact, Entries(shape));
      if searchable {
        ChosenFalls(k, exact, Entries(shape));
      }
      SplayTo(Chosen(k, exact));
      EntriesNodes(shape);
      RootEntry(shape);
      if Chosen(k, exact)(root.key) == 0 {
        if !stale && generation >= FIRST_GEN && generation < lastGen {
          return null;
        }
        return root;
      }
      if searchable {
        NothingElse(Chosen(k, exact), shape);
      }
      return null;
    }

    /** nat_splay_splay on an entry of the tree, which becomes the root */
    method Bring(n: Nat)
      requires Valid() && n in nodes
      modifies this, nodes`tleft, nodes`tright
      ensures Valid() && nodes == old(nodes) && root == n
    {
      hide Linked, Apart, Sorted, AllAdmissible, SplayCompareAbs, SplayRank, Falling, Decides;
      EntriesNodes(shape);
      AdmissibleIn(Entries(shape), n);
      ExactlyFalls(n.key, Entries(shape));
      SplayTo(Exactly(n.key));
      EntriesNodes(shape);
      if Exactly(n.key)(root.key) != 0 {
        NothingElse(Exactly(n.key), shape);
      }
      RootEntry(shape);
      OneOfRank(root, n);
    }

    lemma AdmissibleIn(s: seq<Nat>, n: Nat)
      requires AllAdmissible(s) && n in s
      ensures Admissible(n.key)
    {
    }

    /** nat_splay_ro_find */
    method ReadOnlyFind(k: Key, exact: bool) returns (found: Nat?)
      requires Valid() && Searchable(k, exact, Entries(shape))
      ensures found != null ==> found in nodes && Chosen(k, exact)(found.key) == 0
      ensures found == null ==> forall m <- nodes :: Chosen(k, exact)(m.key) != 0
    {
      hide Apart, Sorted, AllAdmissible, Searchable, Falling, SplayCompareAbs, SplayCompareWild, Nodes, Entries;
      ghost var t, cmp := shape, Chosen(k, exact);
      EntriesNodes(shape);
      ChosenFalls(k, exact, Entries(shape));
      var tmp := root;
      while tmp != null
        invariant tmp == Root(t) && Linked(Mem({}), t) && Falling(cmp, Entries(t))
        invariant forall m | m in Entries(shape) && cmp(m.key) == 0 :: m in Entries(t)
        decreases t
      {
        FallingHalves(cmp, t);
        var comp := Chosen(k, exact)(tmp.key);
        if comp < 0 {
          tmp, t := tmp.tleft, t.l;
        } else if comp > 0 {
          tmp, t := tmp.tright, t.r;
        } else {
          return tmp;
        }
      }
      EntriesNodes(t);
      NoEntries(t);
      return null;
    }

    lemma RootEntryOf()
      requires Shaped()
      ensures if root == null then nodes == {} else root in nodes
    {
    }

    lemma OneOfRank(m: Nat, n: Nat)
      requires Valid() && m in nodes && n in nodes && SplayRank(m.key) == SplayRank(n.key)
      ensures m == n
    {
      hide SplayRank;
      EntriesNodes(shape);
      assert m in Entries(shape) && n in Entries(shape);
    }

    lemma SearchableExactly(k: Key)
      requires Valid() && Admissible(k)
      ensures Searchable(k, true, Entries(shape))
    {
    }

    lemma SearchableNodes(k: Key)
      requires Valid() && Template(k) && Unhidden(k, nodes)
      ensures Searchable(k, false, Entries(shape))
    {
      EntriesNodes(shape);
    }
  }

  /** Two entries that match the same key exactly are one: the two finds agree */
  lemma ExactMatchUnique(k: Key, s: seq<Nat>, m: Nat, n: Nat)
    requires Searchable(k, true, s) && m in s && n in s
    requires Chosen(k, true)(m.key) == 0 && Chosen(k, true)(n.key) == 0
    ensures m == n
  {
    hide SplayRank, SplayCompareAbs;
    ExactlyFalls(k, s);
    var i, j :| 0 <= i < |s| && 0 <= j < |s| && s[i] == m && s[j] == n;
    assert SplayRank(s[i].key) == SplayRank(s[j].key);
  }
}
