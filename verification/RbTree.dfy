/**
  The global red-black tree of NAT entries, one per protocol, with parent links,
  both rotations and both colour fixups.  Shapes and paths are ghost trees that
  say where each entry hangs; every pointer change is checked against them.
 */
module RbTree {
  import opened NatEntry

  /** A subtree */
  datatype Shape = Leaf | Node(l: Shape, n: Nat, red: bool, r: Shape)

  /** The tree around a hole, innermost step first */
  datatype Path =
    | Top
    | InLeft(up: Path, n: Nat, red: bool, r: Shape)
    | InRight(up: Path, l: Shape, n: Nat, red: bool)

  ghost function Root(t: Shape): Nat? { if t.Leaf? then null else t.n }

  ghost function Above(p: Path): Nat? { if p.Top? then null else p.n }

  ghost function Holder(p: Path): set<Nat> { if p.Top? then {} else {p.n} }

  ghost function Tip(t: Shape): set<Nat> { if t.Leaf? then {} else {t.n} }

  ghost predicate IsRed(t: Shape) { t.Node? && t.red }

  ghost predicate HoleInRed(p: Path) { !p.Top? && p.red }

  ghost function Nodes(t: Shape): set<Nat> {
    match t
    case Leaf => {}
    case Node(l, n, _, r) => Nodes(l) + {n} + Nodes(r)
  }

  ghost function PathNodes(p: Path): set<Nat> {
    match p
    case Top => {}
    case InLeft(up, n, _, r) => PathNodes(up) + {n} + Nodes(r)
    case InRight(up, l, n, _) => PathNodes(up) + {n} + Nodes(l)
  }

  /** In-order */
  ghost function Entries(t: Shape): seq<Nat> {
    match t
    case Leaf => []
    case Node(l, n, _, r) => Entries(l) + [n] + Entries(r)
  }

  ghost function Before(p: Path): seq<Nat> {
    match p
    case Top => []
    case InLeft(up, _, _, _) => Before(up)
    case InRight(up, l, n, _) => Before(up) + Entries(l) + [n]
  }

  ghost function After(p: Path): seq<Nat> {
    match p
    case Top => []
    case InLeft(up, n, _, r) => [n] + Entries(r) + After(up)
    case InRight(up, _, _, _) => After(up)
  }

  ghost function Plug(p: Path, t: Shape): Shape {
    match p
    case Top => t
    case InLeft(up, n, red, r) => Plug(up, Node(t, n, red, r))
    case InRight(up, l, n, red) => Plug(up, Node(l, n, red, t))
  }

  ghost function Around(p: Path, t: Shape): seq<Nat> { Before(p) + Entries(t) + After(p) }

  lemma {:induction false} PlugEntries(p: Path, t: Shape)
    ensures Entries(Plug(p, t)) == Around(p, t)
  {
    match p
    case Top =>
    case InLeft(up, n, red, r) =>
      PlugEntries(up, Node(t, n, red, r));
      assert Around(up, Node(t, n, red, r)) == Around(p, t);
    case InRight(up, l, n, red) =>
      PlugEntries(up, Node(l, n, red, t));
      assert Around(up, Node(l, n, red, t)) == Around(p, t);
  }

  // ---------- Colours ----------

  ghost function Height(t: Shape): nat {
    if t.Leaf? then 0 else Height(t.l) + (if t.red then 0 else 1)
  }

  /** No red entry with a red child, every way down meets as many black entries */
  ghost predicate Coloured(t: Shape) {
    t.Node? ==>
      && Coloured(t.l) && Coloured(t.r)
      && Height(t.l) == Height(t.r)
      && (t.red ==> !IsRed(t.l) && !IsRed(t.r))
  }

  /** The tree around a hole is coloured and asks for a subtree of height h */
  ghost predicate PathColoured(p: Path, h: nat) {
    match p
    case Top => true
    case InLeft(up, _, red, r) =>
      && Coloured(r) && Height(r) == h
      && (red ==> !IsRed(r) && !HoleInRed(up) && !up.Top?)
      && PathColoured(up, if red then h else h + 1)
    case InRight(up, l, _, red) =>
      && Coloured(l) && Height(l) == h
      && (red ==> !IsRed(l) && !HoleInRed(up) && !up.Top?)
      && PathColoured(up, if red then h else h + 1)
  }

  lemma {:induction false} PlugColoured(p: Path, t: Shape)
    requires Coloured(t) && PathColoured(p, Height(t)) && (HoleInRed(p) ==> !IsRed(t))
    ensures Coloured(Plug(p, t))
    ensures !p.Top? ==> !IsRed(Plug(p, t))
  {
    match p
    case Top =>
    case InLeft(up, n, red, r) => PlugColoured(up, Node(t, n, red, r));
    case InRight(up, l, n, red) => PlugColoured(up, Node(l, n, red, t));
  }

  // ---------- Every entry occurs once ----------

  ghost predicate Apart(t: Shape) {
    t.Node? ==>
      && Apart(t.l) && Apart(t.r)
      && Nodes(t.l) !! Nodes(t.r) && t.n !in Nodes(t.l) && t.n !in Nodes(t.r)
  }

  ghost predicate PathApart(p: Path) {
    match p
    case Top => true
    case InLeft(up, n, _, r) =>
      PathApart(up) && Apart(r) && PathNodes(up) !! Nodes(r) && n !in PathNodes(up) && n !in Nodes(r)
    case InRight(up, l, n, _) =>
      PathApart(up) && Apart(l) && PathNodes(up) !! Nodes(l) && n !in PathNodes(up) && n !in Nodes(l)
  }

  ghost predicate Disjoint(p: Path, t: Shape) {
    PathApart(p) && Apart(t) && PathNodes(p) !! Nodes(t)
  }

  /** Coloured, but for a red root over a red child */
  ghost predicate AlmostColoured(t: Shape) {
    t.Node? ==> Coloured(t.l) && Coloured(t.r) && Height(t.l) == Height(t.r)
  }

  ghost function Filled(p: Path, t: Shape): Shape
    requires !p.Top?
  {
    if p.InLeft? then Node(t, p.n, p.red, p.r) else Node(p.l, p.n, p.red, t)
  }

  ghost function Depth(p: Path): nat { if p.Top? then 0 else Depth(p.up) + 1 }

  ghost function Uncle(p: Path): Shape
    requires !p.Top? && !p.up.Top?
  {
    if p.up.InLeft? then p.up.r else p.up.l
  }

  ghost function Black(t: Shape): (b: Shape)
    ensures Entries(b) == Entries(t)
  {
    if t.Leaf? then Leaf else Node(t.l, t.n, false, t.r)
  }

  /** The grandparent's subtree once its colour went down to both its children */
  ghost function Flipped(p: Path, t: Shape): Shape
    requires !p.Top? && !p.up.Top?
  {
    var top, u := Black(Filled(p, t)), Black(Uncle(p));
    if p.up.InLeft? then Node(top, p.up.n, true, u) else Node(u, p.up.n, true, top)
  }

  lemma FilledColours(p: Path, t: Shape)
    requires Coloured(t) && PathColoured(p, Height(t)) && HoleInRed(p)
    ensures AlmostColoured(Filled(p, t)) && IsRed(Filled(p, t)) && !p.up.Top? && !p.up.red
    ensures Height(Filled(p, t)) == Height(t) == Height(Uncle(p)) && Coloured(Uncle(p))
    ensures PathColoured(p.up.up, Height(t) + 1)
    ensures p.InLeft? ==> !IsRed(p.r)
    ensures p.InRight? ==> !IsRed(p.l)
  {
  }

  lemma FlippedColours(p: Path, t: Shape)
    requires Coloured(t) && PathColoured(p, Height(t)) && HoleInRed(p) && IsRed(Uncle(p))
    ensures !p.up.Top? && var f := Flipped(p, t); Coloured(f) && PathColoured(p.up.up, Height(f))
  {
    FilledColours(p, t);
    var top, u := Black(Filled(p, t)), Black(Uncle(p));
    assert Coloured(top) && Coloured(u) && Height(u) == Height(top) == Height(t) + 1;
  }

  lemma FlippedAround(p: Path, t: Shape)
    requires !p.Top? && !p.up.Top?
    ensures Around(p.up.up, Flipped(p, t)) == Around(p, t)
  {
    var top := Filled(p, t);
    AroundFilled(p, t);
    AroundFilled(p.up, top);
    assert Entries(Flipped(p, t)) == Entries(Filled(p.up, top));
  }

  lemma AroundFilled(p: Path, t: Shape)
    requires !p.Top?
    ensures Around(p.up, Filled(p, t)) == Around(p, t)
  {
  }

  lemma RotatedEntries(a: Shape, n: Nat, b: Shape, m: Nat, c: Shape, r1: bool, r2: bool, r3: bool, r4: bool)
    ensures Entries(Node(a, n, r1, Node(b, m, r2, c))) == Entries(Node(Node(a, n, r3, b), m, r4, c))
  {
  }

  // ---------- Search order ----------

  ghost predicate Sorted(s: seq<Nat>) {
    forall i, j | 0 <= i < j < |s| :: TreeRank(s[i].key) < TreeRank(s[j].key)
  }

  ghost predicate Below(s: seq<Nat>, r: int) { forall m <- s :: TreeRank(m.key) < r }

  ghost predicate Beyond(s: seq<Nat>, r: int) { forall m <- s :: r < TreeRank(m.key) }

  lemma SortedParts(b: seq<Nat>, l: seq<Nat>, n: Nat, r: seq<Nat>, a: seq<Nat>)
    requires Sorted(b + (l + [n] + r) + a)
    ensures forall m <- l :: TreeRank(m.key) < TreeRank(n.key)
    ensures forall m <- r :: TreeRank(n.key) < TreeRank(m.key)
  {
    hide TreeRank;
    var all, c := b + (l + [n] + r) + a, |b| + |l|;
    assert all[c] == n;
    forall i | 0 <= i < |l| ensures TreeRank(l[i].key) < TreeRank(n.key) { assert all[|b| + i] == l[i]; }
    forall i | 0 <= i < |r| ensures TreeRank(n.key) < TreeRank(r[i].key) { assert all[c + 1 + i] == r[i]; }
  }

  lemma NoEqual(b: seq<Nat>, a: seq<Nat>, r: int)
    requires Below(b, r) && Beyond(a, r)
    ensures forall m | m in b + a :: TreeRank(m.key) != r
  {
  }

  /** Which side of t.n can still hold rank r */
  lemma Descend(p: Path, t: Shape, r: int)
    requires t.Node? && Sorted(Around(p, t)) && Below(Before(p), r) && Beyond(After(p), r)
    ensures r < TreeRank(t.n.key) ==> Beyond(After(InLeft(p, t.n, t.red, t.r)), r)
    ensures r > TreeRank(t.n.key) ==> Below(Before(InRight(p, t.l, t.n, t.red)), r)
  {
    hide TreeRank;
    SortedParts(Before(p), Entries(t.l), t.n, Entries(t.r), After(p));
  }

  lemma SortedInsert(b: seq<Nat>, n: Nat, a: seq<Nat>)
    requires Sorted(b + a) && Below(b, TreeRank(n.key)) && Beyond(a, TreeRank(n.key))
    ensures Sorted(b + [n] + a)
  {
    hide TreeRank;
    var s, u := b + a, b + [n] + a;
    forall i, j | 0 <= i < j < |u|
      ensures TreeRank(u[i].key) < TreeRank(u[j].key)
    {
      if i < |b| { assert u[i] == b[i] == s[i]; } else if i > |b| { assert u[i] == s[i - 1]; }
      if j < |b| { assert u[j] == s[j]; } else if j > |b| { assert u[j] == a[j - |b| - 1] == s[j - 1]; }
    }
  }

  /** No group of one external address and port mixes a wildcard with other entries */
  ghost predicate Unmixed(s: set<Nat>) {
    forall m, n | m in s && n in s && TreeGroup(m.key) == TreeGroup(n.key) :: m.key.flags.allDst == n.key.flags.allDst
  }

  ghost predicate Searchable(s: seq<Nat>) {
    && Sorted(s) && (forall m <- s :: Admissible(m.key))
    && forall m, n | m in s && n in s && TreeGroup(m.key) == TreeGroup(n.key) ::
      m.key.flags.allDst == n.key.flags.allDst
  }

  ghost predicate WildBelow(k: Key, s: seq<Nat>) { forall m <- s :: TreeCompareWild(k, m.key) > 0 }

  ghost predicate WildBeyond(k: Key, s: seq<Nat>) { forall m <- s :: TreeCompareWild(k, m.key) < 0 }

  lemma WildParts(b: seq<Nat>, l: seq<Nat>, n: Nat, r: seq<Nat>, a: seq<Nat>, k: Key)
    requires Searchable(b + (l + [n] + r) + a) && Template(k)
    ensures TreeCompareWild(k, n.key) < 0 ==> WildBeyond(k, r)
    ensures TreeCompareWild(k, n.key) > 0 ==> WildBelow(k, l)
  {
    hide TreeCompareWild, TreeRank, TreeGroup;
    SortedParts(b, l, n, r, a);
    var all := b + (l + [n] + r) + a;
    assert all[|b| + |l|] == n;
    forall i | 0 <= i < |l| && TreeCompareWild(k, n.key) > 0
      ensures TreeCompareWild(k, l[i].key) > 0
    {
      assert all[|b| + i] == l[i];
      TreeWildMonotone(k, l[i].key, n.key);
    }
    forall i | 0 <= i < |r| && TreeCompareWild(k, n.key) < 0
      ensures TreeCompareWild(k, r[i].key) < 0
    {
      assert all[|b| + |l| + 1 + i] == r[i];
      TreeWildMonotone(k, n.key, r[i].key);
    }
  }

  lemma DescendWild(p: Path, t: Shape, k: Key)
    requires t.Node? && Searchable(Around(p, t)) && Template(k)
    requires WildBelow(k, Before(p)) && WildBeyond(k, After(p))
    ensures TreeCompareWild(k, t.n.key) < 0 ==> WildBeyond(k, After(InLeft(p, t.n, t.red, t.r)))
    ensures TreeCompareWild(k, t.n.key) > 0 ==> WildBelow(k, Before(InRight(p, t.l, t.n, t.red)))
  {
    hide TreeCompareWild, TreeRank, TreeGroup;
    WildParts(Before(p), Entries(t.l), t.n, Entries(t.r), After(p), k);
  }

  lemma {:induction false} EntriesNodes(t: Shape)
    ensures Nodes(t) == set n | n in Entries(t)
  {
    if t.Node? {
      EntriesNodes(t.l);
      EntriesNodes(t.r);
    }
  }

  lemma SingleEntry(p: Path, n: Nat)
    ensures var t := Node(Leaf, n, true, Leaf);
      Coloured(t) && Height(t) == 0 && Nodes(t) == {n} && Around(p, t) == Before(p) + [n] + After(p)
    ensures Around(p, Leaf) == Before(p) + After(p)
    ensures PathNodes(p) == set m | m in Before(p) + After(p)
  {
    assert Entries(Node(Leaf, n, true, Leaf)) == [n];
    assert Before(p) + [] + After(p) == Before(p) + After(p);
    PathEntries(p);
  }

  lemma AroundNodes(p: Path, t: Shape)
    ensures PathNodes(p) + Nodes(t) == set n | n in Around(p, t)
  {
    EntriesNodes(t);
    PathEntries(p);
  }

  lemma {:induction false} PathEntries(p: Path)
    ensures PathNodes(p) == (set n | n in Before(p)) + (set n | n in After(p))
  {
    match p
    case Top =>
    case InLeft(up, n, _, r) =>
      EntriesNodes(r);
      PathEntries(up);
    case InRight(up, l, n, _) =>
      EntriesNodes(l);
      PathEntries(up);
  }

  lemma AllSearchable(t: Shape)
    requires Sorted(Entries(t)) && (forall n <- Nodes(t) :: Admissible(n.key)) && Unmixed(Nodes(t))
    ensures Searchable(Entries(t))
  {
    EntriesNodes(t);
  }

  lemma WildNone(p: Path, t: Shape, k: Key)
    requires Around(p, Leaf) == Entries(t) && WildBelow(k, Before(p)) && WildBeyond(k, After(p))
    ensures forall m <- Nodes(t) :: TreeCompareWild(k, m.key) != 0
  {
    EntriesNodes(t);
  }

  lemma {:induction false} PlugNode(p: Path, t: Shape)
    requires t.Node?
    ensures Plug(p, t).Node?
  {
    if !p.Top? { PlugNode(p.up, Filled(p, t)); }
  }

  // ---------- Links in memory ----------

  /** The tree fields of one entry */
  datatype Cell = Cell(left: Nat?, right: Nat?, parent: Nat?, red: bool)

  type Memory = map<Nat, Cell>

  ghost predicate Linked(mem: Memory, t: Shape, parent: Nat?) {
    t.Node? ==>
      && t.n in mem && mem[t.n] == Cell(Root(t.l), Root(t.r), parent, t.red)
      && Linked(mem, t.l, t.n) && Linked(mem, t.r, t.n)
  }

  ghost predicate PathLinked(mem: Memory, root: Nat?, p: Path, hole: Nat?) {
    match p
    case Top => root == hole
    case InLeft(up, n, red, r) =>
      && n in mem && mem[n] == Cell(hole, Root(r), Above(up), red)
      && Linked(mem, r, n) && PathLinked(mem, root, up, n)
    case InRight(up, l, n, red) =>
      && n in mem && mem[n] == Cell(Root(l), hole, Above(up), red)
      && Linked(mem, l, n) && PathLinked(mem, root, up, n)
  }

  /** The links in memory are those of subtree t hung in the hole of p */
  ghost predicate At(mem: Memory, root: Nat?, p: Path, t: Shape) {
    Disjoint(p, t) && PathLinked(mem, root, p, Root(t)) && Linked(mem, t, Above(p))
  }

  ghost predicate Agree(mem: Memory, mem': Memory, s: set<Nat>) {
    forall x | x in s && x in mem :: x in mem' && mem'[x] == mem[x]
  }

  lemma {:induction false} LinkedFrame(mem: Memory, mem': Memory, t: Shape, parent: Nat?)
    requires Linked(mem, t, parent) && Agree(mem, mem', Nodes(t))
    ensures Linked(mem', t, parent)
  {
    if t.Node? {
      LinkedFrame(mem, mem', t.l, t.n);
      LinkedFrame(mem, mem', t.r, t.n);
    }
  }

  lemma {:induction false} PathFrame(mem: Memory, mem': Memory, root: Nat?, p: Path, hole: Nat?)
    requires PathLinked(mem, root, p, hole) && Agree(mem, mem', PathNodes(p))
    ensures PathLinked(mem', root, p, hole)
  {
    match p
    case Top =>
    case InLeft(up, n, red, r) =>
      LinkedFrame(mem, mem', r, n);
      PathFrame(mem, mem', root, up, n);
    case InRight(up, l, n, red) =>
      LinkedFrame(mem, mem', l, n);
      PathFrame(mem, mem', root, up, n);
  }

  /** The parent of the hole now points at c, the tree above it is the same */
  ghost predicate Hung(mem: Memory, mem': Memory, p: Path, c: Nat?) {
    p.Top? ||
    (p.n in mem && p.n in mem' && mem'[p.n] == if p.InLeft? then mem[p.n].(left := c) else mem[p.n].(right := c))
  }

  lemma HungPath(mem: Memory, mem': Memory, root: Nat?, p: Path, before: Nat?, c: Nat?)
    requires PathApart(p) && PathLinked(mem, root, p, before)
    requires Hung(mem, mem', p, c) && Agree(mem, mem', PathNodes(p) - Holder(p))
    ensures PathLinked(mem', PathRoot(root, p, c), p, c)
  {
    match p
    case Top =>
    case InLeft(up, n, red, r) =>
      LinkedFrame(mem, mem', r, n);
      PathFrame(mem, mem', root, up, n);
    case InRight(up, l, n, red) =>
      LinkedFrame(mem, mem', l, n);
      PathFrame(mem, mem', root, up, n);
  }

  lemma AdoptedSubtree(mem: Memory, mem': Memory, t: Shape, parent: Nat?, n: Nat?)
    requires Apart(t) && Linked(mem, t, parent) && Agree(mem, mem', Nodes(t) - Tip(t))
    requires t.Node? ==> t.n in mem' && mem'[t.n] == mem[t.n].(parent := n)
    ensures Linked(mem', t, n)
  {
    if t.Node? {
      LinkedFrame(mem, mem', t.l, t.n);
      LinkedFrame(mem, mem', t.r, t.n);
    }
  }

  lemma {:induction false} ToTop(mem: Memory, root: Nat?, p: Path, t: Shape)
    requires At(mem, root, p, t)
    ensures At(mem, root, Top, Plug(p, t))
    ensures Nodes(Plug(p, t)) == PathNodes(p) + Nodes(t)
  {
    match p
    case Top =>
    case InLeft(up, n, red, r) => ToTop(mem, root, up, Node(t, n, red, r));
    case InRight(up, l, n, red) => ToTop(mem, root, up, Node(l, n, red, t));
  }

  // ---------- The pointer operations, on memory ----------

  ghost function PathRoot(root: Nat?, p: Path, c: Nat?): Nat? { if p.Top? then c else root }

  /** n over (a, m over (b, c)) becomes m over (n over (a, b), c) */
  lemma RotatedLeft(mem: Memory, root: Nat?, p: Path,
                    a: Shape, n: Nat, nred: bool, b: Shape, m: Nat, mred: bool, c: Shape, mem': Memory)
    requires At(mem, root, p, Node(a, n, nred, Node(b, m, mred, c)))
    requires Agree(mem, mem', mem.Keys - {n, m} - Tip(b) - Holder(p)) && Hung(mem, mem', p, m)
    requires n in mem' && mem'[n] == Cell(Root(a), Root(b), m, nred)
    requires m in mem' && mem'[m] == Cell(n, Root(c), Above(p), mred)
    requires b.Node? ==> b.n in mem' && b.n in mem && mem'[b.n] == mem[b.n].(parent := n)
    ensures At(mem', PathRoot(root, p, m), p, Node(Node(a, n, nred, b), m, mred, c))
  {
    assert Linked(mem, Node(b, m, mred, c), n) && Apart(Node(b, m, mred, c));
    LinkedFrame(mem, mem', a, n);
    AdoptedSubtree(mem, mem', b, m, n);
    LinkedFrame(mem, mem', c, m);
    HungPath(mem, mem', root, p, n, m);
    RotatedApart(p, a, n, nred, b, m, mred, c);
    assert Linked(mem', Node(a, n, nred, b), m);
  }

  /** m over (n over (a, b), c) becomes n over (a, m over (b, c)) */
  lemma RotatedRight(mem: Memory, root: Nat?, p: Path,
                     a: Shape, n: Nat, nred: bool, b: Shape, m: Nat, mred: bool, c: Shape, mem': Memory)
    requires At(mem, root, p, Node(Node(a, n, nred, b), m, mred, c))
    requires Agree(mem, mem', mem.Keys - {n, m} - Tip(b) - Holder(p)) && Hung(mem, mem', p, n)
    requires m in mem' && mem'[m] == Cell(Root(b), Root(c), n, mred)
    requires n in mem' && mem'[n] == Cell(Root(a), m, Above(p), nred)
    requires b.Node? ==> b.n in mem' && b.n in mem && mem'[b.n] == mem[b.n].(parent := m)
    ensures At(mem', PathRoot(root, p, n), p, Node(a, n, nred, Node(b, m, mred, c)))
  {
    assert Linked(mem, Node(a, n, nred, b), m) && Apart(Node(a, n, nred, b));
    LinkedFrame(mem, mem', a, n);
    AdoptedSubtree(mem, mem', b, n, m);
    LinkedFrame(mem, mem', c, m);
    HungPath(mem, mem', root, p, m, n);
    RotatedApart(p, a, n, nred, b, m, mred, c);
    assert Linked(mem', Node(b, m, mred, c), n);
  }

  lemma RotatedApart(p: Path, a: Shape, n: Nat, nred: bool, b: Shape, m: Nat, mred: bool, c: Shape)
    ensures Disjoint(p, Node(a, n, nred, Node(b, m, mred, c))) <==> Disjoint(p, Node(Node(a, n, nred, b), m, mred, c))
  {
    var nb, nc := Node(a, n, nred, b), Node(b, m, mred, c);
    assert Nodes(Node(nb, m, mred, c)) == Nodes(Node(a, n, nred, nc));
    assert Apart(Node(nb, m, mred, c)) <==> Apart(Node(a, n, nred, nc));
  }

  lemma RotationFacts(mem: Memory, root: Nat?, p: Path,
                      a: Shape, n: Nat, nred: bool, b: Shape, m: Nat, mred: bool, c: Shape)
    requires At(mem, root, p, Node(a, n, nred, Node(b, m, mred, c)))
    ensures n in mem && mem[n] == Cell(Root(a), m, Above(p), nred)
    ensures m in mem && mem[m] == Cell(Root(b), Root(c), n, mred) && m != n
    ensures b.Node? ==> b.n in mem && mem[b.n].parent == m && b.n != n && b.n != m
    ensures !p.Top? ==>
      && p.n in mem && p.n != n && p.n != m && p.n != Root(b)
      && (n == mem[p.n].left <==> p.InLeft?) && (p.InRight? ==> mem[p.n].right == n)
  {
    assert Linked(mem, Node(b, m, mred, c), n) && Linked(mem, b, m);
    assert Apart(Node(b, m, mred, c));
  }

  lemma RotationFactsRight(mem: Memory, root: Nat?, p: Path,
                           a: Shape, n: Nat, nred: bool, b: Shape, m: Nat, mred: bool, c: Shape)
    requires At(mem, root, p, Node(Node(a, n, nred, b), m, mred, c))
    ensures m in mem && mem[m] == Cell(n, Root(c), Above(p), mred)
    ensures n in mem && mem[n] == Cell(Root(a), Root(b), m, nred) && m != n
    ensures b.Node? ==> b.n in mem && mem[b.n].parent == n && b.n != n && b.n != m
    ensures !p.Top? ==>
      && p.n in mem && p.n != n && p.n != m && p.n != Root(b)
      && (m == mem[p.n].left <==> p.InLeft?) && (p.InRight? ==> mem[p.n].right == m)
  {
    assert Linked(mem, Node(a, n, nred, b), m) && Linked(mem, b, n);
    assert Apart(Node(a, n, nred, b));
  }

  // ---------- Walking and painting ----------

  /** One step up or down changes the point of view, not the tree */
  lemma Step(mem: Memory, root: Nat?, p: Path, t: Shape)
    requires !p.Top?
    ensures At(mem, root, p, t) <==> At(mem, root, p.up, Filled(p, t))
    ensures Around(p, t) == Around(p.up, Filled(p, t))
    ensures PathNodes(p) + Nodes(t) == PathNodes(p.up) + Nodes(Filled(p, t))
  {
  }

  lemma Painted(mem: Memory, root: Nat?, p: Path, l: Shape, n: Nat, was: bool, red: bool, r: Shape, mem': Memory)
    requires At(mem, root, p, Node(l, n, was, r))
    requires Agree(mem, mem', mem.Keys - {n}) && n in mem' && mem'[n] == Cell(Root(l), Root(r), Above(p), red)
    ensures At(mem', root, p, Node(l, n, red, r))
  {
    LinkedFrame(mem, mem', l, n);
    LinkedFrame(mem, mem', r, n);
    PathFrame(mem, mem', root, p, n);
  }

  lemma ParentFacts(mem: Memory, root: Nat?, p: Path, t: Shape)
    requires At(mem, root, p, t) && t.Node? && HoleInRed(p) && PathColoured(p, Height(t))
    ensures t.n in mem && p.n in mem && !p.up.Top? && p.up.n in mem
    ensures mem[t.n].parent == p.n && mem[p.n].parent == p.up.n
    ensures mem[p.up.n].left == p.n <==> p.up.InLeft?
  {
    assert PathLinked(mem, root, p.up, p.n);
    assert p.n !in PathNodes(p.up);
  }

  /** A search stands at t; everything else of the tree hangs around p */
  ghost predicate Seeking(mem: Memory, root: Nat?, all: seq<Nat>, p: Path, t: Shape) {
    At(mem, root, p, t) && Around(p, t) == all && PathNodes(p) + Nodes(t) == mem.Keys
  }

  lemma SeekTop(mem: Memory, root: Nat?, t: Shape)
    requires At(mem, root, Top, t) && Nodes(t) == mem.Keys
    ensures Seeking(mem, root, Entries(t), Top, t) && root == Root(t) && PathColoured(Top, Height(t))
  {
  }

  ghost function Search(t: Shape, k: Key): Nat? {
    if t.Leaf? then null
    else
      var comp := TreeCompareWild(k, t.n.key);
      if comp < 0 then Search(t.l, k) else if comp > 0 then Search(t.r, k) else t.n
  }

  lemma SearchableSides(t: Shape)
    requires t.Node? && Searchable(Entries(t))
    ensures Searchable(Entries(t.l)) && Searchable(Entries(t.r))
  {
    hide Searchable;
    PartsSearchable(Entries(t.l), t.n, Entries(t.r));
  }

  lemma PartsSearchable(l: seq<Nat>, n: Nat, r: seq<Nat>)
    requires Searchable(l + [n] + r)
    ensures Searchable(l) && Searchable(r)
  {
    hide TreeRank, TreeGroup, Admissible;
    var s := l + [n] + r;
    assert forall i | 0 <= i < |l| :: l[i] == s[i];
    assert forall i | 0 <= i < |r| :: r[i] == s[|l| + 1 + i];
    assert (forall m <- l :: m in s) && forall m <- r :: m in s;
  }

  lemma LowShape(t: Shape)
    requires Coloured(t) && Height(t) == 0
    ensures t.Node? ==> Nodes(t) == {t.n}
  {
  }

  lemma SidesSorted(t: Shape)
    requires t.Node? && Sorted(Entries(t))
    ensures forall m <- Nodes(t.l) :: TreeRank(m.key) < TreeRank(t.n.key)
    ensures forall m <- Nodes(t.r) :: TreeRank(t.n.key) < TreeRank(m.key)
  {
    hide TreeRank;
    assert [] + (Entries(t.l) + [t.n] + Entries(t.r)) + [] == Entries(t);
    SortedParts([], Entries(t.l), t.n, Entries(t.r), []);
    EntriesNodes(t.l);
    EntriesNodes(t.r);
  }

  lemma MiddleRoot(t: Shape, lo: Nat, mid: Nat, hi: Nat)
    requires Coloured(t) && Sorted(Entries(t)) && Nodes(t) == {lo, mid, hi}
    requires TreeRank(lo.key) < TreeRank(mid.key) < TreeRank(hi.key)
    ensures t.Node? && t.n == mid
  {
    hide TreeRank, Sorted;
    SidesSorted(t);
    forall side | side in {t.l, t.r} && Height(side) == 0 ensures side.Node? ==> Nodes(side) == {side.n} {
      LowShape(side);
    }
  }

  /** The search finds a match exactly when there is one */
  lemma {:induction false} SearchFinds(t: Shape, k: Key)
    requires Searchable(Entries(t)) && Template(k)
    ensures Search(t, k) != null ==> Search(t, k) in Nodes(t) && TreeCompareWild(k, Search(t, k).key) == 0
    ensures Search(t, k) == null ==> forall m <- Nodes(t) :: TreeCompareWild(k, m.key) != 0
  {
    hide TreeCompareWild, Searchable;
    if t.Node? {
      SearchableSides(t);
      SearchFinds(t.l, k);
      SearchFinds(t.r, k);
      assert [] + (Entries(t.l) + [t.n] + Entries(t.r)) + [] == Entries(t);
      WildParts([], Entries(t.l), t.n, Entries(t.r), [], k);
      EntriesNodes(t.l);
      EntriesNodes(t.r);
    }
  }

  lemma SoughtAll(mem: Memory, root: Nat?, all: seq<Nat>, p: Path, t: Shape)
    requires Seeking(mem, root, all, p, t)
    ensures t.Leaf? ==> Around(p, Leaf) == all
  {
  }

  lemma WildHere(mem: Memory, root: Nat?, all: seq<Nat>, p: Path, t: Shape, k: Key)
    requires Seeking(mem, root, all, p, t) && t.Node? && Searchable(all) && Template(k)
    requires WildBelow(k, Before(p)) && WildBeyond(k, After(p))
    ensures t.n in mem
    ensures TreeCompareWild(k, t.n.key) < 0 ==> WildBeyond(k, After(InLeft(p, t.n, t.red, t.r)))
    ensures TreeCompareWild(k, t.n.key) > 0 ==> WildBelow(k, Before(InRight(p, t.l, t.n, t.red)))
  {
    hide At, TreeCompareWild, Before, After, Around;
    DescendWild(p, t, k);
  }

  lemma GoLeft(mem: Memory, root: Nat?, all: seq<Nat>, p: Path, t: Shape)
    requires Seeking(mem, root, all, p, t) && t.Node?
    ensures Seeking(mem, root, all, InLeft(p, t.n, t.red, t.r), t.l)
    ensures t.n in mem && mem[t.n].left == Root(t.l) && mem[t.n].red == t.red
  {
    Step(mem, root, InLeft(p, t.n, t.red, t.r), t.l);
  }

  lemma GoRight(mem: Memory, root: Nat?, all: seq<Nat>, p: Path, t: Shape)
    requires Seeking(mem, root, all, p, t) && t.Node?
    ensures Seeking(mem, root, all, InRight(p, t.l, t.n, t.red), t.r)
    ensures t.n in mem && mem[t.n].right == Root(t.r)
  {
    Step(mem, root, InRight(p, t.l, t.n, t.red), t.r);
  }

  lemma TopFacts(mem: Memory, root: Nat?, p: Path, t: Shape)
    requires At(mem, root, p, t) && t.Node? && Coloured(t)
    ensures root != null && AlmostColoured(t)
    ensures t.n in mem && (mem[t.n].parent == Above(p))
    ensures !p.Top? ==> p.n in mem && mem[p.n].red == p.red
  {
    PlugNode(p, t);
    ToTop(mem, root, p, t);
  }

  lemma Attached(mem: Memory, root: Nat?, p: Path, n: Nat, mem': Memory)
    requires At(mem, root, p, Leaf) && n !in mem && n !in PathNodes(p)
    requires Agree(mem, mem', mem.Keys - Holder(p)) && Hung(mem, mem', p, n)
    requires n in mem' && mem'[n] == Cell(null, null, Above(p), true)
    ensures At(mem', PathRoot(root, p, n), p, Node(Leaf, n, true, Leaf))
  {
    HungPath(mem, mem', root, p, null, n);
  }

  lemma ReplaceFacts(mem: Memory, root: Nat?, p: Path, l: Shape, n: Nat, red: bool, r: Shape)
    requires At(mem, root, p, Node(l, n, red, r))
    ensures n in mem && mem[n] == Cell(Root(l), Root(r), Above(p), red)
    ensures l.Node? ==> l.n in mem && l.n != n && l.n != Root(r)
    ensures r.Node? ==> r.n in mem && r.n != n
    ensures !p.Top? ==>
      p.n in mem && p.n != n && p.n != Root(l) && p.n != Root(r) && (n == mem[p.n].left <==> p.InLeft?)
  {
    assert Linked(mem, l, n) && Linked(mem, r, n);
  }

  lemma OutsideFacts(m: Nat, p: Path, l: Shape, n: Nat, red: bool, r: Shape)
    requires m !in PathNodes(p) + Nodes(Node(l, n, red, r))
    ensures m != n && m != Above(p) && m != Root(l) && m != Root(r)
    ensures m !in PathNodes(p) + Nodes(l) + Nodes(r)
  {
  }

  lemma SameAround(p: Path, t: Shape, t': Shape)
    requires Entries(t) == Entries(t')
    ensures Around(p, t) == Around(p, t')
  {
  }

  /** What a black sibling s leaves for the rest of the path */
  lemma LackColours(p: Path, t: Shape, s: Shape)
    requires PathColoured(p, Height(t) + 1) && AlmostColoured(t) && !IsRed(t) && !IsRed(s)
    requires (p.InLeft? && p.r == s) || (p.InRight? && p.l == s)
    ensures s.Node? && Coloured(s) && Height(s) == Height(t) + 1 && Coloured(t)
    ensures Height(s.(red := true)) == Height(t)
    ensures PathColoured(p.up, Height(t) + (if p.red then 1 else 2))
    ensures p.red ==> !HoleInRed(p.up) && !p.up.Top?
    ensures AlmostColoured(Node(t, p.n, p.red, s.(red := true))) || IsRed(s.l) || IsRed(s.r)
    ensures AlmostColoured(Node(s.(red := true), p.n, p.red, t)) || IsRed(s.l) || IsRed(s.r)
  {
  }

  lemma PaintedSibling(p: Path, t: Shape, s: Shape)
    requires !p.Top? && s.Node?
    ensures Entries(Node(t, p.n, p.red, s.(red := true))) == Entries(Node(t, p.n, p.red, s))
    ensures Entries(Node(s.(red := true), p.n, p.red, t)) == Entries(Node(s, p.n, p.red, t))
  {
    assert Entries(s.(red := true)) == Entries(s);
  }

  lemma RedSiblingColours(p: Path, t: Shape, w: Shape)
    requires PathColoured(p, Height(t) + 1) && IsRed(w)
    requires (p.InLeft? && p.r == w) || (p.InRight? && p.l == w)
    ensures PathColoured(p.up, Height(t) + 2) && Coloured(w.l) && Coloured(w.r) && !IsRed(w.l) && !IsRed(w.r)
    ensures p.InLeft? ==> PathColoured(InLeft(InLeft(p.up, w.n, false, w.r), p.n, true, w.l), Height(t) + 1)
    ensures p.InRight? ==> PathColoured(InRight(InRight(p.up, w.l, w.n, false), w.r, p.n, true), Height(t) + 1)
  {
  }

  lemma TopShape(mem: Memory, root: Nat?, t: Shape)
    requires At(mem, root, Top, t)
    ensures root == Root(t)
  {
  }

  lemma RootFacts(mem: Memory, root: Nat?, p: Path, t: Shape)
    requires At(mem, root, p, t) && PathColoured(p, Height(t) + 1)
    ensures t.Node? ==> t.n in mem && mem[t.n].red == t.red
    ensures Root(t) == root <==> p.Top?
    ensures !p.Top? ==> p.n in mem && (mem[p.n].left == Root(t) <==> p.InLeft?)
  {
    SiblingFacts(mem, root, p, t);
    ToTop(mem, root, p, t);
    if !p.Top? { PlugRoot(p, t); }
  }

  lemma {:induction false} PlugRoot(p: Path, t: Shape)
    requires !p.Top?
    ensures Plug(p, t).Node? && Plug(p, t).n in PathNodes(p)
  {
    if !p.up.Top? { PlugRoot(p.up, Filled(p, t)); }
  }

  /** What the fields of the topmost entries read */
  lemma NodeFacts(mem: Memory, root: Nat?, p: Path, t: Shape)
    requires At(mem, root, p, t) && t.Node?
    ensures t.n in mem && mem[t.n] == Cell(Root(t.l), Root(t.r), Above(p), t.red)
    ensures t.l.Node? ==> t.l.n in mem && mem[t.l.n].red == t.l.red
    ensures t.r.Node? ==> t.r.n in mem && mem[t.r.n].red == t.r.red
  {
    assert Linked(mem, t.l, t.n) && Linked(mem, t.r, t.n);
  }

  /** Where a black entry is lacking, the sibling is there */
  lemma SiblingFacts(mem: Memory, root: Nat?, p: Path, t: Shape)
    requires At(mem, root, p, t) && PathColoured(p, Height(t) + 1)
    ensures p.InLeft? ==>
      p.r.Node? && p.n in mem && mem[p.n].right == p.r.n && p.r.n in mem && mem[p.r.n].red == p.r.red
    ensures p.InRight? ==>
      p.l.Node? && p.n in mem && mem[p.n].left == p.l.n && p.l.n in mem && mem[p.l.n].red == p.l.red
    ensures !p.Top? ==> !(IsRed(if p.InLeft? then p.r else p.l) && p.red)
  {
  }

  // ---------- Taking an entry out, on memory ----------

  /** n, with at most the child c, makes room for c */
  lemma Spliced(mem: Memory, root: Nat?, p: Path, l: Shape, n: Nat, red: bool, r: Shape, c: Shape, mem': Memory)
    requires At(mem, root, p, Node(l, n, red, r)) && ((l.Leaf? && c == r) || (r.Leaf? && c == l))
    requires Agree(mem, mem', mem.Keys - {n} - Tip(c) - Holder(p)) && Hung(mem, mem', p, Root(c))
    requires c.Node? ==> c.n in mem && c.n in mem' && mem'[c.n] == mem[c.n].(parent := Above(p))
    ensures At(mem', PathRoot(root, p, Root(c)), p, c)
  {
    HungPath(mem, mem', root, p, n, Root(c));
    AdoptedSubtree(mem, mem', c, n, Above(p));
  }

  lemma SpliceFacts(mem: Memory, root: Nat?, p: Path, l: Shape, n: Nat, red: bool, r: Shape, c: Shape)
    requires At(mem, root, p, Node(l, n, red, r)) && ((l.Leaf? && c == r) || (r.Leaf? && c == l))
    ensures n in mem && mem[n] == Cell(Root(l), Root(r), Above(p), red)
    ensures c.Node? ==> c.n in mem && c.n != n
    ensures !p.Top? ==> p.n in mem && p.n != n && p.n != Root(c) && (n == mem[p.n].left <==> p.InLeft?)
  {
    assert Linked(mem, c, n);
  }

  /** A stranger m takes the place of old */
  lemma Replaced(mem: Memory, root: Nat?, p: Path, l: Shape, was: Nat, red: bool, r: Shape, m: Nat, mem': Memory)
    requires At(mem, root, p, Node(l, was, red, r)) && m !in PathNodes(p) + Nodes(l) + Nodes(r)
    requires Agree(mem, mem', mem.Keys - {was, m} - Tip(l) - Tip(r) - Holder(p)) && Hung(mem, mem', p, m)
    requires m in mem' && mem'[m] == Cell(Root(l), Root(r), Above(p), red)
    requires l.Node? ==> l.n in mem && l.n in mem' && mem'[l.n] == mem[l.n].(parent := m)
    requires r.Node? ==> r.n in mem && r.n in mem' && mem'[r.n] == mem[r.n].(parent := m)
    ensures At(mem', PathRoot(root, p, m), p, Node(l, m, red, r))
  {
    HungPath(mem, mem', root, p, was, m);
    AdoptedSubtree(mem, mem', l, was, m);
    AdoptedSubtree(mem, mem', r, was, m);
  }

  /** The path inner, seen from the hole of outer */
  ghost function Join(inner: Path, outer: Path): Path {
    match inner
    case Top => outer
    case InLeft(up, n, red, r) => InLeft(Join(up, outer), n, red, r)
    case InRight(up, l, n, red) => InRight(Join(up, outer), l, n, red)
  }

  lemma {:induction false} JoinUp(mem: Memory, root: Nat?, inner: Path, outer: Path, t: Shape)
    ensures At(mem, root, Join(inner, outer), t) <==> At(mem, root, outer, Plug(inner, t))
    ensures Around(Join(inner, outer), t) == Around(outer, Plug(inner, t))
    ensures PathNodes(Join(inner, outer)) + Nodes(t) == PathNodes(outer) + Nodes(Plug(inner, t))
    ensures PathNodes(outer) <= PathNodes(Join(inner, outer))
  {
    hide At, Around;
    if !inner.Top? {
      Step(mem, root, Join(inner, outer), t);
      JoinUp(mem, root, inner.up, outer, Filled(inner, t));
    }
  }

  ghost predicate AllLeft(p: Path) { !p.Top? ==> p.InLeft? && AllLeft(p.up) }

  /** Left steps only: nothing comes between the outer hole and the inner one */
  lemma {:induction false} JoinBefore(inner: Path, outer: Path)
    requires AllLeft(inner)
    ensures Before(Join(inner, outer)) == Before(outer)
  {
    if !inner.Top? { JoinBefore(inner.up, outer); }
  }

  lemma {:induction false} JoinAfter(inner: Path, outer: Path, outer': Path)
    requires After(outer) == After(outer')
    ensures After(Join(inner, outer)) == After(Join(inner, outer'))
  {
    if !inner.Top? { JoinAfter(inner.up, outer, outer'); }
  }

  lemma {:induction false} JoinColoured(inner: Path, p: Path, l: Shape, n: Nat, m: Nat, red: bool, h: nat)
    ensures var o, o' := InRight(p, l, n, red), InRight(p, l, m, red);
      && (PathColoured(Join(inner, o), h) <==> PathColoured(Join(inner, o'), h))
      && HoleInRed(Join(inner, o)) == HoleInRed(Join(inner, o'))
      && !Join(inner, o).Top? && !Join(inner, o').Top?
  {
    if !inner.Top? { JoinColoured(inner.up, p, l, n, m, red, if inner.red then h else h + 1); }
  }

  /** Down to the place of an entry */
  lemma {:induction false} Locate(mem: Memory, root: Nat?, all: seq<Nat>, p: Path, t: Shape, n: Nat)
    returns (p': Path, t': Shape)
    requires Seeking(mem, root, all, p, t) && n in Nodes(t)
    requires Coloured(t) && PathColoured(p, Height(t)) && (HoleInRed(p) || p.Top? ==> !IsRed(t))
    ensures Seeking(mem, root, all, p', t') && t'.Node? && t'.n == n
    ensures Coloured(t') && PathColoured(p', Height(t')) && (HoleInRed(p') || p'.Top? ==> !IsRed(t'))
    decreases t
  {
    hide Seeking;
    if t.n == n {
      p', t' := p, t;
    } else if n in Nodes(t.l) {
      GoLeft(mem, root, all, p, t);
      p', t' := Locate(mem, root, all, InLeft(p, t.n, t.red, t.r), t.l, n);
    } else {
      GoRight(mem, root, all, p, t);
      p', t' := Locate(mem, root, all, InRight(p, t.l, t.n, t.red), t.r, n);
    }
  }

  lemma TakeOuterColours(p: Path, t: Shape, c: Shape)
    requires t.Node? && ((t.l.Leaf? && c == t.r) || (t.r.Leaf? && c == t.l))
    requires Coloured(t) && PathColoured(p, Height(t))
    ensures Coloured(c) && (t.red ==> !IsRed(c))
    ensures PathColoured(p, if t.red then Height(c) else Height(c) + 1)
  {
  }

  lemma TakeOuterOrder(p: Path, t: Shape, c: Shape)
    requires t.Node? && ((t.l.Leaf? && c == t.r) || (t.r.Leaf? && c == t.l)) && Sorted(Around(p, t))
    ensures Sorted(Around(p, c))
  {
    hide Sorted;
    var b, a := Before(p) + Entries(t.l), Entries(t.r) + After(p);
    assert Around(p, t) == b + [t.n] + a && Around(p, c) == b + a;
    SortedDelete(b, t.n, a);
  }

  lemma TakeOuterNodes(mem: Memory, root: Nat?, p: Path, t: Shape, c: Shape)
    requires t.Node? && ((t.l.Leaf? && c == t.r) || (t.r.Leaf? && c == t.l)) && At(mem, root, p, t)
    ensures PathNodes(p) + Nodes(c) == PathNodes(p) + Nodes(t) - {t.n}
  {
    hide PathLinked, Linked;
  }

  lemma {:induction false} JoinNodes(inner: Path, outer: Path)
    ensures PathNodes(Join(inner, outer)) == PathNodes(inner) + PathNodes(outer)
    ensures PathApart(Join(inner, outer)) ==> PathApart(outer) && PathNodes(inner) !! PathNodes(outer)
  {
    if !inner.Top? { JoinNodes(inner.up, outer); }
  }

  lemma TakeInnerColours(p: Path, l: Shape, n: Nat, red: bool, inner: Path, s: Shape)
    requires s.Node? && s.l.Leaf? && Coloured(s)
    requires var q := Join(inner, InRight(p, l, n, red)); PathColoured(q, Height(s)) && (HoleInRed(q) ==> !IsRed(s))
    ensures var q := Join(inner, InRight(p, l, s.n, red));
      && !q.Top? && Coloured(s.r) && (s.red ==> !IsRed(s.r))
      && PathColoured(q, if s.red then Height(s.r) else Height(s.r) + 1)
  {
    JoinColoured(inner, p, l, n, s.n, red, Height(s));
  }

  lemma TakeInnerOrder(p: Path, l: Shape, n: Nat, red: bool, inner: Path, s: Shape)
    requires s.Node? && s.l.Leaf? && AllLeft(inner)
    requires Sorted(Around(Join(inner, InRight(p, l, n, red)), s))
    ensures Sorted(Around(Join(inner, InRight(p, l, s.n, red)), s.r))
  {
    hide Sorted;
    var q, q' := Join(inner, InRight(p, l, n, red)), Join(inner, InRight(p, l, s.n, red));
    JoinBefore(inner, InRight(p, l, n, red));
    JoinBefore(inner, InRight(p, l, s.n, red));
    JoinAfter(inner, InRight(p, l, n, red), InRight(p, l, s.n, red));
    var b, a := Before(p) + Entries(l), [s.n] + Entries(s.r) + After(q);
    assert Entries(s) == [s.n] + Entries(s.r);
    assert Around(q, s) == b + [n] + a;
    assert Around(q', s.r) == b + a;
    SortedDelete(b, n, a);
  }

  lemma TakeInnerNodes(mem: Memory, root: Nat?, p: Path, l: Shape, n: Nat, red: bool, inner: Path, s: Shape)
    requires s.Node? && s.l.Leaf?
    requires At(mem, root, Join(inner, InRight(p, l, n, red)), s)
    ensures var q, q' := Join(inner, InRight(p, l, n, red)), Join(inner, InRight(p, l, s.n, red));
      && PathNodes(q') + Nodes(s.r) == PathNodes(q) + Nodes(s) - {n}
      && s.n !in PathNodes(p) + Nodes(Node(l, n, red, Plug(inner, s.r)))
  {
    hide PathLinked, Linked;
    var o, q := InRight(p, l, n, red), Join(inner, InRight(p, l, n, red));
    JoinNodes(inner, o);
    JoinNodes(inner, InRight(p, l, s.n, red));
    JoinUp(mem, root, inner, o, s.r);
    Step(mem, root, o, Plug(inner, s.r));
    assert PathApart(o) && n !in PathNodes(p) && n !in Nodes(l) && n !in PathNodes(inner);
    assert n in PathNodes(q) && Nodes(s) == {s.n} + Nodes(s.r);
  }

  lemma TakeInnerAbove(mem: Memory, root: Nat?, p: Path, l: Shape, n: Nat, red: bool, inner: Path, s: Shape)
    requires s.Node? && At(mem, root, Join(inner, InRight(p, l, n, red)), s)
    ensures var q, q' := Join(inner, InRight(p, l, n, red)), Join(inner, InRight(p, l, s.n, red));
      && s.n in mem && mem[s.n].parent == Above(q)
      && Above(q') == (if mem[s.n].parent == n then s.n else mem[s.n].parent)
  {
    JoinNodes(inner, InRight(p, l, n, red));
    assert n in PathNodes(InRight(p, l, n, red));
  }

  /** Links do not depend on entries outside the tree */
  lemma Shrunk(mem: Memory, mem': Memory, root: Nat?, p: Path, t: Shape)
    requires At(mem, root, p, t) && Agree(mem, mem', PathNodes(p) + Nodes(t))
    ensures At(mem', root, p, t)
  {
    PathFrame(mem, mem', root, p, Root(t));
    LinkedFrame(mem, mem', t, Above(p));
  }

  lemma SortedDelete(b: seq<Nat>, n: Nat, a: seq<Nat>)
    requires Sorted(b + [n] + a)
    ensures Sorted(b + a)
  {
    hide TreeRank;
    var s, u := b + [n] + a, b + a;
    forall i, j | 0 <= i < j < |u|
      ensures TreeRank(u[i].key) < TreeRank(u[j].key)
    {
      assert u[i] == s[if i < |b| then i else i + 1] && u[j] == s[if j < |b| then j else j + 1];
    }
  }

  class NatTree {
    var root: Nat?
    ghost var nodes: set<Nat>
    ghost var shape: Shape

    ghost function Mem(): Memory
      reads this`nodes, nodes`left, nodes`right, nodes`parent, nodes`red
    {
      map n | n in nodes :: Cell(n.left, n.right, n.parent, n.red)
    }

    /** Make the parent of n, or the root, point at m instead */
    method Hang(n: Nat, m: Nat?, ghost p: Path)
      requires n.parent == Above(p)
      requires !p.Top? ==> (n == p.n.left <==> p.InLeft?)
      modifies this`root, Holder(p)`left, Holder(p)`right
      ensures root == PathRoot(old(root), p, m)
      ensures p.InLeft? ==> p.n.left == m && p.n.right == old(p.n.right)
      ensures p.InRight? ==> p.n.right == m && p.n.left == old(p.n.left)
    {
      if n.parent != null {
        if n == n.parent.left {
          n.parent.left := m;
        } else {
          n.parent.right := m;
        }
      } else {
        root := m;
      }
    }

    /** nat_tree_rotate_left, on the entries it touches */
    method TurnLeft(n: Nat, ghost p: Path, ghost m: Nat, ghost b: Shape)
      requires n.right == m && m != n && m.left == Root(b) && n.parent == Above(p)
      requires b.Node? ==> b.n != n && b.n != m
      requires !p.Top? ==> p.n != n && p.n != m && p.n != Root(b) && (n == p.n.left <==> p.InLeft?)
      modifies this`root, Holder(p)`left, Holder(p)`right
      modifies n`right, n`parent, m`left, m`parent, Tip(b)`parent
      ensures root == PathRoot(old(root), p, m)
      ensures p.InLeft? ==> p.n.left == m && p.n.right == old(p.n.right)
      ensures p.InRight? ==> p.n.right == m && p.n.left == old(p.n.left)
      ensures n.right == Root(b) && n.parent == m && m.left == n && m.parent == Above(p)
      ensures b.Node? ==> b.n.parent == n
    {
      var tmp := n.right;
      n.right := tmp.left;
      if tmp.left != null {
        tmp.left.parent := n;
      }
      tmp.parent := n.parent;
      Hang(n, tmp, p);
      tmp.left := n;
      n.parent := tmp;
    }
  
    method RotateLeft(n: Nat, ghost p: Path, ghost a: Shape, ghost nred: bool,
                      ghost b: Shape, ghost m: Nat, ghost mred: bool, ghost c: Shape)
      requires At(Mem(), root, p, Node(a, n, nred, Node(b, m, mred, c)))
      modifies this`root, nodes`left, nodes`right, nodes`parent
      ensures At(Mem(), root, p, Node(Node(a, n, nred, b), m, mred, c))
    {
      hide At;
      ghost var mem, root0 := Mem(), root;
      RotationFacts(mem, root, p, a, n, nred, b, m, mred, c);
      TurnLeft(n, p, m, b);
      RotatedLeft(mem, root0, p, a, n, nred, b, m, mred, c, Mem());
    }
  
    method TurnRight(m: Nat, ghost p: Path, ghost n: Nat, ghost b: Shape)
      requires m.left == n && m != n && n.right == Root(b) && m.parent == Above(p)
      requires b.Node? ==> b.n != n && b.n != m
      requires !p.Top? ==> p.n != n && p.n != m && p.n != Root(b) && (m == p.n.left <==> p.InLeft?)
      modifies this`root, Holder(p)`left, Holder(p)`right
      modifies m`left, m`parent, n`right, n`parent, Tip(b)`parent
      ensures root == PathRoot(old(root), p, n)
      ensures p.InLeft? ==> p.n.left == n && p.n.right == old(p.n.right)
      ensures p.InRight? ==> p.n.right == n && p.n.left == old(p.n.left)
      ensures m.left == Root(b) && m.parent == n && n.right == m && n.parent == Above(p)
      ensures b.Node? ==> b.n.parent == m
    {
      var tmp := m.left;
      m.left := tmp.right;
      if tmp.right != null {
        tmp.right.parent := m;
      }
      tmp.parent := m.parent;
      Hang(m, tmp, p);
      tmp.right := m;
      m.parent := tmp;
    }

    method RotateRight(m: Nat, ghost p: Path, ghost a: Shape, ghost n: Nat, ghost nred: bool,
                       ghost b: Shape, ghost mred: bool, ghost c: Shape)
      requires At(Mem(), root, p, Node(Node(a, n, nred, b), m, mred, c))
      modifies this`root, nodes`left, nodes`right, nodes`parent
      ensures At(Mem(), root, p, Node(a, n, nred, Node(b, m, mred, c)))
    {
      hide At;
      ghost var mem, root0 := Mem(), root;
      RotationFactsRight(mem, root, p, a, n, nred, b, m, mred, c);
      TurnRight(m, p, n, b);
      RotatedRight(mem, root0, p, a, n, nred, b, m, mred, c, Mem());
    }

    method Paint(n: Nat, red: bool, ghost p: Path, ghost l: Shape, ghost was: bool, ghost r: Shape)
      requires At(Mem(), root, p, Node(l, n, was, r))
      modifies nodes`red
      ensures At(Mem(), root, p, Node(l, n, red, r))
    {
      ghost var mem := Mem();
      n.red := red;
      Painted(mem, root, p, l, n, was, red, r, Mem());
    }
  
    // ---------- Insertion ----------

    /** A red entry n whose parent may be red too, everything else coloured */
    ghost predicate RedAt(n: Nat, p: Path, t: Shape)
      reads this`root, this`nodes, nodes`left, nodes`right, nodes`parent, nodes`red
    {
      && At(Mem(), root, p, t) && t.Node? && t.n == n && t.red
      && Coloured(t) && PathColoured(p, Height(t))
    }

    /** Black over two reds becomes red over two blacks */
    method Flip(top: Nat, l: Nat, r: Nat, ghost p: Path, ghost ll: Shape, ghost lr: Shape, ghost rl: Shape,
        ghost rr: Shape)
      requires At(Mem(), root, p, Node(Node(ll, l, true, lr), top, false, Node(rl, r, true, rr)))
      modifies nodes`red
      ensures At(Mem(), root, p, Node(Node(ll, l, false, lr), top, true, Node(rl, r, false, rr)))
    {
      ghost var lt, rt := Node(ll, l, true, lr), Node(rl, r, true, rr);
      Step(Mem(), root, InRight(p, lt, top, false), rt);
      Paint(r, false, InRight(p, lt, top, false), rl, true, rr);
      rt := Node(rl, r, false, rr);
      Step(Mem(), root, InRight(p, lt, top, false), rt);
      Step(Mem(), root, InLeft(p, top, false, rt), lt);
      Paint(l, false, InLeft(p, top, false, rt), ll, true, lr);
      lt := Node(ll, l, false, lr);
      Step(Mem(), root, InLeft(p, top, false, rt), lt);
      Paint(top, true, p, lt, false, rt);
    }

    /** The half of the fixup loop for a parent that is a left child */
    method RedUnderLeft(n0: Nat, ghost p0: Path, ghost t0: Shape) returns (n: Nat, ghost p: Path, ghost t: Shape)
      requires RedAt(n0, p0, t0) && HoleInRed(p0) && p0.up.InLeft?
      modifies this`root, nodes`left, nodes`right, nodes`parent, nodes`red
      ensures RedAt(n, p, t) && Depth(p) < Depth(p0) && Around(p, t) == Around(p0, t0)
    {
      n := n0;
      var parent := n.parent;
      var gparent := parent.parent;
      ghost var gp, u, top := p0.up.up, p0.up.r, Filled(p0, t0);
      FilledColours(p0, t0);
      AroundFilled(p0, t0);
      Step(Mem(), root, p0, t0);
      Step(Mem(), root, p0.up, top);
      var tmp := gparent.right;
      if tmp != null && tmp.red {
        FlippedColours(p0, t0);
        FlippedAround(p0, t0);
        Flip(gparent, parent, tmp, gp, top.l, top.r, u.l, u.r);
        n, p, t := gparent, gp, Flipped(p0, t0);
      } else {
        assert !IsRed(u);
        n, p, t := RotateUnderLeft(n, parent, gparent, gp, u, top, t0);
      }
    }

    method RotateUnderLeft(n0: Nat, parent0: Nat, gparent: Nat, ghost gp: Path, ghost u: Shape, ghost top0: Shape,
        ghost t0: Shape)
      returns (n: Nat, ghost p: Path, ghost t: Shape)
      requires At(Mem(), root, InLeft(gp, gparent, false, u), top0) && top0.Node? && top0.n == parent0 && top0.red
      requires t0.Node? && t0.red && Coloured(t0) && t0.n == n0
      requires top0.l == t0 || (top0.r == t0 && !IsRed(top0.l))
      requires top0.r == t0 || (top0.l == t0 && !IsRed(top0.r))
      requires AlmostColoured(top0) && Coloured(u) && Height(u) == Height(top0) && !IsRed(u)
      requires PathColoured(gp, Height(u) + 1)
      modifies this`root, nodes`left, nodes`right, nodes`parent, nodes`red
      ensures RedAt(n, p, t) && Depth(p) == Depth(gp) + 1
      ensures Around(p, t) == Around(InLeft(gp, gparent, false, u), top0)
    {
      n := n0;
      var parent := parent0;
      ghost var hole, top := InLeft(gp, gparent, false, u), top0;
      if parent.right == n {
        assert top0.r == t0;
        RotateLeft(parent, hole, top.l, true, t0.l, n, true, t0.r);
        top := Node(Node(top.l, parent, true, t0.l), n, true, t0.r);
        RotatedEntries(top0.l, parent, t0.l, n, t0.r, true, true, true, true);
        parent, n := n, parent;
      }
      assert Coloured(top.l) && IsRed(top.l) && Coloured(top.r) && !IsRed(top.r)
        && Height(top.l) == Height(top.r) == Height(u);
      Paint(parent, false, hole, top.l, true, top.r);
      t := top.l;
      p := TurnOverLeft(parent, gparent, gp, u, t, top.r);
    }

    method TurnOverLeft(parent: Nat, gparent: Nat, ghost gp: Path, ghost u: Shape, ghost t: Shape, ghost c: Shape)
      returns (ghost p: Path)
      requires At(Mem(), root, InLeft(gp, gparent, false, u), Node(t, parent, false, c))
      requires PathColoured(gp, Height(u) + 1) && Height(t) == Height(c) == Height(u)
      requires IsRed(t) && Coloured(t) && Coloured(c) && !IsRed(c) && Coloured(u) && !IsRed(u)
      modifies this`root, nodes`left, nodes`right, nodes`parent, nodes`red
      ensures RedAt(t.n, p, t) && Depth(p) == Depth(gp) + 1
      ensures Around(p, t) == Around(InLeft(gp, gparent, false, u), Node(t, parent, false, c))
    {
      hide At;
      ghost var hole, top := InLeft(gp, gparent, false, u), Node(t, parent, false, c);
      Step(Mem(), root, hole, top);
      Paint(gparent, true, gp, top, false, u);
      RotateRight(gparent, gp, t, parent, false, c, true, u);
      RotatedEntries(t, parent, c, gparent, u, false, true, false, false);
      p := InLeft(gp, parent, false, Node(c, gparent, true, u));
      Step(Mem(), root, p, t);
    }

    /** The half of the fixup loop for a parent that is a right child */
    method RedUnderRight(n0: Nat, ghost p0: Path, ghost t0: Shape) returns (n: Nat, ghost p: Path, ghost t: Shape)
      requires RedAt(n0, p0, t0) && HoleInRed(p0) && p0.up.InRight?
      modifies this`root, nodes`left, nodes`right, nodes`parent, nodes`red
      ensures RedAt(n, p, t) && Depth(p) < Depth(p0) && Around(p, t) == Around(p0, t0)
    {
      n := n0;
      var parent := n.parent;
      var gparent := parent.parent;
      ghost var gp, u, top := p0.up.up, p0.up.l, Filled(p0, t0);
      FilledColours(p0, t0);
      AroundFilled(p0, t0);
      Step(Mem(), root, p0, t0);
      Step(Mem(), root, p0.up, top);
      var tmp := gparent.left;
      if tmp != null && tmp.red {
        FlippedColours(p0, t0);
        FlippedAround(p0, t0);
        Flip(gparent, tmp, parent, gp, u.l, u.r, top.l, top.r);
        n, p, t := gparent, gp, Flipped(p0, t0);
      } else {
        assert !IsRed(u);
        n, p, t := RotateUnderRight(n, parent, gparent, gp, u, top, t0);
      }
    }

    method RotateUnderRight(n0: Nat, parent0: Nat, gparent: Nat, ghost gp: Path, ghost u: Shape, ghost top0: Shape,
        ghost t0: Shape)
      returns (n: Nat, ghost p: Path, ghost t: Shape)
      requires At(Mem(), root, InRight(gp, u, gparent, false), top0) && top0.Node? && top0.n == parent0 && top0.red
      requires t0.Node? && t0.red && Coloured(t0) && t0.n == n0
      requires top0.l == t0 || (top0.r == t0 && !IsRed(top0.l))
      requires top0.r == t0 || (top0.l == t0 && !IsRed(top0.r))
      requires AlmostColoured(top0) && Coloured(u) && Height(u) == Height(top0) && !IsRed(u)
      requires PathColoured(gp, Height(u) + 1)
      modifies this`root, nodes`left, nodes`right, nodes`parent, nodes`red
      ensures RedAt(n, p, t) && Depth(p) == Depth(gp) + 1
      ensures Around(p, t) == Around(InRight(gp, u, gparent, false), top0)
    {
      n := n0;
      var parent := parent0;
      ghost var hole, top := InRight(gp, u, gparent, false), top0;
      if parent.left == n {
        assert top0.l == t0;
        RotateRight(parent, hole, t0.l, n, true, t0.r, true, top.r);
        top := Node(t0.l, n, true, Node(t0.r, parent, true, top.r));
        RotatedEntries(t0.l, n, t0.r, parent, top0.r, true, true, true, true);
        parent, n := n, parent;
      }
      assert Coloured(top.l) && !IsRed(top.l) && Coloured(top.r) && IsRed(top.r)
        && Height(top.l) == Height(top.r) == Height(u);
      Paint(parent, false, hole, top.l, true, top.r);
      t := top.r;
      p := TurnOverRight(parent, gparent, gp, u, t, top.l);
    }

    method TurnOverRight(parent: Nat, gparent: Nat, ghost gp: Path, ghost u: Shape, ghost t: Shape, ghost c: Shape)
      returns (ghost p: Path)
      requires At(Mem(), root, InRight(gp, u, gparent, false), Node(c, parent, false, t))
      requires PathColoured(gp, Height(u) + 1) && Height(t) == Height(c) == Height(u)
      requires IsRed(t) && Coloured(t) && Coloured(c) && !IsRed(c) && Coloured(u) && !IsRed(u)
      modifies this`root, nodes`left, nodes`right, nodes`parent, nodes`red
      ensures RedAt(t.n, p, t) && Depth(p) == Depth(gp) + 1
      ensures Around(p, t) == Around(InRight(gp, u, gparent, false), Node(c, parent, false, t))
    {
      hide At;
      ghost var hole, top := InRight(gp, u, gparent, false), Node(c, parent, false, t);
      Step(Mem(), root, hole, top);
      Paint(gparent, true, gp, u, false, top);
      RotateLeft(gparent, gp, u, true, c, parent, false, t);
      RotatedEntries(u, gparent, c, parent, t, false, false, true, false);
      p := InRight(gp, Node(u, gparent, true, c), parent, false);
      Step(Mem(), root, p, t);
    }

    /** nat_tree_insert_color */
    method InsertColor(n0: Nat, ghost p0: Path, ghost t0: Shape)
      requires RedAt(n0, p0, t0)
      modifies this, nodes`left, nodes`right, nodes`parent, nodes`red
      ensures nodes == old(nodes) && Entries(shape) == Around(p0, t0)
      ensures At(Mem(), root, Top, shape) && Coloured(shape) && !IsRed(shape)
      ensures Nodes(shape) == PathNodes(p0) + Nodes(t0)
    {
      hide At, Around, PathColoured, Coloured, Entries;
      var n := n0;
      ghost var p, t := p0, t0;
      while n.parent != null && n.parent.red
        invariant RedAt(n, p, t) && Around(p, t) == Around(p0, t0) && nodes == old(nodes)
        decreases Depth(p)
      {
        TopFacts(Mem(), root, p, t);
        ParentFacts(Mem(), root, p, t);
        if n.parent == n.parent.parent.left {
          n, p, t := RedUnderLeft(n, p, t);
        } else {
          n, p, t := RedUnderRight(n, p, t);
        }
      }
      TopFacts(Mem(), root, p, t);
      Finish(p, t);
      AroundNodes(p0, t0);
      EntriesNodes(shape);
    }

    /** The walk is over: the root turns black */
    method Finish(ghost p: Path, ghost t: Shape)
      requires At(Mem(), root, p, t) && root != null
      requires AlmostColoured(t) && PathColoured(p, Height(t)) && (HoleInRed(p) ==> !IsRed(t))
      requires !p.Top? ==> Coloured(t)
      modifies this`root, this`shape, nodes`red
      ensures At(Mem(), root, Top, shape) && Coloured(shape) && !IsRed(shape) && Entries(shape) == Around(p, t)
    {
      PlugEntries(p, t);
      ToTop(Mem(), root, p, t);
      ghost var top := Plug(p, t);
      if !p.Top? { PlugColoured(p, t); }
      Paint(root, false, Top, top.l, top.red, top.r);
      shape := top.(red := false);
    }

    // ---------- The table ----------

    ghost predicate Valid()
      reads this, nodes`left, nodes`right, nodes`parent, nodes`red
    {
      && At(Mem(), root, Top, shape) && Nodes(shape) == nodes
      && Coloured(shape) && !IsRed(shape)
      && Sorted(Entries(shape))
      && forall n <- nodes :: Admissible(n.key)
    }

    /** Where n belongs: the first loop of nat_tree_insert */
    method Seek(n: Nat) returns (found: Nat?, parent: Nat?, comp: int, ghost p: Path)
      requires Valid() && Admissible(n.key)
      ensures found != null ==> found in nodes && TreeRank(found.key) == TreeRank(n.key)
      ensures found == null ==>
        && Seeking(Mem(), root, Entries(shape), p, Leaf) && parent == Above(p) && PathColoured(p, 0)
        && Below(Before(p), TreeRank(n.key)) && Beyond(After(p), TreeRank(n.key))
        && (p.InLeft? ==> comp < 0) && (p.InRight? ==> comp > 0)
    {
      hide At, TreeRank, TreeCompareAbs;
      var tmp := root;
      parent, comp := null, 0;
      ghost var t, r := shape, TreeRank(n.key);
      p := Top;
      SeekTop(Mem(), root, t);
      while tmp != null
        invariant Seeking(Mem(), root, Entries(shape), p, t) && tmp == Root(t) && parent == Above(p)
        invariant Coloured(t) && PathColoured(p, Height(t)) && (HoleInRed(p) || p.Top? ==> !IsRed(t))
        invariant Below(Before(p), r) && Beyond(After(p), r)
        invariant p.InLeft? ==> comp < 0
        invariant p.InRight? ==> comp > 0
        decreases t
      {
        parent := tmp;
        GoLeft(Mem(), root, Entries(shape), p, t);
        GoRight(Mem(), root, Entries(shape), p, t);
        TreeOrder(n.key, tmp.key);
        Descend(p, t, r);
        comp := TreeCompareAbs(n.key, tmp.key);
        if comp < 0 {
          tmp := tmp.left;
          p, t := InLeft(p, t.n, t.red, t.r), t.l;
        } else if comp > 0 {
          tmp := tmp.right;
          p, t := InRight(p, t.l, t.n, t.red), t.r;
        } else {
          found := tmp;
          return;
        }
      }
      found := null;
    }

    /** nat_tree_insert: null, or the entry that compares equal to n */
    method Insert(n: Nat) returns (found: Nat?)
      requires Valid() && n !in nodes && Admissible(n.key)
      modifies this, nodes`left, nodes`right, nodes`parent, nodes`red, n`left, n`right, n`parent, n`red
      ensures Valid()
      ensures found == null ==>
        nodes == old(nodes) + {n} && forall m <- old(nodes) :: TreeRank(m.key) != TreeRank(n.key)
      ensures found != null ==> nodes == old(nodes) && found in nodes && TreeRank(found.key) == TreeRank(n.key)
    {
      hide At, Coloured, PathColoured, Before, After, PathNodes, Below, Beyond, TreeRank;
      var parent, comp;
      ghost var p;
      found, parent, comp, p := Seek(n);
      if found == null {
        SingleEntry(p, n);
        Attach(n, parent, comp, p);
        InsertColor(n, p, Node(Leaf, n, true, Leaf));
        SortedInsert(Before(p), n, After(p));
        NoEqual(Before(p), After(p), TreeRank(n.key));
      }
    }

    method Attach(n: Nat, parent: Nat?, comp: int, ghost p: Path)
      requires At(Mem(), root, p, Leaf) && n !in nodes && PathNodes(p) == nodes && parent == Above(p)
      requires !p.Top? ==> (comp < 0 && p.InLeft?) || (comp > 0 && p.InRight?)
      modifies this, nodes`left, nodes`right, n`left, n`right, n`parent, n`red
      ensures nodes == old(nodes) + {n} && shape == old(shape)
      ensures At(Mem(), root, p, Node(Leaf, n, true, Leaf))
    {
      ghost var mem, root0 := Mem(), root;
      n.parent := parent;
      n.left, n.right := null, null;
      n.red := true;
      if parent != null {
        if comp < 0 {
          parent.left := n;
        } else {
          parent.right := n;
        }
      } else {
        root := n;
      }
      nodes := nodes + {n};
      Attached(mem, root0, p, n, Mem());
    }

    /** The first match on the way from the root */
    ghost function Sought(k: Key): Nat?
      reads this`shape
    {
      Search(shape, k)
    }

    /** nat_tree_find_wild: a binding that matches the packet, if there is one */
    method FindWild(k: Key) returns (found: Nat?)
      requires Valid() && Template(k) && Unmixed(nodes)
      ensures found == Sought(k)
      ensures found != null ==> found in nodes && TreeCompareWild(k, found.key) == 0
      ensures found == null ==> forall m <- nodes :: TreeCompareWild(k, m.key) != 0
    {
      hide At, Seeking, Around, PathNodes, Nodes, TreeCompareWild, Unmixed, Searchable, WildBelow, WildBeyond, Sorted,
        NatTree.Mem;
      var tmp := root;
      ghost var p, t, mem, all := Top, shape, Mem(), Entries(shape);
      SeekWild(k);
      while tmp != null
        invariant Seeking(mem, root, all, p, t) && tmp == Root(t)
        invariant WildBelow(k, Before(p)) && WildBeyond(k, After(p)) && Search(t, k) == Search(shape, k)
        decreases t
      {
        WildHere(mem, root, all, p, t, k);
        CellOf(tmp);
        var comp := TreeCompareWild(k, tmp.key);
        if comp < 0 {
          GoLeft(mem, root, all, p, t);
          tmp := tmp.left;
          p, t := InLeft(p, t.n, t.red, t.r), t.l;
        } else if comp > 0 {
          GoRight(mem, root, all, p, t);
          tmp := tmp.right;
          p, t := InRight(p, t.l, t.n, t.red), t.r;
        } else {
          return tmp;
        }
      }
      SoughtAll(mem, root, all, p, t);
      WildNone(p, shape, k);
      WildNodes();
      return null;
    }

    lemma OneOfRank(m: Nat, n: Nat)
      requires Valid() && m in nodes && n in nodes && TreeRank(m.key) == TreeRank(n.key)
      ensures m == n
    {
      hide TreeRank, At;
      EntriesNodes(shape);
      var s := Entries(shape);
      var i, j :| 0 <= i < |s| && 0 <= j < |s| && s[i] == m && s[j] == n;
    }

    /** Of three entries the middle one is at the root, so it is found when it matches */
    lemma MiddleSought(k: Key, lo: Nat, mid: Nat, hi: Nat)
      requires Valid() && nodes == {lo, mid, hi} && TreeRank(lo.key) < TreeRank(mid.key) < TreeRank(hi.key)
      requires TreeCompareWild(k, mid.key) == 0
      ensures Sought(k) == mid
    {
      hide TreeRank, TreeCompareWild, At;
      MiddleRoot(shape, lo, mid, hi);
    }

    lemma SoughtFinds(k: Key)
      requires Valid() && Template(k) && Unmixed(nodes)
      ensures Sought(k) != null ==> Sought(k) in nodes && TreeCompareWild(k, Sought(k).key) == 0
      ensures Sought(k) == null ==> forall m <- nodes :: TreeCompareWild(k, m.key) != 0
    {
      hide TreeCompareWild, Unmixed, At;
      AllSearchable(shape);
      SearchFinds(shape, k);
    }

    lemma SeekWild(k: Key)
      requires Valid() && Template(k) && Unmixed(nodes)
      ensures Seeking(Mem(), root, Entries(shape), Top, shape) && root == Root(shape) && Searchable(Entries(shape))
      ensures WildBelow(k, Before(Top)) && WildBeyond(k, After(Top))
    {
      hide At, Unmixed;
      SeekTop(Mem(), root, shape);
      AllSearchable(shape);
    }

    lemma CellOf(n: Nat)
      requires n in Mem()
      ensures n in nodes && Mem()[n].left == n.left && Mem()[n].right == n.right
    {
    }

    lemma WildNodes()
      requires Valid()
      ensures Nodes(shape) == nodes
    {
    }

    // ---------- Removal ----------

    /** The two ways of taking out an entry with at most one child share this end */
    method SpliceOut(n: Nat, ghost p: Path, ghost l: Shape, ghost red: bool, ghost r: Shape, ghost c: Shape)
      returns (child: Nat?, parent: Nat?)
      requires At(Mem(), root, p, Node(l, n, red, r)) && ((l.Leaf? && c == r) || (r.Leaf? && c == l))
      modifies this`root, nodes`left, nodes`right, nodes`parent
      ensures At(Mem(), root, p, c) && child == Root(c) && parent == Above(p)
      ensures n.parent == old(n.parent) && n.red == old(n.red)
    {
      hide At;
      ghost var mem, root0 := Mem(), root;
      SpliceFacts(Mem(), root, p, l, n, red, r, c);
      child := if n.left == null then n.right else n.left;
      parent := n.parent;
      if child != null {
        child.parent := parent;
      }
      Hang(n, child, p);
      Spliced(mem, root0, p, l, n, red, r, c, Mem());
    }

    /** m takes over the links and the colour of n */
    method TakeLinks(n: Nat, m: Nat, ghost p: Path, ghost l: Shape, ghost r: Shape)
      requires l.Node? && n.left == l.n && n.right == Root(r) && n.parent == Above(p) && m != n
      requires l.n != n && l.n != m && l.n != Root(r) && Root(r) != n && Root(r) != m
      requires !p.Top? ==> p.n != n && p.n != m && p.n != l.n && p.n != Root(r) && (n == p.n.left <==> p.InLeft?)
      modifies this`root, Holder(p)`left, Holder(p)`right
      modifies m`left, m`right, m`parent, m`red, Tip(l)`parent, Tip(r)`parent
      ensures root == PathRoot(old(root), p, m)
      ensures p.InLeft? ==> p.n.left == m && p.n.right == old(p.n.right)
      ensures p.InRight? ==> p.n.right == m && p.n.left == old(p.n.left)
      ensures m.left == l.n && m.right == Root(r) && m.parent == Above(p) && m.red == n.red
      ensures l.n.parent == m && (r.Node? ==> r.n.parent == m)
    {
      m.left := n.left;
      m.right := n.right;
      m.parent := n.parent;
      m.red := n.red;
      Hang(n, m, p);
      n.left.parent := m;
      if n.right != null {
        n.right.parent := m;
      }
    }

    /** m, already out of the tree, takes the place of n */
    method TakePlace(n: Nat, m: Nat, ghost p: Path, ghost l: Shape, ghost red: bool, ghost r: Shape)
      requires At(Mem(), root, p, Node(l, n, red, r)) && l.Node?
      requires m in nodes && m !in PathNodes(p) + Nodes(Node(l, n, red, r))
      modifies this`root, nodes`left, nodes`right, nodes`parent, nodes`red
      ensures At(Mem(), root, p, Node(l, m, red, r))
    {
      hide At;
      ghost var mem, root0 := Mem(), root;
      ReplaceFacts(Mem(), root, p, l, n, red, r);
      OutsideFacts(m, p, l, n, red, r);
      TakeLinks(n, m, p, l, r);
      Replaced(mem, root0, p, l, n, red, r, m, Mem());
    }

    /** Every way through t meets one black entry too few */
    ghost predicate Lacking(n: Nat?, parent: Nat?, p: Path, t: Shape)
      reads this`root, this`nodes, nodes`left, nodes`right, nodes`parent, nodes`red
    {
      && At(Mem(), root, p, t) && n == Root(t) && parent == Above(p)
      && AlmostColoured(t) && PathColoured(p, Height(t) + 1)
    }

    method PaintLeft(m: Nat, red: bool, ghost p: Path, ghost n: Nat, ghost nred: bool, ghost l: Shape, ghost was: bool,
        ghost r: Shape, ghost o: Shape)
      requires At(Mem(), root, p, Node(Node(l, m, was, r), n, nred, o))
      modifies nodes`red
      ensures At(Mem(), root, p, Node(Node(l, m, red, r), n, nred, o))
    {
      hide At;
      Step(Mem(), root, InLeft(p, n, nred, o), Node(l, m, was, r));
      Paint(m, red, InLeft(p, n, nred, o), l, was, r);
      Step(Mem(), root, InLeft(p, n, nred, o), Node(l, m, red, r));
    }

    method PaintRight(m: Nat, red: bool, ghost p: Path, ghost o: Shape, ghost n: Nat, ghost nred: bool, ghost l: Shape,
        ghost was: bool, ghost r: Shape)
      requires At(Mem(), root, p, Node(o, n, nred, Node(l, m, was, r)))
      modifies nodes`red
      ensures At(Mem(), root, p, Node(o, n, nred, Node(l, m, red, r)))
    {
      hide At;
      Step(Mem(), root, InRight(p, o, n, nred), Node(l, m, was, r));
      Paint(m, red, InRight(p, o, n, nred), l, was, r);
      Step(Mem(), root, InRight(p, o, n, nred), Node(l, m, red, r));
    }

    /** The half of the loop for a lack in a left child */
    method LackLeft(n: Nat?, parent: Nat, ghost p: Path, ghost t: Shape)
      returns (done: bool, n': Nat?, parent': Nat?, ghost p': Path, ghost t': Shape)
      requires Lacking(n, parent, p, t) && p.InLeft? && !IsRed(t)
      modifies this`root, nodes`left, nodes`right, nodes`parent, nodes`red
      ensures Around(p', t') == Around(p, t)
      ensures done ==> Restored(p', t') && n' == root
      ensures !done ==> Lacking(n', parent', p', t') && (IsRed(t') || Depth(p') < Depth(p))
    {
      hide At, PathColoured, Around, AlmostColoured;
      ghost var q := p;
      SiblingFacts(Mem(), root, p, t);
      if parent.right.red {
        q := RedSiblingRight(parent, p, t);
        SiblingFacts(Mem(), root, q, t);
      }
      done, n', parent', p', t' := LackLeftOfBlack(n, parent, q, t);
    }

    /** Every way down meets as many black entries again */
    ghost predicate Restored(p: Path, t: Shape)
      reads this`root, this`nodes, nodes`left, nodes`right, nodes`parent, nodes`red
    {
      At(Mem(), root, p, t) && Coloured(t) && PathColoured(p, Height(t)) && (HoleInRed(p) || p.Top? ==> !IsRed(t))
    }

    method LackLeftOfBlack(n: Nat?, parent: Nat, ghost p: Path, ghost t: Shape)
      returns (done: bool, n': Nat?, parent': Nat?, ghost p': Path, ghost t': Shape)
      requires Lacking(n, parent, p, t) && p.InLeft? && !IsRed(t) && !IsRed(p.r)
      modifies this`root, nodes`left, nodes`right, nodes`parent, nodes`red
      ensures Around(p', t') == Around(p, t) && p' == p.up
      ensures done ==> Restored(p', t') && n' == root
      ensures !done ==> Lacking(n', parent', p', t') && IsRed(t') == p.red
    {
      hide At, PathColoured, Around, AlmostColoured, Entries, Coloured;
      ghost var s := p.r;
      LackColours(p, t, s);
      SiblingFacts(Mem(), root, p, t);
      Step(Mem(), root, p, t);
      Step(Mem(), root, InRight(p.up, t, parent, p.red), s);
      NodeFacts(Mem(), root, InRight(p.up, t, parent, p.red), s);
      AroundFilled(p, t);
      PaintedSibling(p, t, s);
      var tmp := parent.right;
      p' := p.up;
      if (tmp.left == null || !tmp.left.red) && (tmp.right == null || !tmp.right.red) {
        PaintRight(tmp, true, p.up, t, parent, p.red, s.l, false, s.r);
        t' := Node(t, parent, p.red, s.(red := true));
        NodeFacts(Mem(), root, p', t');
        n' := parent;
        parent' := n'.parent;
        done := false;
      } else {
        t' := RestoreLeft(parent, p.up, t, p.red, s);
        n', parent', done := root, null, true;
      }
      SameAround(p', t', Filled(p, t));
    }

    /** A red sibling on the right turns black by a rotation */
    method RedSiblingRight(parent: Nat, ghost p: Path, ghost t: Shape) returns (ghost q: Path)
      requires Lacking(Root(t), parent, p, t) && p.InLeft? && !IsRed(t) && IsRed(p.r)
      modifies this`root, nodes`left, nodes`right, nodes`parent, nodes`red
      ensures Lacking(Root(t), parent, q, t) && q.InLeft? && q.red && Depth(q) == Depth(p) + 1
      ensures Around(q, t) == Around(p, t)
    {
      ghost var up, w := p.up, p.r;
      SiblingFacts(Mem(), root, p, t);
      Step(Mem(), root, p, t);
      RedSiblingColours(p, t, w);
      hide At, PathColoured, Around, Before, After, AlmostColoured;
      var tmp := parent.right;
      PaintRight(tmp, false, up, t, parent, false, w.l, true, w.r);
      Paint(parent, true, up, t, false, w.(red := false));
      RotateLeft(parent, up, t, true, w.l, tmp, false, w.r);
      RotatedEntries(t, parent, w.l, tmp, w.r, false, true, true, false);
      Step(Mem(), root, InLeft(up, tmp, false, w.r), Node(t, parent, true, w.l));
      q := InLeft(InLeft(up, tmp, false, w.r), parent, true, w.l);
      Step(Mem(), root, q, t);
      SameAround(up, Filled(q.up, Filled(q, t)), Filled(p, t));
    }

    /** A red nephew on the right makes up for the lack */
    method RestoreLeft(parent: Nat, ghost up: Path, ghost t: Shape, ghost pred: bool, ghost s0: Shape)
      returns (ghost whole: Shape)
      requires At(Mem(), root, up, Node(t, parent, pred, s0))
      requires Coloured(t) && !IsRed(t) && Coloured(s0) && s0.Node? && !s0.red && (IsRed(s0.l) || IsRed(s0.r))
      requires Height(s0) == Height(t) + 1
      modifies this`root, nodes`left, nodes`right, nodes`parent, nodes`red
      ensures At(Mem(), root, up, whole) && Entries(whole) == Entries(Node(t, parent, pred, s0))
      ensures Coloured(whole) && Height(whole) == Height(t) + (if pred then 1 else 2) && IsRed(whole) == pred
    {
      ghost var s, hole := s0, InRight(up, t, parent, pred);
      NodeFacts(Mem(), root, up, Node(t, parent, pred, s));
      Step(Mem(), root, hole, s);
      NodeFacts(Mem(), root, hole, s);
      hide At;
      var tmp := parent.right;
      if tmp.right == null || !tmp.right.red {
        s := TurnNephewRight(tmp, hole, s);
        Step(Mem(), root, hole, s);
        NodeFacts(Mem(), root, up, Node(t, parent, pred, s));
        NodeFacts(Mem(), root, hole, s);
        tmp := parent.right;
      }
      whole := RaiseRight(parent, tmp, up, t, pred, s);
    }

    method TurnNephewRight(tmp: Nat, ghost hole: Path, ghost s: Shape) returns (ghost s': Shape)
      requires At(Mem(), root, hole, s) && s.Node? && s.n == tmp && tmp.left == Root(s.l)
      requires Coloured(s) && !s.red && IsRed(s.l) && !IsRed(s.r)
      modifies this`root, nodes`left, nodes`right, nodes`parent, nodes`red
      ensures At(Mem(), root, hole, s') && Entries(s') == Entries(s)
      ensures Coloured(s'.l) && s'.Node? && !s'.red && IsRed(s'.r) && Coloured(s'.r)
      ensures Height(s'.l) == Height(s'.r) == Height(s) - 1
    {
      hide At;
      var oleft := tmp.left;
      PaintLeft(oleft, false, hole, tmp, false, s.l.l, true, s.l.r, s.r);
      Paint(tmp, true, hole, s.l.(red := false), false, s.r);
      RotateRight(tmp, hole, s.l.l, oleft, false, s.l.r, true, s.r);
      RotatedEntries(s.l.l, oleft, s.l.r, tmp, s.r, false, true, true, false);
      s' := Node(s.l.l, oleft, false, Node(s.l.r, tmp, true, s.r));
    }

    method RaiseRight(parent: Nat, tmp: Nat, ghost up: Path, ghost t: Shape, ghost pred: bool, ghost s: Shape)
      returns (ghost whole: Shape)
      requires At(Mem(), root, up, Node(t, parent, pred, s)) && parent.red == pred && tmp.right != null
      requires Coloured(t) && !IsRed(t) && s.Node? && !s.red && IsRed(s.r) && s.n == tmp && tmp.right == s.r.n
      requires Coloured(s.l) && Coloured(s.r) && Height(s.l) == Height(s.r) == Height(t)
      modifies this`root, nodes`left, nodes`right, nodes`parent, nodes`red
      ensures At(Mem(), root, up, whole) && Entries(whole) == Entries(Node(t, parent, pred, s))
      ensures Coloured(whole) && Height(whole) == Height(t) + (if pred then 1 else 2) && IsRed(whole) == pred
    {
      hide At;
      ghost var hole := InRight(up, t, parent, pred);
      var right := tmp.right;
      Step(Mem(), root, hole, s);
      Paint(tmp, parent.red, hole, s.l, false, s.r);
      Step(Mem(), root, hole, s.(red := pred));
      Paint(parent, false, up, t, pred, s.(red := pred));
      hole := InRight(up, t, parent, false);
      Step(Mem(), root, hole, s.(red := pred));
      PaintRight(right, false, hole, s.l, tmp, pred, s.r.l, true, s.r.r);
      ghost var z := s.r.(red := false);
      Step(Mem(), root, hole, Node(s.l, tmp, pred, z));
      RotateLeft(parent, up, t, false, s.l, tmp, pred, z);
      RotatedEntries(t, parent, s.l, tmp, z, false, pred, false, pred);
      whole := Node(Node(t, parent, false, s.l), tmp, pred, z);
      assert Entries(z) == Entries(s.r);
      assert Entries(Node(s.l, tmp, pred, z)) == Entries(s);
    }

    /** The half of the loop for a lack in a right child */
    method LackRight(n: Nat?, parent: Nat, ghost p: Path, ghost t: Shape)
      returns (done: bool, n': Nat?, parent': Nat?, ghost p': Path, ghost t': Shape)
      requires Lacking(n, parent, p, t) && p.InRight? && !IsRed(t)
      modifies this`root, nodes`left, nodes`right, nodes`parent, nodes`red
      ensures Around(p', t') == Around(p, t)
      ensures done ==> Restored(p', t') && n' == root
      ensures !done ==> Lacking(n', parent', p', t') && (IsRed(t') || Depth(p') < Depth(p))
    {
      hide At, PathColoured, Around, AlmostColoured;
      ghost var q := p;
      SiblingFacts(Mem(), root, p, t);
      if parent.left.red {
        q := RedSiblingLeft(parent, p, t);
        SiblingFacts(Mem(), root, q, t);
      }
      done, n', parent', p', t' := LackRightOfBlack(n, parent, q, t);
    }

    method LackRightOfBlack(n: Nat?, parent: Nat, ghost p: Path, ghost t: Shape)
      returns (done: bool, n': Nat?, parent': Nat?, ghost p': Path, ghost t': Shape)
      requires Lacking(n, parent, p, t) && p.InRight? && !IsRed(t) && !IsRed(p.l)
      modifies this`root, nodes`left, nodes`right, nodes`parent, nodes`red
      ensures Around(p', t') == Around(p, t) && p' == p.up
      ensures done ==> Restored(p', t') && n' == root
      ensures !done ==> Lacking(n', parent', p', t') && IsRed(t') == p.red
    {
      hide At, PathColoured, Around, AlmostColoured, Entries, Coloured;
      ghost var s := p.l;
      LackColours(p, t, s);
      SiblingFacts(Mem(), root, p, t);
      Step(Mem(), root, p, t);
      Step(Mem(), root, InLeft(p.up, parent, p.red, t), s);
      NodeFacts(Mem(), root, InLeft(p.up, parent, p.red, t), s);
      AroundFilled(p, t);
      PaintedSibling(p, t, s);
      var tmp := parent.left;
      p' := p.up;
      if (tmp.left == null || !tmp.left.red) && (tmp.right == null || !tmp.right.red) {
        PaintLeft(tmp, true, p.up, parent, p.red, s.l, false, s.r, t);
        t' := Node(s.(red := true), parent, p.red, t);
        NodeFacts(Mem(), root, p', t');
        n' := parent;
        parent' := n'.parent;
        done := false;
      } else {
        t' := RestoreRight(parent, p.up, t, p.red, s);
        n', parent', done := root, null, true;
      }
      SameAround(p', t', Filled(p, t));
    }

    /** A red sibling on the left turns black by a rotation */
    method RedSiblingLeft(parent: Nat, ghost p: Path, ghost t: Shape) returns (ghost q: Path)
      requires Lacking(Root(t), parent, p, t) && p.InRight? && !IsRed(t) && IsRed(p.l)
      modifies this`root, nodes`left, nodes`right, nodes`parent, nodes`red
      ensures Lacking(Root(t), parent, q, t) && q.InRight? && q.red && Depth(q) == Depth(p) + 1
      ensures Around(q, t) == Around(p, t)
    {
      hide At, PathColoured, Around, AlmostColoured;
      ghost var up, w := p.up, p.l;
      SiblingFacts(Mem(), root, p, t);
      RedSiblingColours(p, t, w);
      Step(Mem(), root, p, t);
      var tmp := parent.left;
      PaintLeft(tmp, false, up, parent, false, w.l, true, w.r, t);
      Paint(parent, true, up, w.(red := false), false, t);
      RotateRight(parent, up, w.l, tmp, false, w.r, true, t);
      RotatedEntries(w.l, tmp, w.r, parent, t, false, true, true, false);
      Step(Mem(), root, InRight(up, w.l, tmp, false), Node(w.r, parent, true, t));
      q := InRight(InRight(up, w.l, tmp, false), w.r, parent, true);
      Step(Mem(), root, q, t);
      SameAround(up, Filled(q.up, Filled(q, t)), Filled(p, t));
    }

    /** A red nephew on the left makes up for the lack */
    method RestoreRight(parent: Nat, ghost up: Path, ghost t: Shape, ghost pred: bool, ghost s0: Shape)
      returns (ghost whole: Shape)
      requires At(Mem(), root, up, Node(s0, parent, pred, t))
      requires Coloured(t) && !IsRed(t) && Coloured(s0) && s0.Node? && !s0.red && (IsRed(s0.l) || IsRed(s0.r))
      requires Height(s0) == Height(t) + 1
      modifies this`root, nodes`left, nodes`right, nodes`parent, nodes`red
      ensures At(Mem(), root, up, whole) && Entries(whole) == Entries(Node(s0, parent, pred, t))
      ensures Coloured(whole) && Height(whole) == Height(t) + (if pred then 1 else 2) && IsRed(whole) == pred
    {
      hide At;
      ghost var s, hole := s0, InLeft(up, parent, pred, t);
      NodeFacts(Mem(), root, up, Node(s, parent, pred, t));
      Step(Mem(), root, hole, s);
      NodeFacts(Mem(), root, hole, s);
      var tmp := parent.left;
      if tmp.left == null || !tmp.left.red {
        s := TurnNephewLeft(tmp, hole, s);
        Step(Mem(), root, hole, s);
        NodeFacts(Mem(), root, up, Node(s, parent, pred, t));
        NodeFacts(Mem(), root, hole, s);
        tmp := parent.left;
      }
      whole := RaiseLeft(parent, tmp, up, t, pred, s);
    }

    method TurnNephewLeft(tmp: Nat, ghost hole: Path, ghost s: Shape) returns (ghost s': Shape)
      requires At(Mem(), root, hole, s) && s.Node? && s.n == tmp && tmp.right == Root(s.r)
      requires Coloured(s) && !s.red && IsRed(s.r) && !IsRed(s.l)
      modifies this`root, nodes`left, nodes`right, nodes`parent, nodes`red
      ensures At(Mem(), root, hole, s') && Entries(s') == Entries(s)
      ensures Coloured(s'.r) && s'.Node? && !s'.red && IsRed(s'.l) && Coloured(s'.l)
      ensures Height(s'.l) == Height(s'.r) == Height(s) - 1
    {
      hide At;
      var oright := tmp.right;
      PaintRight(oright, false, hole, s.l, tmp, false, s.r.l, true, s.r.r);
      Paint(tmp, true, hole, s.l, false, s.r.(red := false));
      RotateLeft(tmp, hole, s.l, true, s.r.l, oright, false, s.r.r);
      RotatedEntries(s.l, tmp, s.r.l, oright, s.r.r, false, true, true, false);
      s' := Node(Node(s.l, tmp, true, s.r.l), oright, false, s.r.r);
    }

    method RaiseLeft(parent: Nat, tmp: Nat, ghost up: Path, ghost t: Shape, ghost pred: bool, ghost s: Shape)
      returns (ghost whole: Shape)
      requires At(Mem(), root, up, Node(s, parent, pred, t)) && parent.red == pred && tmp.left != null
      requires Coloured(t) && !IsRed(t) && s.Node? && !s.red && IsRed(s.l) && s.n == tmp && tmp.left == s.l.n
      requires Coloured(s.l) && Coloured(s.r) && Height(s.l) == Height(s.r) == Height(t)
      modifies this`root, nodes`left, nodes`right, nodes`parent, nodes`red
      ensures At(Mem(), root, up, whole) && Entries(whole) == Entries(Node(s, parent, pred, t))
      ensures Coloured(whole) && Height(whole) == Height(t) + (if pred then 1 else 2) && IsRed(whole) == pred
    {
      hide At;
      ghost var hole := InLeft(up, parent, pred, t);
      var left := tmp.left;
      Step(Mem(), root, hole, s);
      Paint(tmp, parent.red, hole, s.l, false, s.r);
      Step(Mem(), root, hole, s.(red := pred));
      Paint(parent, false, up, s.(red := pred), pred, t);
      hole := InLeft(up, parent, false, t);
      Step(Mem(), root, hole, s.(red := pred));
      PaintLeft(left, false, hole, tmp, pred, s.l.l, true, s.l.r, s.r);
      ghost var z := s.l.(red := false);
      Step(Mem(), root, hole, Node(z, tmp, pred, s.r));
      RotateRight(parent, up, z, tmp, pred, s.r, false, t);
      RotatedEntries(z, tmp, s.r, parent, t, pred, false, false, pred);
      whole := Node(z, tmp, pred, Node(s.r, parent, false, t));
      assert Entries(z) == Entries(s.l);
      assert Entries(Node(z, tmp, pred, s.r)) == Entries(s);
    }

    /** nat_tree_remove_color */
    method RemoveColor(parent0: Nat?, n0: Nat?, ghost p0: Path, ghost t0: Shape)
      requires Lacking(n0, parent0, p0, t0)
      modifies this`root, this`shape, nodes`left, nodes`right, nodes`parent, nodes`red
      ensures At(Mem(), root, Top, shape) && Coloured(shape) && !IsRed(shape) && Entries(shape) == Around(p0, t0)
    {
      hide At, Around, PathColoured;
      var n, parent, done := n0, parent0, false;
      ghost var p, t := p0, t0;
      RootFacts(Mem(), root, p, t);
      while !done && (n == null || !n.red) && n != root
        invariant Around(p, t) == Around(p0, t0)
        invariant if done then Restored(p, t) && n == root else Lacking(n, parent, p, t)
        decreases if done then 0 else 1, if IsRed(t) then 0 else Depth(p) + 1
      {
        RootFacts(Mem(), root, p, t);
        if parent.left == n {
          done, n, parent, p, t := LackLeft(n, parent, p, t);
        } else {
          done, n, parent, p, t := LackRight(n, parent, p, t);
        }
      }
      if done {
        Close(p, t);
        TopShape(Mem(), root, shape);
        if n != null {
          Paint(n, false, Top, shape.l, false, shape.r);
        }
      } else {
        RootFacts(Mem(), root, p, t);
        if n != null {
          Paint(n, false, p, t.l, t.red, t.r);
          SameAround(p, t, t.(red := false));
          t := t.(red := false);
        }
        Close(p, t);
      }
    }

    ghost method Close(p: Path, t: Shape)
      requires At(Mem(), root, p, t) && Coloured(t) && (HoleInRed(p) || p.Top? ==> !IsRed(t))
      requires p.Top? || PathColoured(p, Height(t))
      modifies this`shape
      ensures At(Mem(), root, Top, shape) && Coloured(shape) && !IsRed(shape) && Entries(shape) == Around(p, t)
    {
      hide At;
      PlugEntries(p, t);
      ToTop(Mem(), root, p, t);
      if !p.Top? { PlugColoured(p, t); }
      shape := Plug(p, t);
    }

    /** n is out of the tree; what its colour was decides whether black is lacking */
    ghost predicate Taken(n: Nat, wasRed: bool, child: Nat?, parent: Nat?, p: Path, t: Shape)
      reads this`root, this`nodes, nodes`left, nodes`right, nodes`parent, nodes`red
    {
      && At(Mem(), root, p, t) && child == Root(t) && parent == Above(p)
      && PathNodes(p) + Nodes(t) == nodes - {n} && Sorted(Around(p, t)) && Coloured(t)
      && PathColoured(p, if wasRed then Height(t) else Height(t) + 1)
      && (wasRed && (HoleInRed(p) || p.Top?) ==> !IsRed(t))
    }

    method TakeOuter(n: Nat, ghost p: Path, ghost t: Shape)
      returns (child: Nat?, parent: Nat?, wasRed: bool, ghost c: Shape)
      requires Seeking(Mem(), root, Entries(shape), p, t) && t.Node? && t.n == n && (t.l.Leaf? || t.r.Leaf?)
      requires Coloured(t) && PathColoured(p, Height(t)) && (HoleInRed(p) || p.Top? ==> !IsRed(t))
      requires Sorted(Entries(shape))
      modifies this`root, nodes`left, nodes`right, nodes`parent
      ensures Taken(n, wasRed, child, parent, p, c)
    {
      hide At, PathColoured, Sorted, Around;
      c := if t.l.Leaf? then t.r else t.l;
      NodeFacts(Mem(), root, p, t);
      TakeOuterColours(p, t, c);
      TakeOuterOrder(p, t, c);
      TakeOuterNodes(Mem(), root, p, t, c);
      wasRed := n.red;
      child, parent := SpliceOut(n, p, t.l, t.red, t.r, c);
    }

    /** With two children, the next entry m of the right subtree takes the place of n */
    method TakeInner(n: Nat, ghost p: Path, ghost t: Shape)
      returns (child: Nat?, parent: Nat?, wasRed: bool, ghost q: Path, ghost c: Shape)
      requires Seeking(Mem(), root, Entries(shape), p, t) && t.Node? && t.n == n && t.l.Node? && t.r.Node?
      requires Coloured(t) && PathColoured(p, Height(t)) && (HoleInRed(p) || p.Top? ==> !IsRed(t))
      requires Sorted(Entries(shape)) && n.right == Root(t.r)
      modifies this`root, nodes`left, nodes`right, nodes`parent, nodes`red
      ensures Taken(n, wasRed, child, parent, q, c)
    {
      hide At, PathColoured, Sorted, Around, Coloured, Nodes, PathNodes, Entries, Plug;
      var m;
      ghost var inner, s;
      m, inner, s := Next(n, p, t);
      ghost var base, base' := InRight(p, t.l, n, t.red), InRight(p, t.l, m, t.red);
      TakeInnerColours(p, t.l, n, t.red, inner, s);
      TakeInnerOrder(p, t.l, n, t.red, inner, s);
      TakeInnerNodes(Mem(), root, p, t.l, n, t.red, inner, s);
      TakeInnerAbove(Mem(), root, p, t.l, n, t.red, inner, s);
      wasRed := m.red;
      child, parent := SpliceOut(m, Join(inner, base), Leaf, s.red, s.r, s.r);
      c := s.r;
      if m.parent == n {
        parent := m;
      }
      PutInPlace(n, m, p, t.l, t.red, inner, c);
      q := Join(inner, base');
    }

    /** m, which has left its place behind the inner path, takes the place of n above that path */
    method PutInPlace(n: Nat, m: Nat, ghost p: Path, ghost l: Shape, ghost red: bool, ghost inner: Path, ghost c: Shape)
      requires At(Mem(), root, Join(inner, InRight(p, l, n, red)), c) && l.Node?
      requires m in nodes && m !in PathNodes(p) + Nodes(Node(l, n, red, Plug(inner, c)))
      modifies this`root, nodes`left, nodes`right, nodes`parent, nodes`red
      ensures At(Mem(), root, Join(inner, InRight(p, l, m, red)), c)
    {
      hide At, Nodes, PathNodes, Around, Plug;
      ghost var base, base', u := InRight(p, l, n, red), InRight(p, l, m, red), Plug(inner, c);
      JoinUp(Mem(), root, inner, base, c);
      Step(Mem(), root, base, u);
      TakePlace(n, m, p, l, red, u);
      Step(Mem(), root, base', u);
      JoinUp(Mem(), root, inner, base', c);
    }

    /** The leftmost entry of the right subtree */
    method Next(n: Nat, ghost p: Path, ghost t: Shape) returns (m: Nat, ghost inner: Path, ghost s: Shape)
      requires Seeking(Mem(), root, Entries(shape), p, t) && t.Node? && t.n == n && t.l.Node? && t.r.Node?
      requires Coloured(t) && PathColoured(p, Height(t)) && (HoleInRed(p) || p.Top? ==> !IsRed(t))
      requires n.right == Root(t.r)
      ensures AllLeft(inner) && s.Node? && s.n == m && s.l.Leaf? && m.red == s.red
      ensures var q := Join(inner, InRight(p, t.l, n, t.red));
        && Seeking(Mem(), root, Entries(shape), q, s)
        && Coloured(s) && PathColoured(q, Height(s)) && (HoleInRed(q) ==> !IsRed(s))
    {
      hide At, Seeking;
      m := n.right;
      inner, s := Top, t.r;
      ghost var base := InRight(p, t.l, n, t.red);
      GoRight(Mem(), root, Entries(shape), p, t);
      while m.left != null
        invariant AllLeft(inner) && s.Node? && s.n == m
        invariant Seeking(Mem(), root, Entries(shape), Join(inner, base), s)
        invariant Coloured(s) && PathColoured(Join(inner, base), Height(s))
        invariant (HoleInRed(Join(inner, base)) ==> !IsRed(s))
        decreases s
      {
        GoLeft(Mem(), root, Entries(shape), Join(inner, base), s);
        m := m.left;
        inner, s := InLeft(inner, s.n, s.red, s.r), s.l;
      }
      GoLeft(Mem(), root, Entries(shape), Join(inner, base), s);
    }

    constructor ()
      ensures Valid() && nodes == {}
    {
      root, nodes, shape := null, {}, Leaf;
    }

    /** nat_tree_remove */
    method Remove(n: Nat)
      requires Valid() && n in nodes
      modifies this, nodes`left, nodes`right, nodes`parent, nodes`red
      ensures Valid() && nodes == old(nodes) - {n}
    {
      hide At, PathColoured, Sorted, Around, Nodes, PathNodes, Entries;
      SeekTop(Mem(), root, shape);
      ghost var p, t := Locate(Mem(), root, Entries(shape), Top, shape, n);
      NodeFacts(Mem(), root, p, t);
      var child, parent, wasRed;
      ghost var c;
      if n.left == null || n.right == null {
        child, parent, wasRed, c := TakeOuter(n, p, t);
      } else {
        child, parent, wasRed, p, c := TakeInner(n, p, t);
      }
      ghost var mem := Mem();
      nodes := nodes - {n};
      Shrunk(mem, Mem(), root, p, c);
      AroundNodes(p, c);
      if !wasRed {
        RemoveColor(parent, child, p, c);
      } else {
        Close(p, c);
      }
      EntriesNodes(shape);
    }
  }
}
