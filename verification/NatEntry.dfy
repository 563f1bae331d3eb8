/**
  NAT entries: the identifying fields of a binding, the comparison chains of the
  red-black tree and of the per tunnel splay trees, and what those chains mean.

  The chains compare byte by byte.  On admissible entries they decide exactly the
  order of an integer rank, so both are strict total orders; on a lookup template
  the wildcard chains are monotone along that order as long as a group of entries
  never mixes a wildcard with entries for one destination.
 */
module NatEntry {

  newtype Byte = x: int | 0 <= x < 256

  /** u_char[4]: an IPv4 address in network order */
  datatype Quad = Quad(b0: Byte, b1: Byte, b2: Byte, b3: Byte) {
    function Value(): (r: int)
      ensures 0 <= r < 0x1_0000_0000
    {
      ((b0 as int * 256 + b1 as int) * 256 + b2 as int) * 256 + b3 as int
    }
  }

  /** u_char[2]: a port or an ICMP identifier in network order */
  datatype Pair = Pair(hi: Byte, lo: Byte) {
    function Value(): (r: int)
      ensures 0 <= r < 0x1_0000
    {
      hi as int * 256 + lo as int
    }
  }

  /** Generations below this one are not part of the reloaded configuration */
  const FIRST_GEN: nat := 1024

  const NO_ADDR := Quad(0, 0, 0, 0)
  const NO_PORT := Pair(0, 0)

  /** The port with a given 16-bit value */
  function PortOf(v: int): (p: Pair)
    requires 0 <= v < 0x1_0000
    ensures p.Value() == v
  {
    Pair((v / 256) as Byte, (v % 256) as Byte)
  }

  /** ALL_DST, PRR_NULL, MATCH_PORT and MATCH_ICMP; MATCH_ANY is either of the last two */
  datatype Flags = Flags(allDst: bool, prrNull: bool, matchPort: bool, matchIcmp: bool) {
    predicate MatchAny() { matchPort || matchIcmp }
  }

  const PRCNT: nat := 3

  const ICMP: Byte := 1
  const TCP: Byte := 6
  const UDP: Byte := 17

  /** tcpst: what has been seen of a TCP connection */
  datatype TcpState = TcpState(acked: bool, closedIn: bool, closedOut: bool)

  /** The fields an entry is found by; a lookup template is a Key too */
  datatype Key = Key(
    tunnel: int, proto: Byte, flags: Flags,
    src: Quad, sport: Pair,
    nsrc: Quad, nport: Pair,
    dst: Quad, dport: Pair)

  /** TCPPR, UDPPR, and ICMPPR for everything else */
  function Index(proto: Byte): (i: nat)
    ensures i < PRCNT
  {
    if proto == TCP then 0 else if proto == UDP then 1 else 2
  }

  /** Which of a tunnel's per protocol slots: its splay tree, bucket and counters */
  function SlotOf(k: Key): int { Slot(k.tunnel, Index(k.proto)) }

  /** A source address and one of its port ranges */
  datatype Pool = Pool(addr: Quad, pr: nat)

  function PoolOf(k: Key): Pool { Pool(k.nsrc, Index(k.proto)) }

  function Slot(tunnel: int, pr: nat): int { tunnel * PRCNT + pr }

  lemma SlotsDiffer(tunnel: int)
    ensures forall i: nat | i < PRCNT :: Slot(tunnel, i) % PRCNT == i
  {
  }

  lemma SlotProto(k: Key)
    ensures SlotOf(k) % PRCNT == Index(k.proto)
  {
  }

  /** A binding.  What it is found by never changes while it is in a table. */
  class Nat {
    const key: Key
    // red-black tree
    var left: Nat?
    var right: Nat?
    var parent: Nat?
    var red: bool
    // per tunnel splay tree
    var tleft: Nat?
    var tright: Nat?
    // expiry heap, 0 for an entry outside it
    var heapIndex: nat
    var timeout: int
    var lifetime: nat
    // last slot of the hash cache
    var hash: nat
    var generation: nat
    var tcpst: TcpState

    constructor (key: Key, timeout: int, lifetime: nat, generation: nat)
      ensures this.key == key && this.timeout == timeout && this.lifetime == lifetime
      ensures this.generation == generation && heapIndex == 0 && hash == 0
      ensures tcpst == TcpState(false, false, false)
    {
      this.key := key;
      left, right, parent, tleft, tright := null, null, null, null, null;
      red, heapIndex, hash := false, 0, 0;
      tcpst := TcpState(false, false, false);
      this.timeout, this.lifetime, this.generation := timeout, lifetime, generation;
    }
  }

  /** Wildcards have no destination, entries for one destination have one */
  predicate Admissible(k: Key) {
    && k.flags.MatchAny()
    && (k.flags.allDst ==> k.dst == NO_ADDR && k.dport == NO_PORT)
    && (!k.flags.allDst ==> k.dst != NO_ADDR && !k.flags.prrNull)
  }

  // ---------- The comparison chains ----------

  function CompareQuad(a: Quad, b: Quad): int {
    if a.b0 != b.b0 then a.b0 as int - b.b0 as int
    else if a.b1 != b.b1 then a.b1 as int - b.b1 as int
    else if a.b2 != b.b2 then a.b2 as int - b.b2 as int
    else a.b3 as int - b.b3 as int
  }

  function ComparePair(a: Pair, b: Pair): int {
    if a.hi != b.hi then a.hi as int - b.hi as int else a.lo as int - b.lo as int
  }

  /** The part both absolute chains share: wildcards first, then the destination */
  function CompareDst(a: Key, b: Key): int {
    if a.flags.allDst then
      if !b.flags.allDst then -1
      else if a.flags.prrNull then if b.flags.prrNull then 0 else -1
      else if b.flags.prrNull then 1 else 0
    else if a.dst != b.dst then CompareQuad(a.dst, b.dst)
    else if !a.flags.MatchAny() then 0
    else ComparePair(a.dport, b.dport)
  }

  /** The part both wildcard chains share */
  function CompareDstWild(a: Key, b: Key): int {
    if a.flags.allDst || b.flags.allDst then 0
    else if a.dst != b.dst then CompareQuad(a.dst, b.dst)
    else if !a.flags.MatchAny() then 0
    else ComparePair(a.dport, b.dport)
  }

  function TreeCompareGroup(a: Key, b: Key): int {
    if a.proto != b.proto then a.proto as int - b.proto as int
    else if a.nsrc != b.nsrc then CompareQuad(a.nsrc, b.nsrc)
    else ComparePair(a.nport, b.nport)
  }

  function TreeCompareAbs(a: Key, b: Key): int {
    var c := TreeCompareGroup(a, b);
    if c != 0 then c else CompareDst(a, b)
  }

  function TreeCompareWild(a: Key, b: Key): int {
    var c := TreeCompareGroup(a, b);
    if c != 0 then c else CompareDstWild(a, b)
  }

  /** All entries of one splay tree have the same tunnel, so the pointer
      difference at the head of the chain is zero or decides nothing. */
  function SplayCompareGroup(a: Key, b: Key): int {
    if a.tunnel != b.tunnel then a.tunnel - b.tunnel
    else if a.proto != b.proto then a.proto as int - b.proto as int
    else if a.src != b.src then CompareQuad(a.src, b.src)
    else ComparePair(a.sport, b.sport)
  }

  function SplayCompareAbs(a: Key, b: Key): int {
    var c := SplayCompareGroup(a, b);
    if c != 0 then c else CompareDst(a, b)
  }

  function SplayCompareWild(a: Key, b: Key): int {
    var c := SplayCompareGroup(a, b);
    if c != 0 then c else CompareDstWild(a, b)
  }

  // ---------- What the chains decide ----------

  function DstRank(k: Key): (r: int)
    ensures 0 <= r < 0x1_0000_0000_0000
  {
    if k.flags.allDst then (if k.flags.prrNull then 0 else 1)
    else k.dst.Value() * 0x1_0000 + k.dport.Value()
  }

  function TreeGroup(k: Key): int {
    (k.proto as int * 0x1_0000_0000 + k.nsrc.Value()) * 0x1_0000 + k.nport.Value()
  }

  function SplayGroup(k: Key): int {
    ((k.tunnel * 256 + k.proto as int) * 0x1_0000_0000 + k.src.Value()) * 0x1_0000 + k.sport.Value()
  }

  function TreeRank(k: Key): int { TreeGroup(k) * 0x1_0000_0000_0000 + DstRank(k) }

  function SplayRank(k: Key): int { SplayGroup(k) * 0x1_0000_0000_0000 + DstRank(k) }

  predicate SameSign(a: int, b: int) { (a < 0 <==> b < 0) && (a == 0 <==> b == 0) }

  lemma QuadOrder(a: Quad, b: Quad)
    ensures SameSign(CompareQuad(a, b), a.Value() - b.Value())
    ensures CompareQuad(a, b) == 0 <==> a == b
  {
  }

  lemma PairOrder(a: Pair, b: Pair)
    ensures SameSign(ComparePair(a, b), a.Value() - b.Value())
    ensures ComparePair(a, b) == 0 <==> a == b
  {
  }

  lemma DstOrder(a: Key, b: Key)
    requires Admissible(a) && Admissible(b)
    ensures SameSign(CompareDst(a, b), DstRank(a) - DstRank(b))
  {
    hide CompareQuad, ComparePair, Quad.Value, Pair.Value;
    if a.flags.allDst || b.flags.allDst {
      WildDstOrder(a, b);
    } else {
      QuadOrder(a.dst, b.dst);
      PairOrder(a.dport, b.dport);
      Digits(a.dst.Value(), a.dport.Value(), b.dst.Value(), b.dport.Value());
    }
  }

  lemma WildDstOrder(a: Key, b: Key)
    requires Admissible(a) && Admissible(b) && (a.flags.allDst || b.flags.allDst)
    ensures SameSign(CompareDst(a, b), DstRank(a) - DstRank(b))
  {
    hide CompareQuad, ComparePair, Quad.Value, Pair.Value;
    if !a.flags.allDst {
      RealDst(a.dst);
    }
    if !b.flags.allDst {
      RealDst(b.dst);
    }
  }

  lemma RealDst(q: Quad)
    requires q != NO_ADDR
    ensures q.Value() > 0 && CompareQuad(q, NO_ADDR) > 0
  {
  }

  lemma Digits(x: int, y: int, x': int, y': int)
    requires 0 <= y < 0x1_0000 && 0 <= y' < 0x1_0000
    ensures SameSign(x * 0x1_0000 + y - (x' * 0x1_0000 + y'), if x != x' then x - x' else y - y')
  {
  }

  /** On admissible entries the tree's chain is the order of TreeRank */
  lemma TreeOrder(a: Key, b: Key)
    requires Admissible(a) && Admissible(b)
    ensures SameSign(TreeCompareAbs(a, b), TreeRank(a) - TreeRank(b))
  {
    TreeGroupOrder(a, b);
    DstOrder(a, b);
  }

  lemma TreeGroupOrder(a: Key, b: Key)
    ensures SameSign(TreeCompareGroup(a, b), TreeGroup(a) - TreeGroup(b))
    ensures TreeCompareGroup(a, b) == 0 <==> a.proto == b.proto && a.nsrc == b.nsrc && a.nport == b.nport
  {
    QuadOrder(a.nsrc, b.nsrc);
    PairOrder(a.nport, b.nport);
  }

  lemma SplayGroupOrder(a: Key, b: Key)
    ensures SameSign(SplayCompareGroup(a, b), SplayGroup(a) - SplayGroup(b))
    ensures SplayCompareGroup(a, b) == 0 <==>
            a.tunnel == b.tunnel && a.proto == b.proto && a.src == b.src && a.sport == b.sport
  {
    QuadOrder(a.src, b.src);
    PairOrder(a.sport, b.sport);
  }

  /** On admissible entries the splay tree's chain is the order of SplayRank */
  lemma SplayOrder(a: Key, b: Key)
    requires Admissible(a) && Admissible(b)
    ensures SameSign(SplayCompareAbs(a, b), SplayRank(a) - SplayRank(b))
  {
    SplayGroupOrder(a, b);
    DstOrder(a, b);
  }

  /** A lookup template: a packet, so never a wildcard */
  predicate Template(k: Key) { !k.flags.allDst && k.flags.MatchAny() }

  /** Along a sorted pair that does not mix a wildcard with an entry for one
      destination inside a group, the wildcard chain can only fall. */
  lemma TreeWildMonotone(k: Key, a: Key, b: Key)
    requires Template(k) && Admissible(a) && Admissible(b)
    requires TreeRank(a) <= TreeRank(b)
    requires TreeGroup(a) == TreeGroup(b) ==> a.flags.allDst == b.flags.allDst
    ensures TreeCompareWild(k, a) < 0 ==> TreeCompareWild(k, b) < 0
    ensures TreeCompareWild(k, b) > 0 ==> TreeCompareWild(k, a) > 0
  {
    TreeGroupOrder(k, a);
    TreeGroupOrder(k, b);
    DstWildOrder(k, a);
    DstWildOrder(k, b);
  }

  lemma SplayWildMonotone(k: Key, a: Key, b: Key)
    requires Template(k) && Admissible(a) && Admissible(b)
    requires SplayRank(a) <= SplayRank(b)
    requires SplayGroup(a) == SplayGroup(b) == SplayGroup(k) && a.flags.allDst && !b.flags.allDst ==>
               DstRank(k) <= DstRank(b)
    ensures SplayCompareWild(k, a) < 0 ==> SplayCompareWild(k, b) < 0
    ensures SplayCompareWild(k, b) > 0 ==> SplayCompareWild(k, a) > 0
  {
    SplayGroupOrder(k, a);
    SplayGroupOrder(k, b);
    DstWildOrder(k, a);
    DstWildOrder(k, b);
  }

  lemma DstWildOrder(k: Key, a: Key)
    requires Template(k)
    ensures a.flags.allDst ==> CompareDstWild(k, a) == 0
    ensures !a.flags.allDst ==> SameSign(CompareDstWild(k, a), DstRank(k) - DstRank(a))
    ensures !a.flags.allDst ==> (CompareDstWild(k, a) == 0 <==> k.dst == a.dst && k.dport == a.dport)
  {
    QuadOrder(k.dst, a.dst);
    PairOrder(k.dport, a.dport);
  }
}
