/**
  The fields of an IPv4 packet, its rewriting in place, and the checksums it carries
  before and after.
 */
module Packet {
  import opened NatEntry
  import opened Checksum

  const PROTO: nat := 9
  const CKSUM: nat := 10
  const SRC: nat := 12
  const DST: nat := 16
  const SPORT: nat := 20
  const DPORT: nat := 22
  const ICMP_CKSUM: nat := 22
  const ICMP_ID: nat := 24
  const UDP_CKSUM: nat := 26
  const TCP_FLAGS: nat := 33
  const TCP_CKSUM: nat := 36
  const HEADERS: nat := 40

  function QuadAt(s: Bytes, i: nat): Quad
    requires i + 3 < |s|
  {
    Quad(s[i], s[i + 1], s[i + 2], s[i + 3])
  }

  function PairAt(s: Bytes, i: nat): Pair
    requires i + 1 < |s|
  {
    Pair(s[i], s[i + 1])
  }

  /** Where a packet carries the port that identifies its sender, or its receiver */
  function SourcePort(proto: Byte): (i: nat)
    ensures i % 2 == 0 && SPORT <= i <= ICMP_ID
  {
    if proto == ICMP then ICMP_ID else SPORT
  }

  function TargetPort(proto: Byte): (i: nat)
    ensures i % 2 == 0 && SPORT <= i <= ICMP_ID
  {
    if proto == ICMP then ICMP_ID else DPORT
  }

  predicate Translated(proto: Byte) { proto == TCP || proto == UDP || proto == ICMP }

  // ---------- The rewriting of a packet ----------

  function WordAt(s: Bytes, i: nat): (r: int)
    requires i + 1 < |s|
    ensures 0 <= r <= 0xffff
  {
    Word(s[i], s[i + 1])
  }

  /** A checksum fixed in place */
  function Refit(s: Bytes, i: nat, addr: Rewrite<Quad>, port: Rewrite<Pair>): (r: Bytes)
    requires i + 1 < |s|
    ensures |r| == |s|
  {
    var c := Fixed(WordAt(s, i), addr, port);
    PutWord(s, i, (c / 256) as Byte, (c % 256) as Byte)
  }

  /** A packet with an address and a port exchanged and its checksums fixed; a UDP packet may have none */
  function Rewritten(s: Bytes, addrAt: nat, portAt: nat, addr: Rewrite<Quad>, port: Rewrite<Pair>): (r: Bytes)
    requires |s| >= HEADERS && addrAt + 3 < |s| && portAt + 1 < |s|
    ensures |r| == |s|
  {
    var u := PutPort(Refit(PutAddr(s, addrAt, addr), CKSUM, addr, Keep), portAt, port);
    if s[PROTO] == TCP then Refit(u, TCP_CKSUM, addr, port)
    else if s[PROTO] == UDP then if WordAt(u, UDP_CKSUM) == 0 then u else Refit(u, UDP_CKSUM, addr, port)
    else if s[PROTO] == ICMP then Refit(u, ICMP_CKSUM, Keep, port)
    else u
  }

  method Fix(buf: array<Byte>, at: nat, addr: Rewrite<Quad>, port: Rewrite<Pair>)
    requires at + 1 < buf.Length
    modifies buf
    ensures buf[..] == Refit(old(buf[..]), at, addr, port)
  {
    hide Fixed;
    FixCksum(buf, at, addr, port);
    WordParts(buf[at], buf[at + 1]);
  }

  lemma WordParts(hi: Byte, lo: Byte)
    ensures (Word(hi, lo) / 256) as Byte == hi && (Word(hi, lo) % 256) as Byte == lo
  {
  }

  method Put(buf: array<Byte>, addrAt: nat, was: Quad, now: Quad)
    requires addrAt + 3 < buf.Length
    modifies buf
    ensures buf[..] == PutAddr(old(buf[..]), addrAt, Change(was, now))
  {
    buf[addrAt], buf[addrAt + 1], buf[addrAt + 2], buf[addrAt + 3] := now.b0, now.b1, now.b2, now.b3;
  }

  /** The rewriting part of natin and natout */
  method RewritePacket(buf: array<Byte>, addrAt: nat, portAt: nat, was: Quad, now: Quad, wasPort: Pair, nowPort: Pair)
    requires buf.Length >= HEADERS && addrAt + 3 < buf.Length && portAt + 1 < buf.Length && PROTO < addrAt
    requires PROTO < portAt
    modifies buf
    ensures buf[..] == Rewritten(old(buf[..]), addrAt, portAt, Change(was, now), Change(wasPort, nowPort))
  {
    hide Fixed, Refit, PutAddr;
    var addr, port := Change(was, now), Change(wasPort, nowPort);
    var proto := buf[PROTO];
    ghost var s := buf[..];
    Put(buf, addrAt, was, now);
    Fix(buf, CKSUM, addr, Keep);
    buf[portAt] := nowPort.hi;
    buf[portAt + 1] := nowPort.lo;
    if proto == TCP {
      Fix(buf, TCP_CKSUM, addr, port);
    } else if proto == UDP {
      if buf[UDP_CKSUM] != 0 || buf[UDP_CKSUM + 1] != 0 {
        Fix(buf, UDP_CKSUM, addr, port);
      }
    } else if proto == ICMP {
      Fix(buf, ICMP_CKSUM, Keep, port);
    }
  }

  /** What the rewriting leaves in the fields a reply is built from */
  lemma RewrittenFields(s: Bytes, addrAt: nat, portAt: nat, addr: Rewrite<Quad>, port: Rewrite<Pair>)
    requires |s| >= HEADERS && addr.Change? && port.Change? && Translated(s[PROTO])
    requires (addrAt == SRC && portAt == SourcePort(s[PROTO])) || (addrAt == DST && portAt == TargetPort(s[PROTO]))
    ensures var r := Rewritten(s, addrAt, portAt, addr, port);
      && r[PROTO] == s[PROTO] && QuadAt(r, addrAt) == addr.now && PairAt(r, portAt) == port.now
      && (addrAt != SRC ==> QuadAt(r, SRC) == QuadAt(s, SRC)) && (addrAt != DST ==> QuadAt(r, DST) == QuadAt(s, DST))
      && (s[PROTO] != ICMP && portAt != SPORT ==> PairAt(r, SPORT) == PairAt(s, SPORT))
      && (s[PROTO] != ICMP && portAt != DPORT ==> PairAt(r, DPORT) == PairAt(s, DPORT))
  {
    hide Fixed, Ones;
  }

  /** The TCP flags are no part of what is rewritten */
  lemma RewrittenFlags(s: Bytes, addrAt: nat, portAt: nat, addr: Rewrite<Quad>, port: Rewrite<Pair>)
    requires |s| >= HEADERS && (addrAt == SRC || addrAt == DST) && SPORT <= portAt <= ICMP_ID
    ensures Rewritten(s, addrAt, portAt, addr, port)[TCP_FLAGS] == s[TCP_FLAGS]
  {
    hide Fixed, Ones;
  }

  // ---------- The checksums of a packet ----------

  /** Where a packet carries the checksum of what is behind its header */
  function SegmentCksum(proto: Byte): (i: nat)
    ensures i % 2 == 0 && 22 <= i <= TCP_CKSUM
  {
    if proto == TCP then TCP_CKSUM else if proto == UDP then UDP_CKSUM else ICMP_CKSUM
  }

  /** The least length of a packet with a header of its protocol */
  function LeastLength(proto: Byte): nat { if proto == TCP then 40 else 28 }

  predicate LengthOk(s: Bytes, len: nat) {
    |s| >= HEADERS && LeastLength(s[PROTO]) <= len <= |s| && len <= 65535
  }

  /** What that checksum is about: for TCP and UDP addresses, protocol and length come first */
  function Covered(s: Bytes, len: nat): (r: Bytes)
    requires LengthOk(s, len)
    ensures |r| == len - 20 + Lead(s[PROTO])
  {
    if s[PROTO] == ICMP then s[20..len]
    else s[SRC..20] + [0, s[PROTO], ((len - 20) / 256) as Byte, ((len - 20) % 256) as Byte] + s[20..len]
  }

  function Lead(proto: Byte): nat { if proto == ICMP then 0 else 12 }

  /** A block with the field of its checksum zeroed */
  function Blank(s: Bytes, i: nat): Bytes
    requires i + 1 < |s|
  {
    PutWord(s, i, 0, 0)
  }

  function BlankHeader(s: Bytes): Bytes
    requires |s| >= HEADERS
  {
    Blank(s[..20], CKSUM)
  }

  function BlankSegment(s: Bytes, len: nat): Bytes
    requires LengthOk(s, len)
  {
    Blank(Covered(s, len), SegmentCksum(s[PROTO]) - 20 + Lead(s[PROTO]))
  }

  /** The stored checksum is the one that is computed with its field zeroed */
  predicate HeaderRight(s: Bytes)
    requires |s| >= HEADERS
  {
    WordAt(s, CKSUM) == Cksum(BlankHeader(s))
  }

  predicate SegmentRight(s: Bytes, len: nat)
    requires LengthOk(s, len)
  {
    WordAt(s, SegmentCksum(s[PROTO])) == Cksum(BlankSegment(s, len))
  }

  /** What a receiver looks at: with the stored checksum all adds up to ones */
  predicate HeaderAccepted(s: Bytes)
    requires |s| >= HEADERS
  {
    Ones(WordSum(s[..20])) == 0xffff
  }

  predicate SegmentAccepted(s: Bytes, len: nat)
    requires LengthOk(s, len)
  {
    Ones(WordSum(Covered(s, len))) == 0xffff
  }

  predicate Unchecked(s: Bytes)
    requires |s| >= HEADERS
  {
    s[PROTO] == UDP && WordAt(s, UDP_CKSUM) == 0
  }

  predicate AllZero(s: Bytes) { forall i | 0 <= i < |s| :: s[i] == 0 }

  /** Nothing changes but an address, a port, and the checksums */
  predicate OnlyFields(s: Bytes, r: Bytes, addrAt: nat, portAt: nat)
    requires |s| >= HEADERS && |r| == |s|
  {
    forall i | 0 <= i < |s| && !(addrAt <= i < addrAt + 4) && !(portAt <= i < portAt + 2) && !(CKSUM <= i < CKSUM + 2)
               && !(SegmentCksum(s[PROTO]) <= i < SegmentCksum(s[PROTO]) + 2) :: r[i] == s[i]
  }

  /** A packet whose header checksum is right, or is accepted, has one that is so afterwards, and one that was not has
      one that is not; so has what is behind the header, unless UDP has no checksum, and then it has none */
  ghost predicate ChecksumsKept(s: Bytes, r: Bytes, samePort: bool)
    requires |s| >= HEADERS && |r| == |s| && r[PROTO] == s[PROTO]
  {
    && (HeaderRight(s) ==> HeaderRight(r)) && (HeaderAccepted(s) <==> HeaderAccepted(r))
    && (Unchecked(s) ==> Unchecked(r))
    && forall len | LengthOk(s, len) && !Unchecked(s) :: SegmentStays(s, r, len, samePort)
  }

  /** An ICMP message that becomes all zero by a new identifier has a checksum of zero where 0xffff would be computed.
      A UDP datagram whose checksum would be computed as zero has none afterwards. */
  ghost predicate SegmentStays(s: Bytes, r: Bytes, len: nat, samePort: bool)
    requires |r| == |s| && LengthOk(s, len) && r[PROTO] == s[PROTO]
  {
    && (SegmentRight(s, len) ==>
          (SegmentRight(r, len) <==> s[PROTO] != ICMP || samePort || !AllZero(BlankSegment(r, len))))
    && (s[PROTO] != ICMP || (!AllZero(BlankSegment(s, len)) && !AllZero(BlankSegment(r, len))) ==>
          (SegmentAccepted(s, len) <==> SegmentAccepted(r, len)))
    && (s[PROTO] == UDP && SegmentAccepted(s, len) && WordAt(s, UDP_CKSUM) != 0xffff ==>
          (Unchecked(r) <==> Cksum(BlankSegment(r, len)) == 0))
  }

  // ---------- What the rewriting does to them ----------

  /** The packet has the fields that are to be exchanged */
  predicate Exchanges(s: Bytes, addrAt: nat, portAt: nat, was: Quad, wasPort: Pair) {
    && |s| >= HEADERS && Translated(s[PROTO])
    && ((addrAt == SRC && portAt == SourcePort(s[PROTO])) || (addrAt == DST && portAt == TargetPort(s[PROTO])))
    && QuadAt(s, addrAt) == was && PairAt(s, portAt) == wasPort
  }

  /** The address as far as the checksum of a segment is about it */
  function Seen(proto: Byte, addr: Rewrite<Quad>): Rewrite<Quad> { if proto == ICMP then Keep else addr }

  /** Which bytes come from where */
  lemma RewrittenBytes(s: Bytes, addrAt: nat, portAt: nat, was: Quad, now: Quad, wasPort: Pair, nowPort: Pair)
    requires Exchanges(s, addrAt, portAt, was, wasPort)
    ensures var r := Rewritten(s, addrAt, portAt, Change(was, now), Change(wasPort, nowPort));
      OnlyFields(s, r, addrAt, portAt) && QuadAt(r, addrAt) == now && PairAt(r, portAt) == nowPort
  {
    hide Fixed, Ones;
  }

  lemma RewrittenHeader(s: Bytes, addrAt: nat, portAt: nat, was: Quad, now: Quad, wasPort: Pair, nowPort: Pair)
    requires Exchanges(s, addrAt, portAt, was, wasPort)
    ensures WordAt(Rewritten(s, addrAt, portAt, Change(was, now), Change(wasPort, nowPort)), CKSUM) ==
            Fixed(WordAt(s, CKSUM), Change(was, now), Keep)
  {
    hide Fixed, Ones;
    PutBytes(Fixed(WordAt(s, CKSUM), Change(was, now), Keep));
  }

  lemma RewrittenSegment(s: Bytes, addrAt: nat, portAt: nat, was: Quad, now: Quad, wasPort: Pair, nowPort: Pair)
    requires Exchanges(s, addrAt, portAt, was, wasPort)
    ensures WordAt(Rewritten(s, addrAt, portAt, Change(was, now), Change(wasPort, nowPort)), SegmentCksum(s[PROTO])) ==
            if Unchecked(s) then 0
            else Fixed(WordAt(s, SegmentCksum(s[PROTO])), Seen(s[PROTO], Change(was, now)), Change(wasPort, nowPort))
  {
    hide Fixed, Ones;
    PutBytes(Fixed(WordAt(s, SegmentCksum(s[PROTO])), Seen(s[PROTO], Change(was, now)), Change(wasPort, nowPort)));
  }

  /** The blocks are those of before, with the fields exchanged */
  lemma HeaderBlock(s: Bytes, r: Bytes, addrAt: nat, portAt: nat, was: Quad, now: Quad, wasPort: Pair)
    requires Exchanges(s, addrAt, portAt, was, wasPort) && |r| == |s| && OnlyFields(s, r, addrAt, portAt)
    requires QuadAt(r, addrAt) == now
    ensures BlankHeader(r) == PutAddr(BlankHeader(s), addrAt, Change(was, now))
    ensures HoldsAddr(BlankHeader(s), addrAt, Change(was, now)) && BlankHeader(r)[PROTO] == BlankHeader(s)[PROTO] != 0
  {
    var b, b' := BlankHeader(s), BlankHeader(r);
    assert forall i | 0 <= i < 20 && i != CKSUM && i != CKSUM + 1 :: b[i] == s[i] && b'[i] == r[i];
  }

  /** Where in what a segment's checksum is about the address and the port are */
  function AddrPlace(proto: Byte, addrAt: nat): int { if proto == ICMP then 0 else addrAt - SRC }

  function PortPlace(proto: Byte, portAt: nat): int { portAt - 20 + Lead(proto) }

  lemma SegmentBlock(s: Bytes, r: Bytes, len: nat, addrAt: nat, portAt: nat, was: Quad, now: Quad, wasPort: Pair,
      nowPort: Pair)
    requires Exchanges(s, addrAt, portAt, was, wasPort) && |r| == |s| && OnlyFields(s, r, addrAt, portAt)
    requires QuadAt(r, addrAt) == now && PairAt(r, portAt) == nowPort && LengthOk(s, len)
    ensures r[PROTO] == s[PROTO] && LengthOk(r, len)
    ensures var addr, port := Seen(s[PROTO], Change(was, now)), Change(wasPort, nowPort);
      var a, p, b := AddrPlace(s[PROTO], addrAt), PortPlace(s[PROTO], portAt), BlankSegment(s, len);
      && 0 <= a && 0 <= p && HoldsAddr(b, a, addr) && HoldsPort(b, p, port) && a + 4 <= p
      && BlankSegment(r, len) == PutPort(PutAddr(b, a, addr), p, port)
  {
    if s[PROTO] == ICMP {
      MessageBlock(s, r, len, addrAt, portAt, was, wasPort, nowPort);
    } else {
      PseudoBlock(s, r, len, addrAt, portAt, was, now, wasPort, nowPort);
    }
  }

  lemma MessageBlock(s: Bytes, r: Bytes, len: nat, addrAt: nat, portAt: nat, was: Quad, wasPort: Pair, nowPort: Pair)
    requires Exchanges(s, addrAt, portAt, was, wasPort) && |r| == |s| && OnlyFields(s, r, addrAt, portAt)
    requires PairAt(r, portAt) == nowPort && LengthOk(s, len) && s[PROTO] == ICMP
    ensures r[PROTO] == s[PROTO] && LengthOk(r, len) && HoldsPort(BlankSegment(s, len), 4, Change(wasPort, nowPort))
    ensures BlankSegment(r, len) == PutPort(BlankSegment(s, len), 4, Change(wasPort, nowPort))
  {
    var b, b' := BlankSegment(s, len), BlankSegment(r, len);
    assert forall i | 0 <= i < len - 20 && i != 2 && i != 3 :: b[i] == s[i + 20] && b'[i] == r[i + 20];
  }

  lemma PseudoBlock(s: Bytes, r: Bytes, len: nat, addrAt: nat, portAt: nat, was: Quad, now: Quad, wasPort: Pair,
      nowPort: Pair)
    requires Exchanges(s, addrAt, portAt, was, wasPort) && |r| == |s| && OnlyFields(s, r, addrAt, portAt)
    requires QuadAt(r, addrAt) == now && PairAt(r, portAt) == nowPort && LengthOk(s, len) && s[PROTO] != ICMP
    ensures r[PROTO] == s[PROTO] && LengthOk(r, len)
    ensures var b := BlankSegment(s, len);
      && HoldsAddr(b, addrAt - 12, Change(was, now)) && HoldsPort(b, portAt - 8, Change(wasPort, nowPort))
      && BlankSegment(r, len) ==
         PutPort(PutAddr(b, addrAt - 12, Change(was, now)), portAt - 8, Change(wasPort, nowPort))
      && b[9] == s[PROTO]
  {
    var b, b' := BlankSegment(s, len), BlankSegment(r, len);
    BlankBytes(s, r, len, addrAt, portAt);
    hide BlankSegment, OnlyFields;
    PutBoth(b, b', addrAt - 12, was, now, portAt - 8, wasPort, nowPort);
  }

  lemma PutBoth(b: Bytes, b': Bytes, a: nat, was: Quad, now: Quad, p: nat, wasPort: Pair, nowPort: Pair)
    requires |b'| == |b| && a + 4 <= p && p + 1 < |b| && QuadAt(b', a) == now && PairAt(b', p) == nowPort
    requires forall i | 0 <= i < |b| && !(a <= i < a + 4) && !(p <= i < p + 2) :: b'[i] == b[i]
    ensures b' == PutPort(PutAddr(b, a, Change(was, now)), p, Change(wasPort, nowPort))
  {
  }

  lemma BlankBytes(s: Bytes, r: Bytes, len: nat, addrAt: nat, portAt: nat)
    requires LengthOk(s, len) && s[PROTO] != ICMP && |r| == |s| && OnlyFields(s, r, addrAt, portAt)
    requires r[PROTO] == s[PROTO] && (addrAt == SRC || addrAt == DST) && portAt >= 20
    ensures var b, b', f := BlankSegment(s, len), BlankSegment(r, len), SegmentCksum(s[PROTO]) - 8;
      && |b| == |b'| == len - 8 && b[9] == s[PROTO]
      && (forall i | 0 <= i < 8 :: b[i] == s[i + 12] && b'[i] == r[i + 12])
      && (forall i | 12 <= i < len - 8 && i != f && i != f + 1 :: b[i] == s[i + 8] && b'[i] == r[i + 8])
      && (forall i | 0 <= i < len - 8 && !(addrAt - 12 <= i < addrAt - 8) && !(portAt - 8 <= i < portAt - 6) ::
            b'[i] == b[i])
  {
    PseudoBytes(s, len);
    PseudoBytes(r, len);
    hide Covered;
  }

  lemma PseudoBytes(s: Bytes, len: nat)
    requires LengthOk(s, len) && s[PROTO] != ICMP
    ensures var c := Covered(s, len);
      && (forall i | 0 <= i < 8 :: c[i] == s[i + 12]) && (forall i | 12 <= i < len - 8 :: c[i] == s[i + 8])
      && c[8] == 0 && c[9] == s[PROTO] && c[10] as int == (len - 20) / 256 && c[11] as int == (len - 20) % 256
  {
  }

  lemma Filled(b: Bytes, f: nat)
    requires f % 2 == 0 && f + 1 < |b|
    ensures WordSum(b) == WordSum(Blank(b, f)) + WordAt(b, f)
  {
    PutWordSum(Blank(b, f), f, b[f], b[f + 1]);
    assert PutWord(Blank(b, f), f, b[f], b[f + 1]) == b;
  }

  lemma SomeByte(b: Bytes, i: nat)
    requires i < |b| && b[i] != 0
    ensures WordSum(b) > 0 && !AllZero(b)
  {
    ZeroSum(b);
  }

  /** A block and what is stored for it, before and after */
  lemma BlockKept(z: Bytes, h: int, a: nat, addr: Rewrite<Quad>, p: nat, port: Rewrite<Pair>)
    requires HoldsAddr(z, a, addr) && HoldsPort(z, p, port) && (p + 2 <= a || a + 4 <= p) && 0 <= h <= 0xffff
    ensures var z', h' := PutPort(PutAddr(z, a, addr), p, port), Fixed(h, addr, port);
      && (h == Cksum(z) ==> (h' == Cksum(z') <==> !AllZero(z') || (!Effective(addr) && !Effective(port))))
      && (!AllZero(z) && !AllZero(z') ==>
            && (Ones(WordSum(z) + h) == 0xffff <==> Ones(WordSum(z') + h') == 0xffff)
            && (Ones(WordSum(z) + h) == 0xffff && h != 0xffff ==> (h' == 0 <==> Cksum(z') == 0)))
  {
    hide Fixed, Cksum, Ones, WordSum, PutAddr, PutPort;
    var z' := PutPort(PutAddr(z, a, addr), p, port);
    if h == Cksum(z) {
      FixIsRecomputation(z, h, a, addr, p, port);
    }
    ZeroSum(z);
    ZeroSum(z');
    if !AllZero(z) && !AllZero(z') {
      FixAccepted(z, h, a, addr, p, port);
    }
  }

  lemma HeaderKept(s: Bytes, r: Bytes, addrAt: nat, portAt: nat, was: Quad, now: Quad, wasPort: Pair, nowPort: Pair)
    requires Exchanges(s, addrAt, portAt, was, wasPort)
    requires r == Rewritten(s, addrAt, portAt, Change(was, now), Change(wasPort, nowPort))
    ensures (HeaderRight(s) ==> HeaderRight(r)) && (HeaderAccepted(s) <==> HeaderAccepted(r))
  {
    hide Rewritten, Fixed, Cksum, Ones, WordSum, OnlyFields, BlankHeader;
    RewrittenBytes(s, addrAt, portAt, was, now, wasPort, nowPort);
    RewrittenHeader(s, addrAt, portAt, was, now, wasPort, nowPort);
    HeaderBlock(s, r, addrAt, portAt, was, now, wasPort);
    var z, z' := BlankHeader(s), BlankHeader(r);
    BlockKept(z, WordAt(s, CKSUM), addrAt, Change(was, now), 0, Keep);
    SomeByte(z, PROTO);
    SomeByte(z', PROTO);
    FilledHeader(s);
    FilledHeader(r);
  }

  lemma FilledHeader(s: Bytes)
    requires |s| >= HEADERS
    ensures WordSum(s[..20]) == WordSum(BlankHeader(s)) + WordAt(s, CKSUM)
  {
    Filled(s[..20], CKSUM);
  }

  lemma FilledSegment(s: Bytes, len: nat)
    requires LengthOk(s, len) && Translated(s[PROTO])
    ensures WordSum(Covered(s, len)) == WordSum(BlankSegment(s, len)) + WordAt(s, SegmentCksum(s[PROTO]))
  {
    hide WordSum;
    Filled(Covered(s, len), SegmentCksum(s[PROTO]) - 20 + Lead(s[PROTO]));
  }

  lemma SegmentKept(s: Bytes, r: Bytes, len: nat, addrAt: nat, portAt: nat, was: Quad, now: Quad, wasPort: Pair,
      nowPort: Pair)
    requires Exchanges(s, addrAt, portAt, was, wasPort) && LengthOk(s, len) && !Unchecked(s)
    requires r == Rewritten(s, addrAt, portAt, Change(was, now), Change(wasPort, nowPort))
    ensures r[PROTO] == s[PROTO] && LengthOk(r, len)
    ensures s[PROTO] != ICMP ==> !AllZero(BlankSegment(s, len)) && !AllZero(BlankSegment(r, len))
    ensures SegmentRight(s, len) ==> (SegmentRight(r, len) <==>
              !AllZero(BlankSegment(r, len)) || ((s[PROTO] == ICMP || was == now) && wasPort == nowPort))
    ensures !AllZero(BlankSegment(s, len)) && !AllZero(BlankSegment(r, len)) ==>
              (SegmentAccepted(s, len) <==> SegmentAccepted(r, len))
    ensures !AllZero(BlankSegment(s, len)) && !AllZero(BlankSegment(r, len)) && SegmentAccepted(s, len)
            && WordAt(s, SegmentCksum(s[PROTO])) != 0xffff ==>
              (WordAt(r, SegmentCksum(s[PROTO])) == 0 <==> Cksum(BlankSegment(r, len)) == 0)
  {
    hide Rewritten, Fixed, Cksum, Ones, WordSum, OnlyFields, BlankSegment, Covered, PutAddr, PutPort;
    RewrittenBytes(s, addrAt, portAt, was, now, wasPort, nowPort);
    RewrittenSegment(s, addrAt, portAt, was, now, wasPort, nowPort);
    SegmentBlock(s, r, len, addrAt, portAt, was, now, wasPort, nowPort);
    var a, p := AddrPlace(s[PROTO], addrAt), PortPlace(s[PROTO], portAt);
    BlockKept(BlankSegment(s, len), WordAt(s, SegmentCksum(s[PROTO])), a, Seen(s[PROTO], Change(was, now)), p,
      Change(wasPort, nowPort));
    FilledSegment(s, len);
    FilledSegment(r, len);
    NotAllZero(s, len);
    NotAllZero(r, len);
  }

  lemma NotAllZero(s: Bytes, len: nat)
    requires LengthOk(s, len) && Translated(s[PROTO])
    ensures s[PROTO] != ICMP ==> !AllZero(BlankSegment(s, len))
  {
    if s[PROTO] != ICMP {
      PseudoBytes(s, len);
      assert BlankSegment(s, len)[9] == s[PROTO];
    }
  }

  /** So NAT neither breaks the checksums of a packet nor hides that one was wrong */
  lemma AllKept(s: Bytes, r: Bytes, addrAt: nat, portAt: nat, was: Quad, now: Quad, wasPort: Pair, nowPort: Pair)
    requires Exchanges(s, addrAt, portAt, was, wasPort)
    requires r == Rewritten(s, addrAt, portAt, Change(was, now), Change(wasPort, nowPort))
    ensures OnlyFields(s, r, addrAt, portAt) && QuadAt(r, addrAt) == now && PairAt(r, portAt) == nowPort
    ensures r[PROTO] == s[PROTO] && ChecksumsKept(s, r, wasPort == nowPort)
  {
    hide Rewritten, Fixed, OnlyFields, HeaderRight, HeaderAccepted, SegmentRight, SegmentAccepted, BlankSegment,
      AllZero, Cksum;
    RewrittenBytes(s, addrAt, portAt, was, now, wasPort, nowPort);
    RewrittenSegment(s, addrAt, portAt, was, now, wasPort, nowPort);
    ProtoStays(s, r, addrAt, portAt);
    HeaderKept(s, r, addrAt, portAt, was, now, wasPort, nowPort);
    forall len | LengthOk(s, len) && !Unchecked(s) ensures SegmentStays(s, r, len, wasPort == nowPort) {
      SegmentKept(s, r, len, addrAt, portAt, was, now, wasPort, nowPort);
    }
  }

  lemma ProtoStays(s: Bytes, r: Bytes, addrAt: nat, portAt: nat)
    requires |s| >= HEADERS && |r| == |s| && OnlyFields(s, r, addrAt, portAt) && addrAt >= SRC && portAt >= SPORT
    ensures r[PROTO] == s[PROTO]
  {
  }

  /** A UDP datagram with a checksum that leaves its binding without one: fix_cksum has no other form of zero */
  lemma LosesChecksum(s: Bytes)
    requires |s| >= HEADERS && s[PROTO] == UDP && QuadAt(s, SRC) == Quad(10, 0, 0, 2) && PairAt(s, SPORT) == Pair(4, 1)
    requires WordAt(s, UDP_CKSUM) == 0xbbff
    ensures !Unchecked(s)
    ensures Unchecked(Rewritten(s, SRC, SPORT, Change(Quad(10, 0, 0, 2), Quad(192, 0, 2, 1)),
                                Change(Pair(4, 1), Pair(8, 1))))
  {
    hide Rewritten;
    RewrittenBytes(s, SRC, SPORT, Quad(10, 0, 0, 2), Quad(192, 0, 2, 1), Pair(4, 1), Pair(8, 1));
    RewrittenSegment(s, SRC, SPORT, Quad(10, 0, 0, 2), Quad(192, 0, 2, 1), Pair(4, 1), Pair(8, 1));
  }
}
