/**
  Encapsulation of an IPv4 packet into IPv6, in one packet or in fragments, with
  the plain and the equal way of cutting.
 */
module Fragmentation {
  import opened NatEntry

  type Bytes = seq<Byte>

  const IP6HDRLEN: nat := 40
  const IP6FLEN: nat := 48
  const IP6IP4: Byte := 4
  const IP6FRAG: Byte := 44
  const TUNMINMTU: nat := 1280

  function High(x: nat): Byte { ((x / 256) % 256) as Byte }

  function Low(x: nat): Byte { (x % 256) as Byte }

  // ---------- The packets of RFC 8200 ----------

  /** The fixed header: version 6, payload length, next header, hop limit 64 */
  function Header(plen: nat, proto: Byte, src: Bytes, dst: Bytes): (h: Bytes)
    requires |src| == 16 && |dst| == 16
    ensures |h| == IP6HDRLEN
  {
    [0x60, 0, 0, 0, High(plen), Low(plen), proto, 64] + src + dst
  }

  /** The fragment header: offset in the upper 13 bits, M flag in the lowest */
  function FragHeader(off: nat, more: bool, id: Bytes): (h: Bytes)
    requires |id| == 4 && off % 8 == 0
    ensures |h| == 8
  {
    [IP6IP4, 0, High(off), if more then ((off % 256) + 1) as Byte else Low(off)] + id
  }

  function Whole(payload: Bytes, src: Bytes, dst: Bytes): Bytes
    requires |src| == 16 && |dst| == 16
  {
    Header(|payload|, IP6IP4, src, dst) + payload
  }

  function FragPacket(off: nat, more: bool, data: Bytes, id: Bytes, src: Bytes, dst: Bytes): Bytes
    requires |src| == 16 && |dst| == 16 && |id| == 4 && off % 8 == 0
  {
    Header(|data| + 8, IP6FRAG, src, dst) + FragHeader(off, more, id) + data
  }

  // ---------- Ways of cutting ----------

  /** Boundaries of a proper cut of len bytes: piece i is [cuts[i], cuts[i + 1]); no piece is empty
      or over room, and all but the last boundary are multiples of 8 */
  predicate Cut(cuts: seq<nat>, len: nat, room: nat) {
    && |cuts| >= 2 && cuts[0] == 0 && cuts[|cuts| - 1] == len
    && (forall i | 0 <= i < |cuts| - 1 :: 0 < PieceSize(cuts, i) <= room)
    && (forall i | 0 <= i < |cuts| - 1 :: cuts[i] % 8 == 0)
  }

  function PieceSize(cuts: seq<nat>, i: nat): int
    requires i + 1 < |cuts|
  {
    cuts[i + 1] as int - cuts[i] as int
  }

  /** Biggest piece first, smallest last */
  predicate NonIncreasing(cuts: seq<nat>) {
    forall i, j | 0 <= i < j < |cuts| - 1 :: PieceSize(cuts, j) <= PieceSize(cuts, i)
  }

  /** The fragment packets of a payload, in the order of their offsets */
  ghost predicate Fragments(sent: seq<Bytes>, payload: Bytes, cuts: seq<nat>, id: Bytes, src: Bytes, dst: Bytes)
    requires |src| == 16 && |dst| == 16 && |id| == 4
  {
    |cuts| == |sent| + 1 && forall i | 0 <= i < |sent| :: Fragment(sent[i], payload, cuts, i, id, src, dst)
  }

  ghost predicate Fragment(packet: Bytes, payload: Bytes, cuts: seq<nat>, i: nat, id: Bytes, src: Bytes, dst: Bytes)
    requires |src| == 16 && |dst| == 16 && |id| == 4 && i + 1 < |cuts|
  {
    && cuts[i] % 8 == 0 && cuts[i] <= cuts[i + 1] <= |payload|
    && packet == FragPacket(cuts[i], cuts[i + 1] < |payload|, payload[cuts[i]..cuts[i + 1]], id, src, dst)
  }

  /** How many pieces of at most fmtu bytes it takes */
  function Fewest(len: nat, fmtu: nat): nat
    requires 0 < fmtu
  {
    len / fmtu + (if len % fmtu != 0 then 1 else 0)
  }

  function Down8(x: nat): (r: nat)
    ensures r % 8 == 0 && r <= x < r + 8
  {
    x - x % 8
  }

  function Up8(x: nat): (r: nat)
    ensures r % 8 == 0 && x <= r < x + 8
  {
    Down8(x + 7)
  }

  /** The first fragment takes flen0, the last what is left, all others fleno */
  ghost predicate EqualCut(len: nat, room: nat, n: nat, flen0: nat, fleno: nat) {
    && n >= 2 && flen0 % 8 == 0 && fleno % 8 == 0 && 0 < fleno <= flen0 <= room < len
    && flen0 + Times(fleno, n - 2) < len <= flen0 + Times(fleno, n - 1)
    && (n >= 3 ==> len - flen0 - Times(fleno, n - 3) > room)
  }

  /** What is left in the last piece as soon as there is room for it, and as much as there is room for before */
  ghost predicate PlainCut(cuts: seq<nat>, len: nat, room: nat) {
    forall i | 0 <= i < |cuts| - 1 :: cuts[i] <= len &&
      PieceSize(cuts, i) == if len - cuts[i] <= room then len - cuts[i] else Down8(room)
  }

  /** A product the proofs about the cut can keep closed */
  function Times(a: int, b: int): int { a * b }

  lemma TimesStep(a: int, b: int)
    ensures Times(a, b) == Times(a, b - 1) + a
  {
  }

  lemma TimesSmall(a: int)
    ensures Times(a, 0) == 0 && Times(a, 1) == a && Times(a, 2) == 2 * a
  {
  }

  lemma TimesSum(a: int, c: int, b: int)
    ensures Times(a + c, b) == Times(a, b) + Times(c, b)
  {
  }

  lemma TimesOf8(b: int)
    ensures Times(8, b) == 8 * b && Times(1232, b) == 1232 * b
  {
  }

  lemma TimesMore(a: int, b: int, n: nat)
    requires a <= b
    ensures Times(a, n) <= Times(b, n)
  {
  }

  lemma TimesFurther(a: nat, i: int, j: int)
    requires i <= j
    ensures Times(a, i) <= Times(a, j)
  {
  }

  lemma TimesLess(a: int, b: int, n: nat)
    requires Times(a, n) < Times(b, n)
    ensures a < b
  {
    if b <= a {
      TimesMore(b, a, n);
    }
  }

  lemma Divided(x: nat, d: nat)
    requires d > 0
    ensures x == Times(d, x / d) + x % d == Times(x / d, d) + x % d && 0 <= x % d < d && x / d >= 0
  {
  }

  /** First and medium size of the equal cut; no subtraction underflows */
  method EqualSizes(len: nat, mtu: nat) returns (flen0: nat, fleno: nat)
    requires TUNMINMTU <= mtu <= 65535 && len <= 65535 && len + IP6HDRLEN > mtu
    ensures EqualCut(len, mtu - IP6FLEN, Fewest(len, Down8(mtu - IP6FLEN)), flen0, fleno)
  {
    hide EqualCut, Down8, Up8, Times, Fewest;
    var fmtu := Down8(mtu - IP6FLEN);
    var n := Pieces(len, fmtu);
    FewestBounds(len, fmtu, n);
    fleno := Medium(len, n);
    ghost var m := fleno;
    MediumBounds(len, fmtu, n, m);
    flen0 := Up8(len - Times(fleno, n - 1));
    if flen0 > fmtu {
      fleno := fleno + 8;
      LargerMedium(len, mtu - IP6FLEN, n, m);
      flen0 := Up8(len - Times(fleno, n - 1));
    } else {
      SmallerMedium(len, mtu - IP6FLEN, n, m);
    }
    if flen0 < fleno {
      flen0 := fleno;
    }
  }

  method Pieces(len: nat, fmtu: nat) returns (n: nat)
    requires fmtu > 0
    ensures n == Fewest(len, fmtu)
  {
    n := len / fmtu;
    if len % fmtu != 0 {
      n := n + 1;
    }
  }

  /** The size of all but the first and the last piece, to begin with */
  function Medium(len: nat, n: nat): nat
    requires n > 0
  {
    Down8(len / n)
  }

  lemma SmallerMedium(len: nat, room: nat, n: nat, m: nat)
    requires 1232 <= room < len && 2 <= n <= 54 && m % 8 == 0
    requires Times(m, n - 1) + m <= len < Times(m, n - 1) + m + 8 * n
    requires 2 * m + 16 > Down8(room) && (n >= 3 ==> 3 * m + 24 > 2 * Down8(room))
    requires Up8(len - Times(m, n - 1)) <= Down8(room)
    ensures m <= Up8(len - Times(m, n - 1)) && EqualCut(len, room, n, Up8(len - Times(m, n - 1)), m)
  {
    hide Times;
    TimesStep(m, n - 1);
    TimesStep(m, n - 2);
  }

  lemma LargerMedium(len: nat, room: nat, n: nat, m: nat)
    requires 1232 <= room < len && 2 <= n <= 54 && m % 8 == 0
    requires Times(m, n - 1) + m <= len < Times(m, n - 1) + m + 8 * n
    requires m <= Down8(room) && (m == Down8(room) ==> len - Times(m, n - 1) <= Down8(room))
    requires 2 * m + 16 > Down8(room) && (n >= 3 ==> 3 * m + 24 > 2 * Down8(room))
    requires Up8(len - Times(m, n - 1)) > Down8(room)
    ensures 0 <= len - Times(m + 8, n - 1) && Up8(len - Times(m + 8, n - 1)) <= m + 8
    ensures EqualCut(len, room, n, m + 8, m + 8)
  {
    hide Times;
    TimesSum(m, 8, n - 1);
    TimesOf8(n - 1);
    TimesStep(m + 8, n - 1);
    TimesStep(m + 8, n - 2);
  }

  lemma FewestBounds(len: nat, fmtu: nat, n: nat)
    requires 1232 <= fmtu < len <= 65535 && n == Fewest(len, fmtu)
    ensures 2 <= n <= 54 && Times(fmtu, n - 1) < len <= Times(fmtu, n)
  {
    hide Times;
    Divided(len, fmtu);
    var q, r := len / fmtu, len % fmtu;
    TimesMore(1232, fmtu, q);
    TimesOf8(q);
    TimesSmall(fmtu);
    TimesStep(fmtu, q);
    TimesStep(fmtu, q + 1);
  }

  /** What is left over the medium pieces, and how large those are */
  lemma MediumBounds(len: nat, fmtu: nat, n: nat, m: nat)
    requires 1232 <= fmtu && fmtu % 8 == 0 && 2 <= n <= 54 && Times(fmtu, n - 1) < len <= Times(fmtu, n)
    requires m == Medium(len, n)
    ensures Times(m, n - 1) + m <= len < Times(m, n - 1) + m + 8 * n && m % 8 == 0
    ensures m <= fmtu && (m == fmtu ==> len - Times(m, n - 1) <= fmtu)
    ensures 2 * m + 16 > fmtu && (n >= 3 ==> 3 * m + 24 > 2 * fmtu)
  {
    hide Times;
    Divided(len, n);
    var q := len / n;
    TimesSum(q, 1, n);
    TimesStep(1, n);
    One(n);
    TimesMore(m, q, n);
    TimesMore(q + 1, m + 8, n);
    TimesSum(m, 8, n);
    TimesOf8(n);
    TimesStep(m, n);
    TimesStep(fmtu, n);
    TimesSum(fmtu, 1, n);
    TimesLess(q, fmtu + 1, n);
    MediumIsLarge(len, fmtu, n, m + 8);
  }

  lemma One(n: int)
    ensures Times(1, n) == n
  {
  }

  lemma MediumIsLarge(len: nat, fmtu: nat, n: nat, k: nat)
    requires n >= 2 && Times(fmtu, n - 1) < len < Times(k, n)
    ensures 2 * k > fmtu && (n >= 3 ==> 3 * k > 2 * fmtu)
  {
    hide Times;
    TimesStep(k, n);
    TimesSmall(k);
    TimesFurther(k, 1, n - 1);
    TimesSum(k, k, n - 1);
    TimesLess(fmtu, k + k, n - 1);
    if n >= 3 {
      TimesFurther(k, 2, n - 1);
      TimesSum(k + k, k, n - 1);
      TimesSum(fmtu, fmtu, n - 1);
      TimesLess(fmtu + fmtu, k + k + k, n - 1);
    }
  }

  // ---------- The encapsulation loop ----------

  /** memcpy */
  method Store(a: array<Byte>, at: nat, s: Bytes)
    requires at + |s| <= a.Length
    modifies a
    ensures forall i | 0 <= i < a.Length :: a[i] == if at <= i < at + |s| then s[i - at] else old(a[i])
  {
    forall i | 0 <= i < |s| {
      a[at + i] := s[i];
    }
  }

  /** The 48 bytes all fragments share, but for the lengths and the offset */
  ghost predicate Prepared(h: Bytes, id: Bytes, src: Bytes, dst: Bytes) {
    && |h| >= IP6FLEN && |src| == 16 && |dst| == 16 && |id| == 4
    && h[0] == 0x60 && h[1] == h[2] == h[3] == 0 && h[6] == IP6FRAG && h[7] == 64
    && (forall i | 8 <= i < 24 :: h[i] == src[i - 8]) && (forall i | 24 <= i < 40 :: h[i] == dst[i - 24])
    && h[40] == IP6IP4 && h[41] == 0 && (forall i | 44 <= i < 48 :: h[i] == id[i - 44])
  }

  lemma FragmentBytes(h: Bytes, off: nat, more: bool, data: Bytes, id: Bytes, src: Bytes, dst: Bytes)
    requires Prepared(h, id, src, dst) && off % 8 == 0 && |h| == IP6FLEN + |data|
    requires h[4] == High(|data| + 8) && h[5] == Low(|data| + 8) && h[42] == High(off)
    requires h[43] as int == Down8(off % 256) + if more then 1 else 0
    requires forall i | 0 <= i < |data| :: h[IP6FLEN + i] == data[i]
    ensures h == FragPacket(off, more, data, id, src, dst)
  {
    var p := FragPacket(off, more, data, id, src, dst);
    assert Down8(off % 256) == off % 256;
    assert p[40..48] == FragHeader(off, more, id);
    assert forall i | 40 <= i < 48 :: p[i] == FragHeader(off, more, id)[i - 40];
    assert forall i | 0 <= i < 8 :: h[i] == p[i];
    assert forall i | 40 <= i < 44 :: h[i] == p[i];
    assert forall i | IP6FLEN <= i < |h| :: h[i] == data[i - IP6FLEN];
  }

  lemma WholeBytes(h: Bytes, data: Bytes, src: Bytes, dst: Bytes)
    requires |src| == 16 && |dst| == 16 && |h| == IP6HDRLEN + |data|
    requires h[0] == 0x60 && h[1] == h[2] == h[3] == 0 && h[4] == High(|data|) && h[5] == Low(|data|) && h[6] == IP6IP4
    requires h[7] == 64
    requires (forall i | 8 <= i < 24 :: h[i] == src[i - 8]) && (forall i | 24 <= i < 40 :: h[i] == dst[i - 24])
    requires forall i | 40 <= i < |h| :: h[i] == data[i - 40]
    ensures h == Whole(data, src, dst)
  {
    assert h[..8] == [0x60, 0, 0, 0, High(|data|), Low(|data|), IP6IP4, 64];
    assert h[8..24] == src && h[24..40] == dst && h[40..] == data;
    assert h == h[..8] + h[8..24] + h[24..40] + h[40..];
  }

  method Prepare(buf6: array<Byte>, id: Bytes, src: Bytes, dst: Bytes)
    requires buf6.Length >= IP6FLEN && |src| == 16 && |dst| == 16 && |id| == 4
    modifies buf6
    ensures Prepared(buf6[..], id, src, dst)
  {
    Store(buf6, 0, seq(IP6FLEN, _ => 0));
    buf6[0] := 0x60;
    buf6[6] := IP6FRAG;
    buf6[7] := 64;
    Store(buf6, 8, src);
    Store(buf6, 24, dst);
    buf6[40] := IP6IP4;
    Store(buf6, 44, id);
  }

  method SendFragment(buf6: array<Byte>, off: nat, more: bool, data: Bytes, ghost id: Bytes, ghost src: Bytes,
      ghost dst: Bytes)
    returns (packet: Bytes)
    requires IP6FLEN + |data| <= buf6.Length && off % 8 == 0 && off <= 65535 && |src| == 16 && |dst| == 16 && |id| == 4
    requires Prepared(buf6[..], id, src, dst)
    modifies buf6
    ensures Prepared(buf6[..], id, src, dst)
    ensures packet == FragPacket(off, more, data, id, src, dst)
  {
    buf6[42] := High(off);
    buf6[43] := Down8(off % 256) as Byte;
    if more {
      buf6[43] := buf6[43] + 1;
    }
    buf6[4] := High(|data| + 8);
    buf6[5] := Low(|data| + 8);
    Store(buf6, IP6FLEN, data);
    packet := buf6[..IP6FLEN + |data|];
    FragmentBytes(packet, off, more, data, id, src, dst);
  }

  method SendWhole(buf6: array<Byte>, data: Bytes, src: Bytes, dst: Bytes) returns (packet: Bytes)
    requires IP6HDRLEN + |data| <= buf6.Length && |src| == 16 && |dst| == 16
    modifies buf6
    ensures packet == Whole(data, src, dst)
  {
    hide Whole;
    Store(buf6, 0, seq(IP6HDRLEN, _ => 0));
    buf6[0] := 0x60;
    buf6[4] := High(|data|);
    buf6[5] := Low(|data|);
    buf6[6] := IP6IP4;
    buf6[7] := 64;
    Store(buf6, 8, src);
    Store(buf6, 24, dst);
    Store(buf6, IP6HDRLEN, data);
    packet := buf6[..IP6HDRLEN + |data|];
    WholeBytes(packet, data, src, dst);
  }

  /** The size of the piece at off: all that is left if there is room for it */
  method PieceAt(off: nat, len: nat, mtu: nat, eqfrag: bool, flen0: nat, fleno: nat) returns (flen: nat)
    requires off < len && mtu >= TUNMINMTU
    ensures len - off <= mtu - IP6FLEN ==> flen == len - off
    ensures len - off > mtu - IP6FLEN ==>
      flen == if !eqfrag then Down8(mtu - IP6FLEN) else if off == 0 then flen0 else fleno
  {
    flen := len - off;
    if flen > mtu - IP6FLEN {
      if eqfrag {
        if off == 0 {
          flen := flen0;
        } else {
          flen := fleno;
        }
      } else {
        flen := mtu - IP6FLEN;
        flen := Down8(flen);
      }
    }
  }

  /** What the loop has cut so far */
  ghost predicate Cutting(cuts: seq<nat>, len: nat, room: nat) {
    && |cuts| >= 1 && cuts[0] == 0 && cuts[|cuts| - 1] <= len
    && (forall i | 0 <= i < |cuts| - 1 :: 0 < PieceSize(cuts, i) <= room)
    && (forall i | 0 <= i < |cuts| :: cuts[i] < len ==> cuts[i] % 8 == 0)
    && (forall i | 0 <= i < |cuts| - 1 :: cuts[i] < len)
  }

  /** Where the equal cut has come to */
  ghost predicate EqualSoFar(cuts: seq<nat>, len: nat, n: nat, flen0: nat, fleno: nat) {
    && 1 <= |cuts| <= n + 1
    && (cuts[|cuts| - 1] == len <==> |cuts| == n + 1)
    && (forall i | 1 <= i < |cuts| && i < n :: cuts[i] == flen0 + Times(fleno, i - 1))
  }

  lemma NextCut(cuts: seq<nat>, len: nat, room: nat, flen: nat)
    requires len > room && Cutting(cuts, len, room)
    requires var off := cuts[|cuts| - 1];
      off < len && 0 < flen <= room && off + flen <= len && (off + flen < len ==> flen % 8 == 0)
    ensures Cutting(cuts + [cuts[|cuts| - 1] + flen], len, room)
  {
    var k, off := |cuts| - 1, cuts[|cuts| - 1];
    var next := cuts + [off + flen];
    assert forall i | 0 <= i < |next| - 1 :: PieceSize(next, i) == if i < k then PieceSize(cuts, i) else flen;
  }

  lemma NextPlainCut(cuts: seq<nat>, len: nat, room: nat, flen: nat)
    requires |cuts| >= 1 && PlainCut(cuts, len, room) && cuts[|cuts| - 1] <= len
    requires flen == if len - cuts[|cuts| - 1] <= room then len - cuts[|cuts| - 1] else Down8(room)
    ensures PlainCut(cuts + [cuts[|cuts| - 1] + flen], len, room)
  {
    hide Down8;
    var k, next := |cuts| - 1, cuts + [cuts[|cuts| - 1] + flen];
    assert forall i | 0 <= i <= k :: next[i] == cuts[i];
    assert forall i | 0 <= i < k :: PieceSize(next, i) == PieceSize(cuts, i);
  }

  lemma NextEqualCut(cuts: seq<nat>, len: nat, room: nat, n: nat, flen0: nat, fleno: nat, flen: nat)
    requires EqualCut(len, room, n, flen0, fleno)
    requires EqualSoFar(cuts, len, n, flen0, fleno) && cuts[0] == 0 && cuts[|cuts| - 1] < len
    requires var off := cuts[|cuts| - 1];
      flen == if len - off <= room then len - off else if off == 0 then flen0 else fleno
    ensures EqualSoFar(cuts + [cuts[|cuts| - 1] + flen], len, n, flen0, fleno)
    ensures 0 < flen <= room && cuts[|cuts| - 1] + flen <= len
    ensures cuts[|cuts| - 1] + flen < len ==> flen % 8 == 0
  {
    hide Times;
    var k := |cuts| - 1;
    TimesSmall(fleno);
    if k > 0 {
      TimesStep(fleno, k);
      TimesFurther(fleno, 0, k - 1);
      MorePieces(len, room, n, flen0, fleno, k);
    }
  }

  /** Which cuts of the equal kind are followed by more than room bytes */
  lemma MorePieces(len: nat, room: nat, n: nat, flen0: nat, fleno: nat, k: nat)
    requires EqualCut(len, room, n, flen0, fleno) && 1 <= k < n
    ensures k == n - 1 ==> len - (flen0 + Times(fleno, k - 1)) <= fleno
    ensures k < n - 1 ==> len - (flen0 + Times(fleno, k - 1)) > room
  {
    hide Times;
    TimesStep(fleno, n - 1);
    if k < n - 1 {
      TimesFurther(fleno, k - 1, n - 3);
    }
  }

  lemma EqualCutDone(cuts: seq<nat>, len: nat, room: nat, n: nat, flen0: nat, fleno: nat)
    requires EqualCut(len, room, n, flen0, fleno) && EqualSoFar(cuts, len, n, flen0, fleno)
    requires cuts[0] == 0 && cuts[|cuts| - 1] == len
    ensures |cuts| == n + 1 && NonIncreasing(cuts)
  {
    hide Times;
    TimesSmall(fleno);
    forall i | 0 <= i < |cuts| - 1
      ensures PieceSize(cuts, i) == if i == 0
        then flen0 else if i < n - 1 then fleno
        else len - flen0 - Times(fleno, n - 2)
    {
      TimesStep(fleno, i);
    }
    MorePieces(len, room, n, flen0, fleno, n - 1);
  }

  lemma CutDone(cuts: seq<nat>, len: nat, room: nat)
    requires len > room && Cutting(cuts, len, room) && cuts[|cuts| - 1] == len
    ensures Cut(cuts, len, room)
  {
  }

  lemma NextFragment(sent: seq<Bytes>, packet: Bytes, payload: Bytes, cuts: seq<nat>, flen: nat, id: Bytes, src: Bytes,
      dst: Bytes)
    requires |src| == 16 && |dst| == 16 && |id| == 4 && |cuts| >= 1
    requires Fragments(sent, payload, cuts, id, src, dst)
    requires var off := cuts[|cuts| - 1];
      && off % 8 == 0 && off + flen <= |payload|
      && packet == FragPacket(off, off + flen < |payload|, payload[off..off + flen], id, src, dst)
    ensures Fragments(sent + [packet], payload, cuts + [cuts[|cuts| - 1] + flen], id, src, dst)
  {
    hide FragPacket;
    var next, all := cuts + [cuts[|cuts| - 1] + flen], sent + [packet];
    forall i | 0 <= i < |all| ensures Fragment(all[i], payload, next, i, id, src, dst) {
      if i < |sent| {
        assert Fragment(sent[i], payload, cuts, i, id, src, dst);
      }
    }
  }

  /** The tunnel's packets for the len bytes of buf4.  They go out whole when they fit into the mtu,
      else in a proper cut, which the equal way makes with the fewest pieces of full size. */
  method Encap(
    buf4: array<Byte>, len: nat, buf6: array<Byte>, mtu: nat, eqfrag: bool, id: Bytes, src: Bytes, dst: Bytes)
    returns (sent: seq<Bytes>, ghost cuts: seq<nat>)
    requires len <= buf4.Length && len <= 65535 && TUNMINMTU <= mtu <= 65535
    requires buf6 != buf4 && buf6.Length >= 65536 && |src| == 16 && |dst| == 16 && |id| == 4
    modifies buf6
    ensures len + IP6HDRLEN <= mtu ==> sent == [Whole(buf4[..len], src, dst)]
    ensures len + IP6HDRLEN > mtu ==>
      && Fragments(sent, buf4[..len], cuts, id, src, dst) && Cut(cuts, len, mtu - IP6FLEN)
      && (eqfrag ==> |sent| == Fewest(len, Down8(mtu - IP6FLEN)) && NonIncreasing(cuts))
      && (!eqfrag ==> PlainCut(cuts, len, mtu - IP6FLEN))
  {
    if len + IP6HDRLEN <= mtu {
      var packet := SendWhole(buf6, buf4[..len], src, dst);
      sent, cuts := [packet], [];
    } else {
      sent, cuts := EncapFragments(buf4[..len], buf6, mtu, eqfrag, id, src, dst);
    }
  }

  method EncapFragments(data: Bytes, buf6: array<Byte>, mtu: nat, eqfrag: bool, id: Bytes, src: Bytes, dst: Bytes)
    returns (sent: seq<Bytes>, ghost cuts: seq<nat>)
    requires TUNMINMTU <= mtu <= 65535 && |data| <= 65535 && |data| + IP6HDRLEN > mtu
    requires buf6.Length >= 65536 && |src| == 16 && |dst| == 16 && |id| == 4
    modifies buf6
    ensures Fragments(sent, data, cuts, id, src, dst) && Cut(cuts, |data|, mtu - IP6FLEN)
    ensures eqfrag ==> |sent| == Fewest(|data|, Down8(mtu - IP6FLEN)) && NonIncreasing(cuts)
    ensures !eqfrag ==> PlainCut(cuts, |data|, mtu - IP6FLEN)
  {
    hide Fewest, Cutting, EqualSoFar, Cut, NonIncreasing, EqualCut, Prepared, Fragments, Down8, Fragment, PlainCut;
    var len := |data|;
    Prepare(buf6, id, src, dst);
    var flen0, fleno := 0, 0;
    if eqfrag {
      flen0, fleno := EqualSizes(len, mtu);
    }
    ghost var n := Fewest(len, Down8(mtu - IP6FLEN));
    ghost var room := mtu - IP6FLEN;
    var off := 0;
    sent, cuts := [], [0];
    FirstCut(data, room, eqfrag, n, flen0, fleno, id, src, dst);
    while off < len
      invariant |cuts| == |sent| + 1 && off == cuts[|cuts| - 1] <= len
      invariant Cutting(cuts, len, room)
      invariant if eqfrag then EqualSoFar(cuts, len, n, flen0, fleno) else PlainCut(cuts, len, room)
      invariant Fragments(sent, data, cuts, id, src, dst)
      invariant Prepared(buf6[..], id, src, dst)
    {
      CutFacts(cuts, len, room);
      var flen := PieceAt(off, len, mtu, eqfrag, flen0, fleno);
      if eqfrag {
        NextEqualCut(cuts, len, room, n, flen0, fleno, flen);
      } else {
        NextPlainCut(cuts, len, room, flen);
      }
      NextCut(cuts, len, room, flen);
      var packet := SendFragment(buf6, off, off + flen < len, data[off..off + flen], id, src, dst);
      NextFragment(sent, packet, data, cuts, flen, id, src, dst);
      sent := sent + [packet];
      off := off + flen;
      cuts := cuts + [off];
    }
    CutDone(cuts, len, room);
    if eqfrag {
      CutFacts(cuts, len, room);
      EqualCutDone(cuts, len, room, n, flen0, fleno);
    }
  }

  lemma FirstCut(
    data: Bytes, room: nat, eqfrag: bool, n: nat, flen0: nat, fleno: nat, id: Bytes, src: Bytes, dst: Bytes)
    requires |data| > 0 && (eqfrag ==> EqualCut(|data|, room, n, flen0, fleno))
    requires |src| == 16 && |dst| == 16 && |id| == 4
    ensures Cutting([0], |data|, room) && (eqfrag ==> EqualSoFar([0], |data|, n, flen0, fleno))
    ensures PlainCut([0], |data|, room)
    ensures Fragments([], data, [0], id, src, dst)
  {
  }

  lemma CutFacts(cuts: seq<nat>, len: nat, room: nat)
    requires Cutting(cuts, len, room)
    ensures |cuts| >= 1 && cuts[0] == 0 && cuts[|cuts| - 1] <= len
    ensures (cuts[|cuts| - 1] < len ==> cuts[|cuts| - 1] % 8 == 0)
  {
  }

  /** No cut into pieces of at most fmtu bytes has fewer pieces */
  lemma FewestIsLeast(cuts: seq<nat>, len: nat, fmtu: nat)
    requires 0 < fmtu && Cut(cuts, len, fmtu)
    ensures |cuts| - 1 >= Fewest(len, fmtu)
  {
    hide Times;
    var k, q := |cuts| - 1, len / fmtu;
    Reach(cuts, len, fmtu, k);
    Divided(len, fmtu);
    if k < Fewest(len, fmtu) {
      TimesStep(fmtu, q);
      TimesFurther(fmtu, k, if len % fmtu == 0 then q - 1 else q);
    }
  }

  lemma {:induction false} Reach(cuts: seq<nat>, len: nat, fmtu: nat, i: nat)
    requires Cut(cuts, len, fmtu) && i < |cuts|
    ensures cuts[i] <= Times(fmtu, i)
  {
    hide Times;
    TimesSmall(fmtu);
    if i > 0 {
      Reach(cuts, len, fmtu, i - 1);
      assert PieceSize(cuts, i - 1) <= fmtu;
      TimesStep(fmtu, i);
    }
  }

  // ---------- The plain cut against all others, and against the equal one ----------

  /** How many pieces the plain cut has, and where the last one begins */
  lemma PlainPieces(cuts: seq<nat>, len: nat, room: nat)
    requires Cut(cuts, len, room) && PlainCut(cuts, len, room) && room >= 8
    ensures var f, k := Down8(room), |cuts| - 1;
      && cuts[k - 1] == Times(f, k - 1) && 0 < len - Times(f, k - 1) <= room
      && (k >= 2 ==> len - Times(f, k - 2) > room)
  {
    hide Times, Down8;
    var f, k := Down8(room), |cuts| - 1;
    PlainReach(cuts, len, room, k - 1);
    assert 0 < PieceSize(cuts, k - 1) <= room;
    if k >= 2 {
      PlainReach(cuts, len, room, k - 2);
      assert PieceSize(cuts, k - 2) < len - cuts[k - 2];
    }
  }

  lemma {:induction false} PlainReach(cuts: seq<nat>, len: nat, room: nat, i: nat)
    requires Cut(cuts, len, room) && PlainCut(cuts, len, room) && i < |cuts| - 1
    ensures cuts[i] == Times(Down8(room), i) < len
  {
    hide Times, Down8;
    TimesSmall(Down8(room));
    assert PieceSize(cuts, i) > 0;
    if i > 0 {
      PlainReach(cuts, len, room, i - 1);
      assert PieceSize(cuts, i - 1) < len - cuts[i - 1];
      TimesStep(Down8(room), i);
    }
  }

  /** No proper cut into pieces there is room for has fewer pieces than the plain one */
  lemma PlainIsLeast(plain: seq<nat>, cuts: seq<nat>, len: nat, room: nat)
    requires Cut(plain, len, room) && PlainCut(plain, len, room) && room >= 8 && Cut(cuts, len, room)
    ensures |plain| <= |cuts|
  {
    hide Times;
    var f, k, j := Down8(room), |plain| - 1, |cuts| - 1;
    PlainPieces(plain, len, room);
    ReachBelow(cuts, len, room, j - 1);
    assert PieceSize(cuts, j - 1) <= room;
    if j < k {
      TimesFurther(f, j - 1, k - 2);
    }
  }

  lemma {:induction false} ReachBelow(cuts: seq<nat>, len: nat, room: nat, i: nat)
    requires Cut(cuts, len, room) && i < |cuts| - 1
    ensures cuts[i] <= Times(Down8(room), i)
  {
    hide Times;
    TimesSmall(Down8(room));
    if i > 0 {
      ReachBelow(cuts, len, room, i - 1);
      assert 0 < PieceSize(cuts, i - 1) <= room && cuts[i] % 8 == 0 && cuts[i - 1] % 8 == 0;
      TimesStep(Down8(room), i);
    }
  }

  /** The equal cut takes one piece more than the plain one exactly when what is left over full pieces fits beside
      the last of them, but only in bytes that are no multiple of 8; otherwise it takes as many */
  lemma EqualAgainstPlain(plain: seq<nat>, len: nat, room: nat)
    requires Cut(plain, len, room) && PlainCut(plain, len, room) && len > room >= 8
    ensures var f := Down8(room);
      Fewest(len, f) == |plain| - 1 + if 0 < len % f <= room - f then 1 else 0
  {
    hide Times, PlainCut;
    PlainPieces(plain, len, room);
    Divided(len, Down8(room));
    PieceCount(len, room, Down8(room), |plain| - 1, len / Down8(room), len % Down8(room));
  }

  lemma PieceCount(len: nat, room: nat, f: nat, k: nat, q: nat, r: nat)
    requires 0 < f <= room < f + 8 && f >= 8 && len > room && k >= 1 && 0 <= r < f && len == Times(f, q) + r
    requires 0 < len - Times(f, k - 1) <= room && (k >= 2 ==> len - Times(f, k - 2) > room)
    ensures k == if r <= room - f then q else q + 1
  {
    hide Times;
    var d := room - f;
    TimesStep(f, k);
    TimesStep(f, k - 1);
    TimesStep(f, k + 1);
    TimesStep(f, q + 1);
    TimesSmall(f);
    if r <= d {
      if k > q {
        TimesFurther(f, q, k - 1);
      } else if k < q {
        TimesFurther(f, k + 1, q);
      }
    } else {
      if k <= q {
        TimesFurther(f, k, q);
      } else if k > q + 1 {
        TimesFurther(f, q + 1, k - 1);
      }
    }
  }

  /** An mtu and a packet for which it does */
  lemma EqualTakesMore()
    ensures var cuts, room := [0, 1232, 2465], 1281 - IP6FLEN;
      && Cut(cuts, 2465, room) && PlainCut(cuts, 2465, room) && |cuts| - 1 == 2
      && Fewest(2465, Down8(room)) == 3
  {
    var cuts: seq<nat> := [0, 1232, 2465];
    assert PieceSize(cuts, 0) == 1232 && PieceSize(cuts, 1) == 1233;
    EqualAgainstPlain(cuts, 2465, 1233);
  }

  /** Every packet fits into the mtu it was cut for, and none carries a length its fields cannot hold */
  lemma PacketsFit(sent: seq<Bytes>, data: Bytes, cuts: seq<nat>, mtu: nat, id: Bytes, src: Bytes, dst: Bytes, i: nat)
    requires TUNMINMTU <= mtu <= 65535 && |data| <= 65535 && |src| == 16 && |dst| == 16 && |id| == 4
    requires Fragments(sent, data, cuts, id, src, dst) && Cut(cuts, |data|, mtu - IP6FLEN) && i < |sent|
    ensures |sent[i]| <= mtu
    ensures sent[i][4] as int * 256 + sent[i][5] as int == |sent[i]| - IP6HDRLEN
  {
    assert Fragment(sent[i], data, cuts, i, id, src, dst);
    assert PieceSize(cuts, i) <= mtu - IP6FLEN;
  }
}
