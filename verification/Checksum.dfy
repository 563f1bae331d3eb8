/**
  The Internet checksum: the loop that computes it, the incremental fix after an
  address or a port was rewritten, and when the fix equals recomputation.
 */
module Checksum {
  import opened NatEntry

  /** The source's int */
  newtype Int32 = x: int | -0x8000_0000 <= x < 0x8000_0000

  type Bytes = seq<Byte>

  function Word(hi: Byte, lo: Byte): int { hi as int * 256 + lo as int }

  /** The sum of the 16-bit words, an odd last byte standing for the high half */
  function WordSum(s: Bytes): (r: int)
    ensures 0 <= r <= (|s| + 1) / 2 * 0xffff
  {
    if |s| == 0 then 0
    else if |s| == 1 then Word(s[0], 0)
    else Word(s[0], s[1]) + WordSum(s[2..])
  }

  /** End-around carry: the one's complement sum, zero only for zero */
  function Ones(x: int): (r: int)
    requires 0 <= x
    ensures 0 <= r <= 0xffff && (r == 0 <==> x == 0) && (x - r) % 0xffff == 0
  {
    if x == 0 then 0 else (x - 1) % 0xffff + 1
  }

  /** The checksum of a block, as RFC 1071 defines it */
  function Cksum(s: Bytes): (r: int)
    ensures 0 <= r <= 0xffff
  {
    0xffff - Ones(WordSum(s))
  }

  lemma OnesUnique(x: int, r: int)
    requires 0 <= x && 0 <= r <= 0xffff && (r == 0 <==> x == 0) && (x - r) % 0xffff == 0
    ensures r == Ones(x)
  {
  }

  /** One fold is enough for the sum of two words */
  lemma OnesOfTwo(x: int)
    requires 0 <= x <= 0x1_fffe
    ensures x / 0x1_0000 + x % 0x1_0000 == Ones(x)
  {
    OnesUnique(x, x / 0x1_0000 + x % 0x1_0000);
  }

  lemma OnesCongruent(x: int, y: int)
    requires 0 < x && 0 < y && (x - y) % 0xffff == 0
    ensures Ones(x) == Ones(y)
  {
  }

  /** The two folds the source ends every sum with */
  method Fold(sum: Int32) returns (r: Int32)
    requires 0 <= sum
    ensures r as int == Ones(sum as int)
  {
    var s := (sum / 0x1_0000) % 0x1_0000 + sum % 0x1_0000;
    s := s + s / 0x1_0000;
    r := s % 0x1_0000;
    OnesUnique(sum as int, r as int);
  }

  lemma {:induction false} WordSumSplit(s: Bytes, i: nat)
    requires i <= |s| && i % 2 == 0
    ensures WordSum(s) == WordSum(s[..i]) + WordSum(s[i..])
  {
    if i == 0 {
      assert s[0..] == s;
    } else {
      WordSumSplit(s[2..], i - 2);
      assert s[..i][2..] == s[2..][..i - 2] && s[i..] == s[2..][i - 2..];
    }
  }

  lemma TakeWord(s: Bytes)
    requires |s| > 1
    ensures WordSum(s) == s[0] as int * 256 + s[1] as int + WordSum(s[2..])
  {
  }

  lemma NextWord(s: Bytes, i: nat)
    requires i + 1 < |s|
    ensures WordSum(s[i..]) == s[i] as int * 256 + s[i + 1] as int + WordSum(s[i + 2..])
  {
    TakeWord(s[i..]);
    assert s[i..][2..] == s[i + 2..];
  }

  lemma LastByte(s: Bytes)
    requires s != []
    ensures WordSum(s[|s| - 1..]) == s[|s| - 1] as int * 256
  {
  }

  lemma NoBytes(s: Bytes)
    ensures WordSum(s[|s|..]) == 0
  {
  }

  /** in_cksum */
  method InCksum(p: array<Byte>, len: nat) returns (r: Int32)
    requires len <= p.Length && len <= 65535
    ensures r as int == Cksum(p[..len])
  {
    hide Ones, WordSum;
    ghost var s := p[..len];
    assert s[0..] == s;
    var sum: Int32 := 0;
    var l, i := len, 0;
    while l > 1
      invariant i % 2 == 0 && i + l == len
      invariant sum as int + WordSum(s[i..]) == WordSum(s)
      invariant 0 <= sum as int <= i / 2 * 0xffff
    {
      NextWord(s, i);
      sum := sum + p[i] as Int32 * 256;
      sum := sum + p[i + 1] as Int32;
      i := i + 2;
      l := l - 2;
    }
    NoBytes(s);
    if l == 1 {
      LastByte(s);
      sum := sum + p[i] as Int32 * 256;
    }
    sum := Fold(sum);
    r := 0xffff - sum;
  }

  // ---------- The incremental fix ----------

  datatype Rewrite<T> = Keep | Change(was: T, now: T)

  function QuadSum(q: Quad): int { Word(q.b0, q.b1) + Word(q.b2, q.b3) }

  predicate Effective<T(==)>(w: Rewrite<T>) { w.Change? && w.was != w.now }

  /** What the source adds to the complemented checksum for a rewritten address */
  function AddrTerm(w: Rewrite<Quad>): int {
    if Effective(w) then 0xffff - Ones(QuadSum(w.was)) + QuadSum(w.now) else 0
  }

  function PortTerm(w: Rewrite<Pair>): int {
    if Effective(w) then 0xffff - w.was.Value() + w.now.Value() else 0
  }

  /** The checksum fix_cksum leaves behind: equation 3 of RFC 1624 */
  function Fixed(h: int, addr: Rewrite<Quad>, port: Rewrite<Pair>): (r: int)
    requires 0 <= h <= 0xffff
    ensures 0 <= r <= 0xffff
  {
    0xffff - Ones(0xffff - h + AddrTerm(addr) + PortTerm(port))
  }

  /** fix_cksum, on the two bytes at psum */
  method FixCksum(buf: array<Byte>, psum: nat, addr: Rewrite<Quad>, port: Rewrite<Pair>)
    requires psum + 1 < buf.Length
    modifies buf
    ensures buf[..] == PutWord(old(buf[..]), psum, buf[psum], buf[psum + 1])
    ensures Word(buf[psum], buf[psum + 1]) == Fixed(Word(old(buf[psum]), old(buf[psum + 1])), addr, port)
  {
    hide Ones, AddrTerm, PortTerm;
    ghost var h := Word(buf[psum], buf[psum + 1]);
    var sum := buf[psum] as Int32 * 256 + buf[psum + 1] as Int32;
    sum := 0xffff - sum;
    sum := AddTerms(sum, addr, port);
    sum := Fold(sum);
    sum := 0xffff - sum;
    assert sum as int == Fixed(h, addr, port);
    PutBytes(sum as int);
    buf[psum] := (sum / 256) as Byte;
    buf[psum + 1] := (sum % 256) as Byte;
  }

  lemma PutBytes(x: int)
    requires 0 <= x <= 0xffff
    ensures x / 256 <= 255 && Word((x / 256) as Byte, (x % 256) as Byte) == x
  {
  }

  /** The two rewrites, each if it changes anything */
  method AddTerms(sum: Int32, addr: Rewrite<Quad>, port: Rewrite<Pair>) returns (r: Int32)
    requires 0 <= sum <= 0xffff
    ensures r as int == sum as int + AddrTerm(addr) + PortTerm(port) && 0 <= r
  {
    hide Ones;
    r := sum;
    if addr.Change? && addr.was != addr.now {
      var m := AddrDelta(addr.was, addr.now);
      r := r + m;
    }
    if port.Change? && port.was != port.now {
      var m := port.was.hi as Int32 * 256 + port.was.lo as Int32;
      r := r + (0xffff - m);
      m := port.now.hi as Int32 * 256 + port.now.lo as Int32;
      r := r + m;
    }
  }

  /** What a rewritten address adds to the sum */
  method AddrDelta(was: Quad, now: Quad) returns (r: Int32)
    ensures r as int == 0xffff - Ones(QuadSum(was)) + QuadSum(now) && 0 <= r as int <= 0x3_0000
  {
    var m := was.b0 as Int32 * 256 + was.b1 as Int32;
    m := m + was.b2 as Int32 * 256 + was.b3 as Int32;
    OnesOfTwo(m as int);
    m := m / 0x1_0000 + m % 0x1_0000;
    hide Ones;
    r := 0xffff - m;
    m := now.b0 as Int32 * 256 + now.b1 as Int32;
    m := m + now.b2 as Int32 * 256 + now.b3 as Int32;
    r := r + m;
  }

  // ---------- The fix against recomputation ----------

  function PutWord(s: Bytes, i: nat, hi: Byte, lo: Byte): (r: Bytes)
    requires i + 1 < |s|
    ensures |r| == |s|
  {
    s[i := hi][i + 1 := lo]
  }

  function PutPort(s: Bytes, i: nat, w: Rewrite<Pair>): (r: Bytes)
    requires i + 1 < |s|
    ensures |r| == |s|
  {
    if w.Change? then PutWord(s, i, w.now.hi, w.now.lo) else s
  }

  function PutAddr(s: Bytes, i: nat, w: Rewrite<Quad>): (r: Bytes)
    requires i + 3 < |s|
    ensures |r| == |s|
  {
    if w.Change? then PutWord(PutWord(s, i, w.now.b0, w.now.b1), i + 2, w.now.b2, w.now.b3) else s
  }

  predicate HoldsPort(s: Bytes, i: nat, w: Rewrite<Pair>) {
    i % 2 == 0 && i + 1 < |s| && (w.Change? ==> s[i] == w.was.hi && s[i + 1] == w.was.lo)
  }

  predicate HoldsAddr(s: Bytes, i: nat, w: Rewrite<Quad>) {
    && i % 2 == 0 && i + 3 < |s|
    && (w.Change? ==> s[i] == w.was.b0 && s[i + 1] == w.was.b1 && s[i + 2] == w.was.b2 && s[i + 3] == w.was.b3)
  }

  lemma {:induction false} PutWordSum(s: Bytes, i: nat, hi: Byte, lo: Byte)
    requires i % 2 == 0 && i + 1 < |s|
    ensures WordSum(PutWord(s, i, hi, lo)) == WordSum(s) - Word(s[i], s[i + 1]) + Word(hi, lo)
  {
    if i == 0 {
      assert PutWord(s, i, hi, lo)[2..] == s[2..];
    } else {
      PutWordSum(s[2..], i - 2, hi, lo);
      assert PutWord(s, i, hi, lo)[2..] == PutWord(s[2..], i - 2, hi, lo);
    }
  }

  /** The words of the block after both rewrites; fields do not overlap */
  lemma RewrittenSum(s: Bytes, a: nat, addr: Rewrite<Quad>, p: nat, port: Rewrite<Pair>)
    requires HoldsAddr(s, a, addr) && HoldsPort(s, p, port) && (p + 2 <= a || a + 4 <= p)
    ensures WordSum(PutPort(PutAddr(s, a, addr), p, port)) == WordSum(s)
      - (if addr.Change? then QuadSum(addr.was) - QuadSum(addr.now) else 0)
      - (if port.Change? then port.was.Value() - port.now.Value() else 0)
  {
    PutAddrSum(s, a, addr);
    var s' := PutAddr(s, a, addr);
    assert port.Change? ==> s'[p] == s[p] && s'[p + 1] == s[p + 1];
    if port.Change? { PutWordSum(s', p, port.now.hi, port.now.lo); }
  }

  lemma PutAddrSum(s: Bytes, a: nat, addr: Rewrite<Quad>)
    requires HoldsAddr(s, a, addr)
    ensures WordSum(PutAddr(s, a, addr)) ==
      WordSum(s) - (if addr.Change? then QuadSum(addr.was) - QuadSum(addr.now) else 0)
  {
    if addr.Change? {
      PutWordSum(s, a, addr.now.b0, addr.now.b1);
      PutWordSum(PutWord(s, a, addr.now.b0, addr.now.b1), a + 2, addr.now.b2, addr.now.b3);
    }
  }

  /**
    s is a block with its checksum field zeroed, h the checksum stored for it.
    After any rewrite of an address and a port the fix equals recomputation if and
    only if the rewritten block is not all zeros, or nothing was rewritten.
   */
  lemma FixIsRecomputation(s: Bytes, h: int, a: nat, addr: Rewrite<Quad>, p: nat, port: Rewrite<Pair>)
    requires HoldsAddr(s, a, addr) && HoldsPort(s, p, port) && (p + 2 <= a || a + 4 <= p)
    requires h == Cksum(s)
    ensures var s' := PutPort(PutAddr(s, a, addr), p, port);
      Fixed(h, addr, port) == Cksum(s') <==>
      (exists i | 0 <= i < |s'| :: s'[i] != 0) || (!Effective(addr) && !Effective(port))
  {
    hide Ones, AddrTerm, PortTerm, WordSum, PutAddr, PutPort;
    var s' := PutPort(PutAddr(s, a, addr), p, port);
    var w, w' := WordSum(s), WordSum(s');
    RewrittenSum(s, a, addr, p, port);
    HoldsSum(s, a, addr, p, port);
    FixTotal(w, w', addr, port);
    ZeroSum(s');
    SameOnes(Ones(w) + AddrTerm(addr) + PortTerm(port), w', !Effective(addr) && !Effective(port));
  }

  lemma SameOnes(total: int, w: int, kept: bool)
    requires 0 <= total && 0 <= w && (total - w) % 0xffff == 0 && (total == 0 ==> kept && w == 0)
    requires kept ==> total == Ones(w)
    ensures Ones(total) == Ones(w) <==> w > 0 || kept
  {
    if kept {
      OnesSmall(total);
    } else if w > 0 {
      OnesCongruent(total, w);
    }
  }

  /**
    With any checksum h stored for it, a receiver accepts the block after the fix just when it would have accepted it
    before: the fix neither breaks a checksum nor hides that one was wrong.  Then the fix stores zero just when
    recomputation would.
   */
  lemma FixAccepted(s: Bytes, h: int, a: nat, addr: Rewrite<Quad>, p: nat, port: Rewrite<Pair>)
    requires HoldsAddr(s, a, addr) && HoldsPort(s, p, port) && (p + 2 <= a || a + 4 <= p) && 0 <= h <= 0xffff
    requires var s' := PutPort(PutAddr(s, a, addr), p, port); WordSum(s) > 0 && WordSum(s') > 0
    ensures var s' := PutPort(PutAddr(s, a, addr), p, port);
      && (Ones(WordSum(s) + h) == 0xffff <==> Ones(WordSum(s') + Fixed(h, addr, port)) == 0xffff)
      && (Ones(WordSum(s) + h) == 0xffff && h != 0xffff ==>
            (Fixed(h, addr, port) == 0 <==> Cksum(s') == 0))
  {
    hide AddrTerm, PortTerm, WordSum, PutAddr, PutPort, Ones;
    var s' := PutPort(PutAddr(s, a, addr), p, port);
    var terms := AddrTerm(addr) + PortTerm(port);
    assert terms >= 0 && (Ones(WordSum(s)) + terms - WordSum(s')) % 0xffff == 0 by {
      RewrittenSum(s, a, addr, p, port);
      HoldsSum(s, a, addr, p, port);
      FixTotal(WordSum(s), WordSum(s'), addr, port);
      AddrChange(addr);
      PortChange(port);
    }
    AcceptedTotal(WordSum(s), WordSum(s'), h, terms);
    assert Fixed(h, addr, port) == 0xffff - Ones(0xffff - h + terms);
  }

  lemma AcceptedTotal(w: int, w': int, h: int, terms: int)
    requires w > 0 && w' > 0 && 0 <= h <= 0xffff && 0 <= terms && (Ones(w) + terms - w') % 0xffff == 0
    ensures var h' := 0xffff - Ones(0xffff - h + terms);
      && (Ones(w + h) == 0xffff <==> Ones(w' + h') == 0xffff)
      && (Ones(w + h) == 0xffff && h != 0xffff ==> (h' == 0 <==> Ones(w') == 0xffff))
  {
    hide Ones;
    var t := 0xffff - h + terms;
    var h' := 0xffff - Ones(t);
    Congruent(w - Ones(w), 0, t - Ones(t));
    Congruent(Ones(w) + terms - w', t - Ones(t), -(w - Ones(w)));
    assert (w' + h') - (w + h) == (t - Ones(t)) - (w - Ones(w)) - (Ones(w) + terms - w');
    SameFull(w + h, w' + h');
    if Ones(w + h) == 0xffff && h != 0xffff {
      OnesFull(w + h);
      Congruent(w + h - 0xffff, t - Ones(t), 0);
      Congruent(-(w - Ones(w)), Ones(w) + terms - w', w + h - 0xffff);
      assert t - w' == -(w + h - 0xffff) + (w - Ones(w)) + (Ones(w) + terms - w');
      SameFull(t, w');
    }
  }

  lemma OnesFull(x: int)
    requires 0 <= x
    ensures Ones(x) == 0xffff <==> x > 0 && x % 0xffff == 0
  {
  }

  lemma SameFull(x: int, y: int)
    requires x > 0 && y > 0 && (y - x) % 0xffff == 0
    ensures Ones(x) == 0xffff <==> Ones(y) == 0xffff
  {
    OnesFull(x);
    OnesFull(y);
  }

  /** What is in the block is part of its sum */
  lemma HoldsSum(s: Bytes, a: nat, addr: Rewrite<Quad>, p: nat, port: Rewrite<Pair>)
    requires HoldsAddr(s, a, addr) && HoldsPort(s, p, port) && (p + 2 <= a || a + 4 <= p)
    ensures (addr.Change? ==> QuadSum(addr.was) <= WordSum(s)) && (port.Change? ==> port.was.Value() <= WordSum(s))
  {
    if addr.Change? {
      PutWordSum(s, a, 0, 0);
      PutWordSum(PutWord(s, a, 0, 0), a + 2, 0, 0);
    }
    if port.Change? { PutWordSum(s, p, 0, 0); }
  }

  lemma FixTotal(w: int, w': int, addr: Rewrite<Quad>, port: Rewrite<Pair>)
    requires 0 <= w && 0 <= w'
    requires w' == w
      - (if addr.Change? then QuadSum(addr.was) - QuadSum(addr.now) else 0)
      - (if port.Change? then port.was.Value() - port.now.Value() else 0)
    requires (addr.Change? ==> QuadSum(addr.was) <= w) && (port.Change? ==> port.was.Value() <= w)
    ensures var total := Ones(w) + AddrTerm(addr) + PortTerm(port);
      && (total - w') % 0xffff == 0
      && (total == 0 ==> !Effective(addr) && !Effective(port) && w' == 0) && 0 <= total
      && (!Effective(addr) && !Effective(port) ==> total == Ones(w'))
  {
    hide Ones, AddrTerm, PortTerm, QuadSum;
    AddrChange(addr);
    PortChange(port);
    var p := if port.Change? then port.was.Value() - port.now.Value() else 0;
    Congruent(w - Ones(w), AddrTerm(addr) + Delta(addr), PortTerm(port) + p);
  }

  function Delta(addr: Rewrite<Quad>): int {
    if addr.Change? then QuadSum(addr.was) - QuadSum(addr.now) else 0
  }

  /** The term of a rewrite makes up for it */
  lemma AddrChange(addr: Rewrite<Quad>)
    ensures (AddrTerm(addr) + Delta(addr)) % 0xffff == 0 && 0 <= AddrTerm(addr)
    ensures (!Effective(addr) ==> AddrTerm(addr) == Delta(addr) == 0)
    ensures Effective(addr) && AddrTerm(addr) == 0 ==> QuadSum(addr.was) > 0
    ensures Effective(addr) ==> AddrTerm(addr) >= QuadSum(addr.now)
  {
    hide QuadSum;
    if Effective(addr) {
      assert QuadSum(addr.was) >= 0 && QuadSum(addr.now) >= 0 by {
        QuadSumNat(addr.was);
        QuadSumNat(addr.now);
      }
    }
  }

  lemma QuadSumNat(q: Quad)
    ensures QuadSum(q) >= 0
  {
  }

  lemma PortChange(port: Rewrite<Pair>)
    ensures var p := if port.Change? then port.was.Value() - port.now.Value() else 0;
      (PortTerm(port) + p) % 0xffff == 0 && 0 <= PortTerm(port) && (!Effective(port) ==> PortTerm(port) == p == 0)
    ensures Effective(port) && PortTerm(port) == 0 ==> port.was.Value() > 0
  {
  }

  lemma {:induction false} ZeroSum(s: Bytes)
    ensures WordSum(s) == 0 <==> forall i | 0 <= i < |s| :: s[i] == 0
  {
    if |s| > 1 {
      ZeroSum(s[2..]);
      assert forall i | 2 <= i < |s| :: s[i] == s[2..][i - 2];
    }
  }

  /**
    Translating back undoes the fix, but for a checksum of 0xffff that a rewrite
    touched: one's complement has two zeros and the fix yields only one of them.
   */
  lemma FixBack(h: int, addr: Rewrite<Quad>, port: Rewrite<Pair>)
    requires 0 <= h <= 0xffff
    ensures var back := Fixed(Fixed(h, addr, port), Reverse(addr), Reverse(port));
      back == h <==> h != 0xffff || (!Effective(addr) && !Effective(port))
  {
    hide Ones, AddrTerm, PortTerm;
    AddrUndone(addr);
    PortUndone(port);
    var d := AddrTerm(addr) + AddrTerm(Reverse(addr)) + PortTerm(port) + PortTerm(Reverse(port));
    var t := 0xffff - h + AddrTerm(addr) + PortTerm(port);
    var u := Ones(t) + AddrTerm(Reverse(addr)) + PortTerm(Reverse(port));
    assert u == 0xffff - h + d - (t - Ones(t));
    OnesSmall(0xffff - h);
    if !Effective(addr) && !Effective(port) {
      OnesSmall(Ones(t));
    } else if h != 0xffff {
      Congruent(t - Ones(t), AddrTerm(addr) + AddrTerm(Reverse(addr)), PortTerm(port) + PortTerm(Reverse(port)));
      OnesCongruent(u, 0xffff - h);
    }
  }

  lemma OnesSmall(x: int)
    requires 0 <= x <= 0xffff
    ensures Ones(x) == x
  {
  }

  lemma AddrUndone(w: Rewrite<Quad>)
    ensures (AddrTerm(w) + AddrTerm(Reverse(w))) % 0xffff == 0 && 0 <= AddrTerm(w) && 0 <= AddrTerm(Reverse(w))
    ensures !Effective(w) ==> AddrTerm(w) == AddrTerm(Reverse(w)) == 0
    ensures Effective(w) ==> 0 < AddrTerm(w) + AddrTerm(Reverse(w))
  {
    hide Ones, QuadSum, AddrTerm;
    AddrChange(w);
    AddrChange(Reverse(w));
    Congruent(0, AddrTerm(w) + Delta(w), AddrTerm(Reverse(w)) + Delta(Reverse(w)));
  }

  lemma PortUndone(w: Rewrite<Pair>)
    ensures (PortTerm(w) + PortTerm(Reverse(w))) % 0xffff == 0 && 0 <= PortTerm(w) && 0 <= PortTerm(Reverse(w))
    ensures !Effective(w) ==> PortTerm(w) == PortTerm(Reverse(w)) == 0
    ensures Effective(w) ==> 0 < PortTerm(w) + PortTerm(Reverse(w))
  {
  }

  lemma Congruent(a: int, b: int, c: int)
    requires a % 0xffff == 0 && b % 0xffff == 0 && c % 0xffff == 0
    ensures (b + c - a) % 0xffff == 0
  {
  }

  function Reverse<T>(w: Rewrite<T>): Rewrite<T> {
    if w.Change? then Change(w.now, w.was) else Keep
  }
}
