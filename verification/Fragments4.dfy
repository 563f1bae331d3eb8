/**
  The fragments of an IPv4 packet as section 3.2 of RFC 791 makes them, and what the
  program makes of them again, byte for byte.
 */
module Fragments4 {
  import opened NatEntry
  import opened Checksum
  import opened Options
  import opened Reassembly
  import opened Defrag
  import F = Fragmentation

  /** A header without options, of a packet that is not a fragment */
  predicate Plain(header: Bytes) { |header| == 20 && header[6] % 64 == 0 && header[7] == 0 }

  /** What all fragments of a packet and the packet have in common */
  predicate SameHeader(p: Bytes, header: Bytes) {
    && |p| >= 20 && |header| == 20
    && p[..2] == header[..2] && p[4..6] == header[4..6] && p[8..10] == header[8..10] && p[12..20] == header[12..20]
  }

  /** Piece i: the header with the length of the piece, where it belongs, and whether more follow */
  ghost predicate Fragment(p: Bytes, header: Bytes, payload: Bytes, cuts: seq<nat>, i: nat) {
    && Plain(header) && SameHeader(p, header) && i + 1 < |cuts| && cuts[i] <= cuts[i + 1] <= |payload|
    && Word(p[2], p[3]) == |p| && p[20..] == payload[cuts[i]..cuts[i + 1]]
    && p[6] as int == header[6] as int + (if cuts[i + 1] < |payload| then 0x20 else 0) + cuts[i] / 8 / 256
    && p[7] as int == cuts[i] / 8 % 256
  }

  ghost predicate Fragments(sent: seq<Bytes>, header: Bytes, payload: Bytes, cuts: seq<nat>) {
    && Plain(header) && |payload| <= IPMAXLEN - 20 && F.Cut(cuts, |payload|, IPMAXLEN) && |cuts| == |sent| + 1
    && forall i | 0 <= i < |sent| :: Fragment(sent[i], header, payload, cuts, i)
  }

  /** The packet again, no longer to be kept from being cut, and with its own length and checksum */
  predicate Restored(r: Bytes, header: Bytes, payload: Bytes) {
    && SameHeader(r, header) && |r| == 20 + |payload| && r[20..] == payload && Word(r[2], r[3]) == |r|
    && r[6] == header[6] / 128 * 128 && r[7] == 0
    && Word(r[10], r[11]) == Cksum(r[..20][10 := 0][11 := 0])
  }

  /** A packet that may be cut and has the right length and checksum is itself again */
  lemma RestoredItself(r: Bytes, packet: Bytes)
    requires |packet| >= 20 && Plain(packet[..20]) && packet[6] % 128 == 0 && Word(packet[2], packet[3]) == |packet|
    requires Word(packet[10], packet[11]) == Cksum(packet[..20][10 := 0][11 := 0])
    requires Restored(r, packet[..20], packet[20..])
    ensures r == packet
  {
    hide Cksum;
    var h := packet[..20];
    WordsEqual(r[2], r[3], packet[2], packet[3]);
    SameBytes(r, h);
    var bare: Bytes := r[..20];
    assert (bare[10 := 0])[11 := 0] == (h[10 := 0])[11 := 0] by {
      forall i | 0 <= i < 20 && i != 10 && i != 11 ensures bare[i] == h[i] {
        assert bare[i] == r[i];
      }
    }
    WordsEqual(r[10], r[11], packet[10], packet[11]);
    assert r == r[..20] + r[20..] && packet == packet[..20] + packet[20..];
  }

  lemma SameBytes(p: Bytes, header: Bytes)
    requires SameHeader(p, header)
    ensures forall i | 0 <= i < 20 && i !in {2, 3, 6, 7, 10, 11} :: p[i] == header[i]
  {
    assert p[0] == p[..2][0] && header[0] == header[..2][0] && p[1] == p[..2][1] && header[1] == header[..2][1];
    assert forall i | 4 <= i < 6 :: p[i] == p[4..6][i - 4] && header[i] == header[4..6][i - 4];
    assert forall i | 8 <= i < 10 :: p[i] == p[8..10][i - 8] && header[i] == header[8..10][i - 8];
    assert forall i | 12 <= i < 20 :: p[i] == p[12..20][i - 12] && header[i] == header[12..20][i - 12];
  }

  lemma WordsEqual(a: Byte, b: Byte, c: Byte, d: Byte)
    requires Word(a, b) == Word(c, d)
    ensures a == c && b == d
  {
  }

  // ---------- How the program reads them ----------

  ghost function Cut4(tunnel: int, sent: seq<Bytes>, header: Bytes, payload: Bytes, cuts: seq<nat>): Datagram
    requires Fragments(sent, header, payload, cuts)
  {
    Datagram(
      TrainKey(tunnel, header[9], header[4..6], header[12..20]),
      seq(|sent|, i requires 0 <= i < |sent| => Parse4(tunnel, SentAt(sent, header, payload, cuts, i)).piece),
      seq(|sent|, i requires 0 <= i < |sent| => Parse4(tunnel, SentAt(sent, header, payload, cuts, i)).header))
  }

  ghost function SentAt(sent: seq<Bytes>, header: Bytes, payload: Bytes, cuts: seq<nat>, i: nat): (p: Bytes)
    requires Fragments(sent, header, payload, cuts) && i < |sent|
    ensures |p| >= 20
  {
    assert Fragment(sent[i], header, payload, cuts, i);
    sent[i]
  }

  /** Reading a fragment gives back what it was made from */
  lemma ReadFragment(tunnel: int, p: Bytes, header: Bytes, payload: Bytes, cuts: seq<nat>, i: nat)
    requires Fragment(p, header, payload, cuts, i) && cuts[i] % 8 == 0 && |payload| <= IPMAXLEN - 20
    ensures Parse4(tunnel, p) == Arrival(
      TrainKey(tunnel, header[9], header[4..6], header[12..20]), p[..20],
      Piece(cuts[i], cuts[i + 1] < |payload|, payload[cuts[i]..cuts[i + 1]]))
  {
    assert p[9] == p[8..10][1] == header[8..10][1];
    var q := cuts[i] / 8;
    FlagsRead(p[6], p[7], header[6], cuts[i + 1] < |payload|, q);
  }

  lemma FlagsRead(b6: Byte, b7: Byte, h6: Byte, more: bool, q: nat)
    requires h6 % 64 == 0 && q < 8192
    requires b6 as int == h6 as int + (if more then 0x20 else 0) + q / 256 && b7 as int == q % 256
    ensures b6 as nat % 32 * 256 + b7 as nat == q && (b6 as nat / 32 % 2 == 1 <==> more)
    ensures Unflagged(b6) as int == h6 as int / 128 * 128 + q / 256
  {
    var k, hi := h6 as int / 64, q / 256;
    assert b6 as int == 64 * k + (if more then 32 else 0) + hi;
    BitsOf(k, more, hi);
  }

  lemma BitsOf(k: int, more: bool, hi: int)
    requires 0 <= k && 0 <= hi < 32
    ensures var b := 64 * k + (if more then 32 else 0) + hi;
      b % 32 == hi && (b / 32 % 2 == 1 <==> more) && b / 128 == 64 * k / 128
  {
    LowBits(2 * k + if more then 1 else 0, hi);
    HighBit(k, (if more then 32 else 0) + hi);
  }

  lemma LowBits(x: int, y: int)
    requires 0 <= y < 32
    ensures (32 * x + y) / 32 == x && (32 * x + y) % 32 == y
  {
  }

  lemma HighBit(k: int, y: int)
    requires 0 <= y < 64
    ensures (64 * k + y) / 128 == 64 * k / 128
  {
  }

  /** The fragments are a packet in the sense of the reassembly, and each is read as its part */
  lemma CutIsPacket(tunnel: int, sent: seq<Bytes>, header: Bytes, payload: Bytes, cuts: seq<nat>)
    requires Fragments(sent, header, payload, cuts)
    ensures var d := Cut4(tunnel, sent, header, payload, cuts);
      && d.Ok() && |d.pieces| == |sent| > 0 && d.key == TrainKey(tunnel, header[9], header[4..6], header[12..20])
      && forall i | 0 <= i < |sent| ::
        && PieceAs(d, payload, cuts, i) && IPHDRLEN <= |sent[i]| <= IPMAXLEN && Parse4(tunnel, sent[i]) == d.Part(i)
        && d.headers[i] == sent[i][..IPHDRLEN] && Sized(d.pieces[i])
  {
    hide PieceAs, Sized, Parse4, Fragment, Datagram.Ok, F.Cut;
    var d := Cut4(tunnel, sent, header, payload, cuts);
    CutEnds(cuts, |payload|, IPMAXLEN);
    forall i | 0 <= i < |sent|
      ensures PieceAs(d, payload, cuts, i) && IPHDRLEN <= |sent[i]| <= IPMAXLEN && Parse4(tunnel, sent[i]) == d.Part(i)
      ensures d.headers[i] == sent[i][..IPHDRLEN] && Sized(d.pieces[i])
    {
      CutPart(tunnel, sent, header, payload, cuts, i);
    }
    CutIsOk(d, payload, cuts, IPMAXLEN);
  }

  lemma CutPart(tunnel: int, sent: seq<Bytes>, header: Bytes, payload: Bytes, cuts: seq<nat>, i: nat)
    requires Fragments(sent, header, payload, cuts) && i < |sent|
    ensures var d := Cut4(tunnel, sent, header, payload, cuts);
      && PieceAs(d, payload, cuts, i) && IPHDRLEN <= |sent[i]| <= IPMAXLEN && Parse4(tunnel, sent[i]) == d.Part(i)
      && d.headers[i] == sent[i][..IPHDRLEN] && Sized(d.pieces[i])
  {
    hide Parse4;
    assert Fragment(sent[i], header, payload, cuts, i) && cuts[i] % 8 == 0;
    assert i + 1 < |sent| ==> cuts[i + 1] % 8 == 0;
    ReadFragment(tunnel, sent[i], header, payload, cuts, i);
  }

  /** What is rebuilt from all the fragments is the packet again */
  lemma WholeAgain(tunnel: int, sent: seq<Bytes>, header: Bytes, payload: Bytes, cuts: seq<nat>)
    requires Fragments(sent, header, payload, cuts)
    ensures var d := Cut4(tunnel, sent, header, payload, cuts);
      && |d.headers| > 0 && |d.headers[0]| == IPHDRLEN && Payload(d.pieces) == payload
      && Restored(Rebuilt4(Train(0, d.headers[0], d.pieces)), header, payload)
  {
    hide PieceAs, Sized, Parse4, Cksum, Restored, Datagram.Ok, Fragment, Bare4, Unflagged, SameHeader;
    var d := Cut4(tunnel, sent, header, payload, cuts);
    CutIsPacket(tunnel, sent, header, payload, cuts);
    CutPayload(d, payload, cuts, |sent|);
    assert d.pieces[..|sent|] == d.pieces && payload[..|payload|] == payload;
    assert Fragment(sent[0], header, payload, cuts, 0);
    FirstHeader(sent[0], header, payload, cuts);
    HeaderAgain(sent[0][..IPHDRLEN], header, payload);
  }

  lemma FirstHeader(p: Bytes, header: Bytes, payload: Bytes, cuts: seq<nat>)
    requires Fragment(p, header, payload, cuts, 0) && cuts[0] == 0
    ensures SameHeader(p[..IPHDRLEN], header) && Unflagged(p[6]) == header[6] / 128 * 128 && p[7] == 0
  {
    hide Unflagged;
    HeaderPart(p, header);
    FlagsRead(p[6], p[7], header[6], cuts[1] < |payload|, 0);
  }

  lemma HeaderPart(p: Bytes, header: Bytes)
    requires SameHeader(p, header)
    ensures SameHeader(p[..IPHDRLEN], header)
  {
    var h := p[..IPHDRLEN];
    assert h[..2] == p[..2] && h[4..6] == p[4..6] && h[8..10] == p[8..10] && h[12..20] == p[12..20];
  }

  lemma HeaderAgain(h: Bytes, header: Bytes, payload: Bytes)
    requires |h| == IPHDRLEN && SameHeader(h, header) && IPHDRLEN + |payload| <= IPMAXLEN
    requires Unflagged(h[6]) == header[6] / 128 * 128 && h[7] == 0
    ensures var bare := Bare4(h, IPHDRLEN + |payload|);
      Restored(bare[10 := F.High(Cksum(bare))][11 := F.Low(Cksum(bare))] + payload, header, payload)
  {
    hide Cksum;
    var bare := Bare4(h, IPHDRLEN + |payload|);
    var r := bare[10 := F.High(Cksum(bare))][11 := F.Low(Cksum(bare))];
    assert r[10 := 0][11 := 0] == bare;
    assert (r + payload)[..20] == r;
  }

  // ---------- What the program makes of them ----------

  /** Every fragment has been named */
  predicate Covers(order: seq<nat>, n: nat) { forall i: nat | i < n :: i in order }

  ghost function Arrivals(d: Datagram, order: seq<nat>): (r: seq<Arrival>)
    requires |d.headers| == |d.pieces| && forall j | 0 <= j < |order| :: order[j] < |d.pieces|
    ensures |r| == |order|
  {
    seq(|order|, j requires 0 <= j < |order| => d.Part(order[j]))
  }

  lemma Distinct(pieces: seq<Piece>, i: nat, j: nat)
    requires ListOk(pieces) && i < |pieces| && j < |pieces| && pieces[i] == pieces[j]
    ensures i == j
  {
    assert !Before(pieces[i], pieces[j]) && !Before(pieces[j], pieces[i]);
  }

  lemma AllArrived(d: Datagram, order: seq<nat>)
    requires d.Ok() && forall j | 0 <= j < |order| :: order[j] < |d.pieces|
    ensures Got(d, Arrivals(d, order)) == Whole(d) <==> Covers(order, |d.pieces|)
    ensures forall a <- Arrivals(d, order) :: Fair(d, a)
  {
    hide ListOk, Complete, Before;
    var arrivals := Arrivals(d, order);
    forall a | a in arrivals ensures Fair(d, a) {
      var j :| 0 <= j < |arrivals| && arrivals[j] == a;
      assert a == d.Part(order[j]);
    }
    GotIsPart(d, arrivals);
    forall i: nat | i < |d.pieces| ensures d.pieces[i] in Got(d, arrivals) <==> i in order {
      if i in order {
        var j :| 0 <= j < |order| && order[j] == i;
        assert arrivals[j] == d.Part(i);
      }
      if d.pieces[i] in Got(d, arrivals) {
        var a :| a in arrivals && a.piece == d.pieces[i];
        var j :| 0 <= j < |arrivals| && arrivals[j] == a;
        Distinct(d.pieces, order[j], i);
      }
    }
  }

  /** defrag on one more of the fragments, after any arrivals of them and of others: it succeeds exactly on the last
      one missing, and then leaves the packet. */
  method Receive(q: Queue, tunnel: int, sent: seq<Bytes>, ghost header: Bytes, ghost payload: Bytes,
                 ghost cuts: seq<nat>, ghost view: map<TrainKey, Train>, ghost arrivals: seq<Arrival>, i: nat,
                 buf4: array<Byte>)
    returns (ok: bool, newLen: nat)
    requires Fragments(sent, header, payload, cuts) && i < |sent| && IPHDRLEN <= |sent[i]| <= IPMAXLEN <= buf4.Length
    requires q.Valid() && Headed(q.view, IPHDRLEN)
    requires q.view == Run(view, arrivals) && Admitted(q, Parse4(tunnel, sent[i]))
    requires var d := Cut4(tunnel, sent, header, payload, cuts);
      && d.Ok() && ViewOk(view) && d.key !in view
      && (forall a <- arrivals :: Fair(d, a)) && Got(d, arrivals) != Whole(d)
    modifies q, q.heads, buf4
    ensures q.Valid() && Headed(q.view, IPHDRLEN) && q.view == Run(view, arrivals + [Parse4(tunnel, sent[i])])
    ensures forall h <- q.heads :: h in old(q.heads) || fresh(h)
    ensures ok <==> Got(Cut4(tunnel, sent, header, payload, cuts), arrivals + [Parse4(tunnel, sent[i])])
                    == Whole(Cut4(tunnel, sent, header, payload, cuts))
    ensures ok ==> newLen <= buf4.Length && Restored(buf4[..newLen], header, payload)
  {
    hide Complete, Fair, ViewOk, Rebuilt4, Headed, Admitted, Parse4, After, Step, Cut4, Fragments, Got, Whole, Restored;
    Completes(tunnel, sent, header, payload, cuts, view, arrivals, i);
    RunMore(view, arrivals, Parse4(tunnel, sent[i]));
    F.Store(buf4, 0, sent[i]);
    assert buf4[..|sent[i]|] == sent[i];
    ok, newLen := Defrag4(q, tunnel, buf4, |sent[i]|);
  }

  lemma Completes(tunnel: int, sent: seq<Bytes>, header: Bytes, payload: Bytes, cuts: seq<nat>,
                  view: map<TrainKey, Train>, arrivals: seq<Arrival>, i: nat)
    requires Fragments(sent, header, payload, cuts) && i < |sent| && |sent[i]| >= IPHDRLEN
    requires var d := Cut4(tunnel, sent, header, payload, cuts);
      && d.Ok() && ViewOk(view) && d.key !in view
      && (forall a <- arrivals :: Fair(d, a)) && Got(d, arrivals) != Whole(d)
    ensures var d, a := Cut4(tunnel, sent, header, payload, cuts), Parse4(tunnel, sent[i]);
      var v := After(Run(view, arrivals), a);
      && (Complete(v.pieces) <==> Got(d, arrivals + [a]) == Whole(d))
      && (Complete(v.pieces) ==> |v.header| == IPHDRLEN && Restored(Rebuilt4(v), header, payload)
                                 && |Payload(v.pieces)| <= IPMAXLEN - IPHDRLEN)
  {
    hide Complete, Fair, ViewOk, Rebuilt4, Restored, Datagram.Ok, Parse4, PieceAs, Sized, Fragment;
    var d := Cut4(tunnel, sent, header, payload, cuts);
    CutIsPacket(tunnel, sent, header, payload, cuts);
    WholeAgain(tunnel, sent, header, payload, cuts);
    AnyOrder(d, view, arrivals, i);
  }

  // ---------- A whole packet ----------

  /** The keys of the trains in the queue, and of those of one tunnel */
  lemma {:induction false} KeysCounted(heads: seq<Head>, tunnel: int)
    requires forall i, j | 0 <= i < j < |heads| :: heads[i].key != heads[j].key
    ensures |KeysOf(heads)| == |heads| && |Under(KeysOf(heads), tunnel)| == Of(heads, tunnel)
  {
    if |heads| > 0 {
      KeysCounted(heads[1..], tunnel);
      FirstKey(heads);
      OneUnder(KeysOf(heads[1..]), heads[0].key, tunnel);
    }
  }

  lemma FirstKey(heads: seq<Head>)
    requires |heads| > 0 && forall j | 0 < j < |heads| :: heads[0].key != heads[j].key
    ensures KeysOf(heads) == KeysOf(heads[1..]) + {heads[0].key} && heads[0].key !in KeysOf(heads[1..])
  {
    assert heads == [heads[0]] + heads[1..];
  }

  lemma OneUnder(keys: set<TrainKey>, k: TrainKey, tunnel: int)
    requires k !in keys
    ensures |Under(keys + {k}, tunnel)| == |Under(keys, tunnel)| + if k.tunnel == tunnel then 1 else 0
  {
    assert Under(keys + {k}, tunnel) == Under(keys, tunnel) + if k.tunnel == tunnel then {k} else {};
  }

  ghost function KeysOf(heads: seq<Head>): set<TrainKey> { set h <- heads :: h.key }

  ghost function Under(keys: set<TrainKey>, tunnel: int): set<TrainKey> { set k <- keys | k.tunnel == tunnel }

  /** A queue with at most one train more has at most one head more */
  lemma OneMoreAdmits(before: seq<Head>, heads: seq<Head>, key: TrainKey)
    requires forall i, j | 0 <= i < j < |before| :: before[i].key != before[j].key
    requires forall i, j | 0 <= i < j < |heads| :: heads[i].key != heads[j].key
    requires KeysOf(heads) <= KeysOf(before) + {key}
    ensures |heads| <= |before| + 1 && Of(heads, key.tunnel) <= Of(before, key.tunnel) + 1
  {
    KeysCounted(before, key.tunnel);
    KeysCounted(heads, key.tunnel);
    Fewer(KeysOf(heads), KeysOf(before) + {key});
    Fewer(Under(KeysOf(heads), key.tunnel), Under(KeysOf(before), key.tunnel) + {key});
  }

  lemma Fewer<T>(a: set<T>, b: set<T>)
    requires a <= b
    ensures |a| <= |b|
  {
    assert b == a + (b - a);
  }

  lemma {:induction false} RunKeys(view: map<TrainKey, Train>, arrivals: seq<Arrival>, key: TrainKey)
    requires forall j | 0 <= j < |arrivals| :: arrivals[j].key == key
    ensures Run(view, arrivals).Keys <= view.Keys + {key}
  {
    hide Complete, After;
    if |arrivals| > 0 {
      RunKeys(view, arrivals[..|arrivals| - 1], key);
    }
  }

  /** The queue lets another fragment in while only the train of this key has been added */
  lemma StillAdmits(q: Queue, before: seq<Head>, a: Arrival)
    requires q.Valid() && q.view.Keys <= KeysOf(before) + {a.key} && Sized(a.piece)
    requires forall i, j | 0 <= i < j < |before| :: before[i].key != before[j].key
    requires |before| + 1 < q.maxCount && Of(before, a.key.tunnel) + 1 < q.maxPerTunnel
    ensures Admitted(q, a)
  {
    hide ViewOk, Of, Sized;
    OneMoreAdmits(before, q.heads, a.key);
  }

  lemma ViewKeys(q: Queue)
    requires q.Valid()
    ensures q.view.Keys == KeysOf(q.heads) && ViewOk(q.view)
    ensures forall i, j | 0 <= i < j < |q.heads| :: q.heads[i].key != q.heads[j].key
  {
    hide ViewOk, Of;
    forall k | k in q.view ensures k in KeysOf(q.heads) {
      var i :| 0 <= i < |q.heads| && q.heads[i].key == k;
    }
    forall k | k in KeysOf(q.heads) ensures k in q.view {
      var h :| h in q.heads && h.key == k;
    }
  }

  /** One more of the fragments, and nothing missing but what has not been named */
  lemma NextArrival(d: Datagram, order: seq<nat>, k: nat)
    requires d.Ok() && (forall j | 0 <= j < |order| :: order[j] < |d.pieces|) && k < |order|
    requires !Covers(order[..|order| - 1], |d.pieces|)
    ensures !Covers(order[..k], |d.pieces|)
    ensures Arrivals(d, order[..k + 1]) == Arrivals(d, order[..k]) + [d.Part(order[k])]
  {
    assert order[..|order| - 1] == order[..k] + order[k..|order| - 1];
  }

  lemma UpTo(d: Datagram, view: map<TrainKey, Train>, order: seq<nat>, k: nat)
    requires d.Ok() && (forall j | 0 <= j < |order| :: order[j] < |d.pieces|) && k < |order|
    requires !Covers(order[..|order| - 1], |d.pieces|)
    ensures var before := Arrivals(d, order[..k]);
      && Arrivals(d, order[..k + 1]) == before + [d.Part(order[k])]
      && (forall a <- before :: Fair(d, a)) && Got(d, before) != Whole(d)
      && Run(view, before).Keys <= view.Keys + {d.key}
      && (Got(d, before + [d.Part(order[k])]) == Whole(d) <==> k == |order| - 1 && Covers(order, |d.pieces|))
  {
    hide Fair, Got, Whole, Run, Covers, ListOk, Complete;
    NextArrival(d, order, k);
    AllArrived(d, order[..k]);
    AllArrived(d, order[..k + 1]);
    RunKeys(view, Arrivals(d, order[..k]), d.key);
    if k + 1 < |order| {
      NextArrival(d, order, k + 1);
    } else {
      assert order[..k + 1] == order;
    }
  }

  /** defrag on the fragments of one packet in any order and with any repetitions, no proper part of which names them
      all: it succeeds on the last if and only if that names them all, on none before, and leaves the packet. */
  method ReceiveAll(q: Queue, tunnel: int, sent: seq<Bytes>, order: seq<nat>, ghost header: Bytes,
                    ghost payload: Bytes, ghost cuts: seq<nat>, buf4: array<Byte>)
    returns (oks: seq<bool>, newLen: nat)
    requires Fragments(sent, header, payload, cuts)
    requires |order| > 0 && forall j | 0 <= j < |order| :: order[j] < |sent|
    requires !Covers(order[..|order| - 1], |sent|)
    requires q.Valid() && Headed(q.view, IPHDRLEN) && IPMAXLEN <= buf4.Length
    requires |q.heads| + 1 < q.maxCount && Of(q.heads, tunnel) + 1 < q.maxPerTunnel
    requires forall h <- q.heads :: h.key != TrainKey(tunnel, header[9], header[4..6], header[12..20])
    modifies q, q.heads, buf4
    ensures q.Valid() && Headed(q.view, IPHDRLEN)
    ensures |oks| == |order| && forall j | 0 <= j < |order| :: oks[j] <==> j == |order| - 1 && Covers(order, |sent|)
    ensures Covers(order, |sent|) ==> newLen <= buf4.Length && Restored(buf4[..newLen], header, payload)
  {
    hide Complete, Fair, ViewOk, Headed, Admitted, Parse4, After, Step, Cut4, Fragments, Got, Whole, Restored, Covers,
         Of, PieceAs, Sized, ListOk, Queue.Distinct, Queue.Counted, Queue.Viewed;
    ghost var d := Cut4(tunnel, sent, header, payload, cuts);
    ghost var view, before := q.view, q.heads;
    CutIsPacket(tunnel, sent, header, payload, cuts);
    ViewKeys(q);
    oks, newLen := [], 0;
    while |oks| < |order|
      invariant |oks| <= |order| && q.Valid() && Headed(q.view, IPHDRLEN)
      invariant forall h <- q.heads :: h in before || fresh(h)
      invariant q.view == Run(view, Arrivals(d, order[..|oks|]))
      invariant forall j | 0 <= j < |oks| :: oks[j] <==> j == |order| - 1 && Covers(order, |sent|)
      invariant |oks| == |order| && Covers(order, |sent|) ==>
        newLen <= buf4.Length && Restored(buf4[..newLen], header, payload)
    {
      ghost var k := |oks|;
      assert forall i | 0 <= i < |q.heads| :: q.heads[i] in old(q.heads) || fresh(q.heads[i]);
      ghost var arrivals := Arrivals(d, order[..k]);
      UpTo(d, view, order, k);
      StillAdmits(q, before, d.Part(order[k]));
      var ok, len := Receive(q, tunnel, sent, header, payload, cuts, view, arrivals, order[|oks|], buf4);
      newLen := len;
      oks := oks + [ok];
    }
  }
}
