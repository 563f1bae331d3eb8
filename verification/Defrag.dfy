/**
  The reassembly queues and the two routines that feed them, and the round trip from
  the encapsulation's fragments back to the packet it would have sent whole.
 */
module Defrag {
  import opened Options
  import opened NatEntry
  import opened Checksum
  import opened Reassembly
  import F = Fragmentation

  // ---------- The queue ----------

  class Head {
    const key: TrainKey
    var off: nat
    var header: Bytes
    var pieces: seq<Piece>

    constructor (a: Arrival)
      ensures key == a.key && Value() == Fresh(a)
    {
      key, off, header, pieces := a.key, a.piece.off, a.header, [];
    }

    ghost function Value(): Train
      reads this
    {
      Train(off, header, pieces)
    }

    /** The walk along the fraglist: where the fragment belongs, if it may be taken */
    method Place(p: Piece) returns (ok: bool, k: nat)
      requires ListOk(pieces)
      ensures ok <==> Fits(pieces, p)
      ensures ok ==> k == Position(pieces, p.off)
    {
      k := 0;
      while k < |pieces|
        invariant k <= |pieces| && forall j | 0 <= j < k :: pieces[j].off < p.off && pieces[j].more
      {
        if pieces[k].off == p.off {
          assert !Before(pieces[k], p) && !Before(p, pieces[k]);
          return false, 0;
        }
        if pieces[k].off > p.off {
          break;
        }
        if !pieces[k].more {
          assert !Before(pieces[k], p) && !Before(p, pieces[k]);
          return false, 0;
        }
        k := k + 1;
      }
      ok := !((k < |pieces| && p.End() > pieces[k].off) || (k < |pieces| && !p.more)
              || (k > 0 && pieces[k - 1].End() > p.off));
      PlaceFits(pieces, p, k);
      PlaceIs(pieces, p.off, k);
    }

    /** The walk that looks for a gap */
    method Gapless() returns (whole: bool, total: nat)
      requires TrainOk(Value())
      ensures whole <==> Complete(pieces)
      ensures whole ==> total == pieces[|pieces| - 1].End()
    {
      total := 0;
      if off != 0 {
        return false, 0;
      }
      var i := 0;
      while i < |pieces|
        invariant i <= |pieces| && total == (if i == 0 then 0 else pieces[i - 1].End())
        invariant forall j | 0 <= j < i :: pieces[j].off == if j == 0 then 0 else pieces[j - 1].End()
      {
        if pieces[i].off != total {
          assert i > 0 ==> pieces[i].off != pieces[i - 1].End();
          return false, 0;
        }
        total := total + |pieces[i].data|;
        i := i + 1;
      }
      whole := !pieces[|pieces| - 1].more;
    }
  }

  lemma PlaceIs(pieces: seq<Piece>, off: nat, k: nat)
    requires ListOk(pieces) && k <= |pieces|
    requires (forall j | 0 <= j < k :: pieces[j].off < off) && (k < |pieces| ==> pieces[k].off > off)
    ensures Position(pieces, off) == k
  {
    PositionIs(pieces, off, k);
  }

  lemma PlaceFits(pieces: seq<Piece>, p: Piece, k: nat)
    requires ListOk(pieces) && k <= |pieces|
    requires forall j | 0 <= j < k :: pieces[j].off < p.off && pieces[j].more
    requires k < |pieces| ==> pieces[k].off > p.off
    ensures Fits(pieces, p) <==>
            (k < |pieces| ==> p.End() <= pieces[k].off && p.more) && (k > 0 ==> pieces[k - 1].End() <= p.off)
  {
    assert k < |pieces| ==> pieces[k] in pieces;
    assert k > 0 ==> pieces[k - 1] in pieces;
    forall j | 0 <= j < k - 1 ensures pieces[j].End() <= pieces[k - 1].off {
      assert Before(pieces[j], pieces[k - 1]);
    }
    forall j | k < j < |pieces| ensures pieces[k].off < pieces[j].off {
      assert Before(pieces[k], pieces[j]);
    }
  }

  /** How many of the heads belong to a tunnel */
  ghost function Of(heads: seq<Head>, tunnel: int): nat {
    if |heads| == 0 then 0 else (if heads[0].key.tunnel == tunnel then 1 else 0) + Of(heads[1..], tunnel)
  }

  lemma {:induction false} OfWithout(heads: seq<Head>, i: nat, tunnel: int)
    requires i < |heads|
    ensures Of(heads, tunnel) == Of(heads[..i] + heads[i + 1..], tunnel) + if heads[i].key.tunnel == tunnel
      then 1
      else 0
  {
    var rest := heads[..i] + heads[i + 1..];
    if i == 0 {
      assert rest == heads[1..];
    } else {
      OfWithout(heads[1..], i - 1, tunnel);
      assert rest[1..] == heads[1..][..i - 1] + heads[1..][i..];
    }
  }

  /** A tail queue of heads, newest first, with its limits */
  class Queue {
    const maxCount: nat
    const maxPerTunnel: nat
    var heads: seq<Head>
    var count: nat
    var perTunnel: map<int, nat>
    ghost var view: map<TrainKey, Train>

    ghost predicate Distinct()
      reads this`heads
    {
      forall i, j | 0 <= i < j < |heads| :: heads[i] != heads[j] && heads[i].key != heads[j].key
    }

    ghost predicate Counted()
      reads this`heads, this`count, this`perTunnel
    {
      && count == |heads|
      && forall t :: Of(heads, t) == if t in perTunnel then perTunnel[t] else 0
    }

    ghost predicate Viewed()
      reads this, heads
    {
      && (forall h <- heads :: h.key in view && view[h.key] == h.Value())
      && (forall k <- view :: exists i :: 0 <= i < |heads| && heads[i].key == k)
    }

    ghost predicate Valid()
      reads this, heads
    {
      Distinct() && Counted() && Viewed() && ViewOk(view)
    }

    constructor (maxCount: nat, maxPerTunnel: nat)
      ensures Valid() && view == map[]
    {
      this.maxCount, this.maxPerTunnel := maxCount, maxPerTunnel;
      heads, count, perTunnel, view := [], 0, map[], map[];
    }

    method Locate(key: TrainKey) returns (found: bool, i: nat)
      requires Valid()
      ensures found <==> key in view
      ensures found ==> i < |heads| && heads[i].key == key
    {
      i := 0;
      while i < |heads|
        invariant i <= |heads| && forall j | 0 <= j < i :: heads[j].key != key
      {
        if heads[i].key == key {
          return true, i;
        }
        i := i + 1;
      }
      found := false;
    }

    /** The limits are checked before the fragment is looked at */
    method Admits(tunnel: int) returns (ok: bool)
      requires Valid()
      ensures ok <==> |heads| < maxCount && Of(heads, tunnel) < maxPerTunnel
    {
      ok := count < maxCount && (if tunnel in perTunnel then perTunnel[tunnel] else 0) < maxPerTunnel;
    }

    method InsertHead(a: Arrival) returns (h: Head)
      requires Valid() && a.key !in view
      modifies this
      ensures fresh(h) && h.key == a.key && h.Value() == Fresh(a)
      ensures heads == [h] + old(heads) && Distinct() && Counted()
      ensures view == old(view)
    {
      h := new Head(a);
      heads := [h] + heads;
      count := count + 1;
      var t := a.key.tunnel;
      perTunnel := perTunnel[t := (if t in perTunnel then perTunnel[t] else 0) + 1];
      assert heads[1..] == old(heads);
    }

    /** del_frag6 and del_frag4 */
    method Remove(i: nat)
      requires i < |heads| && Distinct() && Counted()
      modifies this`heads, this`count, this`perTunnel
      ensures heads == old(heads[..i] + heads[i + 1..]) && Distinct() && Counted()
    {
      forall t ensures Of(heads, t) == Of(heads[..i] + heads[i + 1..], t) + if heads[i].key.tunnel == t then 1 else 0 {
        OfWithout(heads, i, t);
      }
      var t := heads[i].key.tunnel;
      assert Of(heads, t) >= 1;
      heads := heads[..i] + heads[i + 1..];
      count := count - 1;
      perTunnel := perTunnel[t := perTunnel[t] - 1];
    }

    /** The fragment joins its train, or is dropped */
    method Join(a: Arrival, i: nat) returns (joined: bool)
      requires i < |heads| && heads[i].key == a.key && ListOk(heads[i].pieces)
      modifies heads[i]
      ensures joined <==> old(Fits(heads[i].pieces, a.piece))
      ensures heads[i].Value() == if joined then old(Added(heads[i].Value(), a)) else old(heads[i].Value())
    {
      hide ListOk, Fits, Position;
      var f := heads[i];
      var ok, k := f.Place(a.piece);
      joined := ok;
      if ok {
        f.pieces := f.pieces[..k] + [a.piece] + f.pieces[k..];
        if k == 0 && a.piece.off == 0 && f.off != 0 {
          f.header := a.header;
          f.off := 0;
        }
      }
    }

    /** Viewed, but for the train of one key */
    ghost predicate ViewedBut(key: TrainKey)
      reads this, heads
    {
      && (forall h <- heads :: h.key != key ==> h.key in view && view[h.key] == h.Value())
      && (forall k <- view :: k != key ==> exists i :: 0 <= i < |heads| && heads[i].key == k)
    }

    method FindOrMake(a: Arrival) returns (i: nat)
      requires Valid()
      modifies this
      ensures i < |heads| && heads[i].key == a.key && (heads[i] in old(heads) || fresh(heads[i]))
      ensures forall h <- heads :: h in old(heads) || h == heads[i]
      ensures Distinct() && Counted() && ViewedBut(a.key) && view == old(view)
      ensures heads[i].Value() == Start(view, a)
    {
      hide ViewOk, Counted;
      var found, at := Locate(a.key);
      i := at;
      if !found {
        Make(a);
        i := 0;
      }
    }

    method Make(a: Arrival)
      requires Valid() && a.key !in view
      modifies this
      ensures heads != [] && heads[1..] == old(heads) && heads[0].key == a.key && fresh(heads[0])
      ensures heads[0].Value() == Fresh(a)
      ensures Distinct() && Counted() && ViewedBut(a.key) && view == old(view)
    {
      hide ViewOk, Counted, Distinct;
      var h := InsertHead(a);
      forall k | k in view ensures exists j :: 0 <= j < |heads| && heads[j].key == k {
        var j :| 0 <= j < |old(heads)| && old(heads)[j].key == k;
        assert heads[j + 1].key == k;
      }
    }

    /** The view follows, and a complete train is deleted */
    method Settle(i: nat) returns (done: Option<Train>)
      requires i < |heads| && Distinct() && Counted() && ViewedBut(heads[i].key) && TrainOk(heads[i].Value())
      requires ViewOk(view)
      modifies this`heads, this`count, this`perTunnel, this`view
      ensures Valid() && forall h <- heads :: h in old(heads)
      ensures var v := old(heads[i].Value());
        && done == (if Complete(v.pieces) then Some(v) else None)
        && view == if Complete(v.pieces) then old(view) - {old(heads[i].key)} else old(view)[old(heads[i].key) := v]
    {
      hide TrainOk, Complete, Counted, Distinct, Viewed, ViewedBut;
      done := None;
      var whole, total := heads[i].Gapless();
      if whole {
        done := Some(Train(heads[i].off, heads[i].header, heads[i].pieces));
        DropView(i);
        Drop(i);
      } else {
        KeepView(i);
      }
    }

    ghost method KeepView(i: nat)
      requires i < |heads| && Distinct() && ViewedBut(heads[i].key)
      modifies this`view
      ensures view == old(view)[heads[i].key := heads[i].Value()] && Viewed()
    {
      view := view[heads[i].key := heads[i].Value()];
      assert forall k :: k in view <==> k in old(view) || k == heads[i].key;
    }

    method Drop(i: nat)
      requires i < |heads| && Distinct() && Counted()
      requires forall j | 0 <= j < |heads| && j != i :: heads[j].key in view && view[heads[j].key] == heads[j].Value()
      requires forall k <- view :: exists j :: 0 <= j < |heads| && j != i && heads[j].key == k
      modifies this`heads, this`count, this`perTunnel
      ensures Distinct() && Counted() && Viewed() && forall h <- heads :: h in old(heads)
    {
      hide Counted, Distinct;
      Remove(i);
      forall k | k in view ensures exists j :: 0 <= j < |heads| && heads[j].key == k {
        var j :| 0 <= j < |old(heads)| && j != i && old(heads)[j].key == k;
        assert heads[if j < i then j else j - 1].key == k;
      }
    }

    ghost method DropView(i: nat)
      requires i < |heads| && Distinct() && ViewedBut(heads[i].key)
      modifies this`view
      ensures view == old(view) - {heads[i].key}
      ensures forall j | 0 <= j < |heads| && j != i :: heads[j].key in view && view[heads[j].key] == heads[j].Value()
      ensures forall k <- view :: exists j :: 0 <= j < |heads| && j != i && heads[j].key == k
    {
      view := view - {heads[i].key};
    }

    /** What both reassembly routines do with a fragment the limits let through */
    method Collect(a: Arrival) returns (done: Option<Train>)
      requires Valid()
      modifies this, heads
      ensures Valid() && forall h <- heads :: h in old(heads) || fresh(h)
      ensures view == Step(old(view), a)
      ensures done == if Complete(After(old(view), a).pieces) then Some(After(old(view), a)) else None
    {
      hide TrainOk, Complete, Fits, Position, ListOk, Counted, Added, Viewed, ViewOk;
      StepKeepsViewOk(view, a);
      StartOk(view, a);
      var i := FindOrMake(a);
      ghost var v := heads[i].Value();
      var joined := Join(a, i);
      done := None;
      if joined {
        done := Settle(i);
      } else {
        SameView(a.key);
      }
    }

    lemma SameView(key: TrainKey)
      requires ViewedBut(key) && key in view && forall h <- heads :: h.key == key ==> h.Value() == view[key]
      requires exists i :: 0 <= i < |heads| && heads[i].key == key
      ensures Viewed() && view[key := view[key]] == view
    {
    }
  }

  lemma StartOk(view: map<TrainKey, Train>, a: Arrival)
    requires ViewOk(view)
    ensures ListOk(Start(view, a).pieces)
    ensures !Fits(Start(view, a).pieces, a.piece) ==> a.key in view && !Complete(view[a.key].pieces)
  {
    EmptyOk(a);
  }

  // ---------- What goes in and what comes out ----------

  const IPHDRLEN: nat := 20
  const IPMAXLEN: nat := 65535

  /** An IPv6 fragment of a tunnel, 48 bytes of headers and its data */
  function Parse6(tunnel: int, p: Bytes): (a: Arrival)
    requires |p| >= F.IP6FLEN
    ensures |a.header| == F.IP6FLEN
  {
    Arrival(
      TrainKey(tunnel, p[40], p[44..48], []), p[..F.IP6FLEN],
      Piece(p[42] as nat * 256 + p[43] as nat / 8 * 8, p[43] as nat % 2 == 1, p[F.IP6FLEN..]))
  }

  /** The packet of a complete IPv6 train: the fragment header is gone */
  function Rebuilt6(v: Train): Bytes
    requires |v.header| == F.IP6FLEN
  {
    var data := Payload(v.pieces);
    v.header[..4] + [F.High(|data|), F.Low(|data|), v.header[40]] + v.header[7..40] + data
  }

  /** An IPv4 fragment without options */
  function Parse4(tunnel: int, p: Bytes): (a: Arrival)
    requires |p| >= IPHDRLEN
    ensures |a.header| == IPHDRLEN
  {
    Arrival(
      TrainKey(tunnel, p[9], p[4..6], p[12..20]), p[..IPHDRLEN],
      Piece((p[6] as nat % 32 * 256 + p[7] as nat) * 8, p[6] as nat / 32 % 2 == 1, p[IPHDRLEN..]))
  }

  /** DF and MF cleared */
  function Unflagged(b: Byte): Byte { b % 32 + b / 128 * 128 }

  /** A header for this total length, its checksum field zero */
  function Bare4(header: Bytes, total: nat): (h: Bytes)
    requires |header| == IPHDRLEN
    ensures |h| == IPHDRLEN
  {
    header[2 := F.High(total)][3 := F.Low(total)][6 := Unflagged(header[6])][10 := 0][11 := 0]
  }

  /** The packet of a complete IPv4 train */
  function Rebuilt4(v: Train): Bytes
    requires |v.header| == IPHDRLEN
  {
    var h := Bare4(v.header, IPHDRLEN + |Payload(v.pieces)|);
    h[10 := F.High(Cksum(h))][11 := F.Low(Cksum(h))] + Payload(v.pieces)
  }

  lemma {:induction false} PayloadEnds(pieces: seq<Piece>, k: nat)
    requires Complete(pieces) && k <= |pieces|
    ensures |Payload(pieces[..k])| == if k == 0 then 0 else pieces[k - 1].End()
  {
    if k > 0 {
      PayloadEnds(pieces, k - 1);
      assert pieces[..k][..k - 1] == pieces[..k - 1];
    }
  }

  /** The copying loop of both routines */
  method Unload(buf: array<Byte>, at: nat, pieces: seq<Piece>)
    requires Complete(pieces) && at + |Payload(pieces)| <= buf.Length
    modifies buf
    ensures buf[at..at + |Payload(pieces)|] == Payload(pieces)
    ensures forall j | 0 <= j < at :: buf[j] == old(buf[j])
  {
    hide Complete, Payload;
    var i := 0;
    assert pieces[..|pieces|] == pieces;
    assert Payload(pieces[..0]) == [] by { NoPayload(pieces); }
    PayloadEnds(pieces, |pieces|);
    while i < |pieces|
      invariant i <= |pieces| && at + |Payload(pieces[..i])| <= buf.Length
      invariant buf[at..at + |Payload(pieces[..i])|] == Payload(pieces[..i])
      invariant forall j | 0 <= j < at :: buf[j] == old(buf[j])
    {
      NextPayload(pieces, i);
      PayloadEnds(pieces, i);
      PayloadEnds(pieces, i + 1);
      OffsetsAdd(pieces, i);
      F.Store(buf, at + pieces[i].off, pieces[i].data);
      assert buf[at..at + pieces[i].off] == Payload(pieces[..i]);
      assert buf[at + pieces[i].off..at + pieces[i].End()] == pieces[i].data;
      i := i + 1;
    }
  }

  lemma NoPayload(pieces: seq<Piece>)
    ensures Payload(pieces[..0]) == []
  {
  }

  lemma NextPayload(pieces: seq<Piece>, i: nat)
    requires i < |pieces|
    ensures Payload(pieces[..i + 1]) == Payload(pieces[..i]) + pieces[i].data
  {
    assert pieces[..i + 1][..i] == pieces[..i];
  }

  lemma OffsetsAdd(pieces: seq<Piece>, i: nat)
    requires Complete(pieces) && i < |pieces|
    ensures pieces[i].off == (if i == 0 then 0 else pieces[i - 1].End())
    ensures pieces[i].End() <= |Payload(pieces)|
  {
    PayloadEnds(pieces, |pieces|);
    assert pieces[..|pieces|] == pieces;
    EndsGrow(pieces, i);
  }

  lemma {:induction false} EndsGrow(pieces: seq<Piece>, i: nat)
    requires Complete(pieces) && i < |pieces|
    ensures pieces[i].End() <= pieces[|pieces| - 1].End()
    decreases |pieces| - i
  {
    if i < |pieces| - 1 {
      EndsGrow(pieces, i + 1);
    }
  }

  /** The fragments of every train came with a header of this length */
  ghost predicate Headed(view: map<TrainKey, Train>, n: nat) {
    forall k <- view :: |view[k].header| == n
  }

  lemma StepKeepsHeaded(view: map<TrainKey, Train>, a: Arrival, n: nat)
    requires Headed(view, n) && |a.header| == n
    ensures Headed(Step(view, a), n) && |After(view, a).header| == n
  {
    hide Complete, Fits, Position;
  }

  /** Only whole multiples of 8 bytes may be followed by more */
  predicate Sized(p: Piece) { p.more ==> |p.data| % 8 == 0 }

  /** What the limits and the size check let into the queue */
  ghost predicate Admitted(q: Queue, a: Arrival)
    reads q
  {
    |q.heads| < q.maxCount && Of(q.heads, a.key.tunnel) < q.maxPerTunnel && Sized(a.piece)
  }

  /** What one fragment does to a queue, and whether it finishes a packet that can be rebuilt */
  twostate predicate Took(q: Queue, a: Arrival, room: nat, ok: bool)
    reads q
  {
    if old(Admitted(q, a)) then
      var v := old(After(q.view, a));
      && q.view == Step(old(q.view), a)
      && (ok <==> Complete(v.pieces) && |Payload(v.pieces)| <= room)
    else
      !ok && q.view == old(q.view)
  }

  method Take(q: Queue, a: Arrival, room: nat) returns (done: Option<Train>)
    requires q.Valid() && Headed(q.view, |a.header|)
    modifies q, q.heads
    ensures q.Valid() && Headed(q.view, |a.header|) && forall h <- q.heads :: h in old(q.heads) || fresh(h)
    ensures Took(q, a, room, done.Some?)
    ensures done.Some? ==> done.value == After(old(q.view), a) && Complete(done.value.pieces)
                           && |done.value.header| == |a.header| && |Payload(done.value.pieces)| <= room
  {
    hide Complete, After, Step, ViewOk, ListOk;
    done := None;
    var ok := q.Admits(a.key.tunnel);
    if !ok {
      return;
    }
    if a.piece.more && |a.piece.data| % 8 != 0 {
      return;
    }
    StepKeepsHeaded(q.view, a, |a.header|);
    done := q.Collect(a);
    if done.Some? {
      CompleteLength(done.value.pieces);
      if done.value.pieces[|done.value.pieces| - 1].End() > room {
        done := None;
      }
    }
  }

  lemma CompleteLength(pieces: seq<Piece>)
    requires Complete(pieces)
    ensures |pieces| > 0 && |Payload(pieces)| == pieces[|pieces| - 1].End()
  {
    PayloadEnds(pieces, |pieces|);
    assert pieces[..|pieces|] == pieces;
  }

  /** defrag6: buf6 holds a fragment of len bytes on entry and, when ok, the packet on return */
  method Defrag6(q: Queue, tunnel: int, buf6: array<Byte>, len: nat) returns (ok: bool, newLen: nat)
    requires q.Valid() && Headed(q.view, F.IP6FLEN)
    requires F.IP6FLEN <= len <= buf6.Length && F.IP6HDRLEN + IPMAXLEN <= buf6.Length
    modifies q, q.heads, buf6
    ensures q.Valid() && Headed(q.view, F.IP6FLEN) && forall h <- q.heads :: h in old(q.heads) || fresh(h)
    ensures var a := Parse6(tunnel, old(buf6[..len]));
      && Took(q, a, IPMAXLEN, ok)
      && (ok ==> newLen <= buf6.Length && |After(old(q.view), a).header| == F.IP6FLEN
                 && buf6[..newLen] == Rebuilt6(After(old(q.view), a)))
  {
    hide Complete, After, Step, ViewOk, ListOk, Took, Headed;
    newLen := len;
    var done := Take(q, Parse6(tunnel, buf6[..len]), IPMAXLEN);
    ok := done.Some?;
    if ok {
      newLen := Write6(buf6, done.value);
    }
  }

  method Write6(buf6: array<Byte>, v: Train) returns (newLen: nat)
    requires Complete(v.pieces) && |v.header| == F.IP6FLEN && |Payload(v.pieces)| <= IPMAXLEN
    requires F.IP6HDRLEN + IPMAXLEN <= buf6.Length
    modifies buf6
    ensures newLen == F.IP6HDRLEN + |Payload(v.pieces)| && buf6[..newLen] == Rebuilt6(v)
  {
    CompleteLength(v.pieces);
    var len := v.pieces[|v.pieces| - 1].End();
    F.Store(buf6, 0, v.header[..F.IP6HDRLEN]);
    Unload(buf6, F.IP6HDRLEN, v.pieces);
    buf6[4] := F.High(len);
    buf6[5] := F.Low(len);
    buf6[6] := v.header[40];
    newLen := len + F.IP6HDRLEN;
    assert buf6[..F.IP6HDRLEN] == Rebuilt6(v)[..F.IP6HDRLEN];
    assert buf6[F.IP6HDRLEN..newLen] == Payload(v.pieces) == Rebuilt6(v)[F.IP6HDRLEN..];
    assert buf6[..newLen] == buf6[..F.IP6HDRLEN] + buf6[F.IP6HDRLEN..newLen];
    assert Rebuilt6(v) == Rebuilt6(v)[..F.IP6HDRLEN] + Rebuilt6(v)[F.IP6HDRLEN..];
  }

  /** defrag: the same on an IPv4 fragment in buf4 */
  method Defrag4(q: Queue, tunnel: int, buf4: array<Byte>, len: nat) returns (ok: bool, newLen: nat)
    requires q.Valid() && Headed(q.view, IPHDRLEN)
    requires IPHDRLEN <= len <= buf4.Length && IPMAXLEN <= buf4.Length
    modifies q, q.heads, buf4
    ensures q.Valid() && Headed(q.view, IPHDRLEN) && forall h <- q.heads :: h in old(q.heads) || fresh(h)
    ensures var a := Parse4(tunnel, old(buf4[..len]));
      && Took(q, a, IPMAXLEN - IPHDRLEN, ok)
      && (ok ==> newLen <= buf4.Length && |After(old(q.view), a).header| == IPHDRLEN
                 && buf4[..newLen] == Rebuilt4(After(old(q.view), a)))
  {
    hide Complete, After, Step, ViewOk, ListOk, Took, Headed;
    newLen := len;
    var done := Take(q, Parse4(tunnel, buf4[..len]), IPMAXLEN - IPHDRLEN);
    ok := done.Some?;
    if ok {
      newLen := Write4(buf4, done.value);
    }
  }

  method Write4(buf4: array<Byte>, v: Train) returns (newLen: nat)
    requires Complete(v.pieces) && |v.header| == IPHDRLEN && IPHDRLEN + |Payload(v.pieces)| <= IPMAXLEN <= buf4.Length
    modifies buf4
    ensures newLen == IPHDRLEN + |Payload(v.pieces)| && buf4[..newLen] == Rebuilt4(v)
  {
    hide Cksum, Complete, WordSum;
    CompleteLength(v.pieces);
    newLen := v.pieces[|v.pieces| - 1].End() + IPHDRLEN;
    F.Store(buf4, 0, v.header);
    buf4[6] := Unflagged(buf4[6]);
    Unload(buf4, IPHDRLEN, v.pieces);
    buf4[2] := F.High(newLen);
    buf4[3] := F.Low(newLen);
    buf4[10] := 0;
    buf4[11] := 0;
    assert buf4[..IPHDRLEN] == Bare4(v.header, newLen);
    var cksum := InCksum(buf4, IPHDRLEN);
    buf4[10] := F.High(cksum as nat);
    buf4[11] := F.Low(cksum as nat);
    assert buf4[..IPHDRLEN] == Rebuilt4(v)[..IPHDRLEN];
    assert buf4[IPHDRLEN..newLen] == Payload(v.pieces) == Rebuilt4(v)[IPHDRLEN..];
    assert buf4[..newLen] == buf4[..IPHDRLEN] + buf4[IPHDRLEN..newLen];
    assert Rebuilt4(v) == Rebuilt4(v)[..IPHDRLEN] + Rebuilt4(v)[IPHDRLEN..];
  }

  // ---------- Fragment, then reassemble ----------

  /** A tunnel packet as the encapsulation cut it */
  ghost function Cut6(
    tunnel: int, sent: seq<Bytes>, data: Bytes, cuts: seq<nat>, id: Bytes, src: Bytes, dst: Bytes): Datagram
    requires |src| == 16 && |dst| == 16 && |id| == 4 && F.Fragments(sent, data, cuts, id, src, dst)
  {
    Datagram(
      TrainKey(tunnel, F.IP6IP4, id, []),
      seq(|sent|, i requires 0 <= i < |sent| => Parse6(tunnel, FragmentOf(sent, data, cuts, id, src, dst, i)).piece),
      seq(|sent|, i requires 0 <= i < |sent| => Parse6(tunnel, FragmentOf(sent, data, cuts, id, src, dst, i)).header))
  }

  ghost function FragmentOf(
    sent: seq<Bytes>, data: Bytes, cuts: seq<nat>, id: Bytes, src: Bytes, dst: Bytes, i: nat): (p: Bytes)
    requires |src| == 16 && |dst| == 16 && |id| == 4 && F.Fragments(sent, data, cuts, id, src, dst) && i < |sent|
    ensures |p| >= F.IP6FLEN
  {
    assert F.Fragment(sent[i], data, cuts, i, id, src, dst);
    sent[i]
  }

  /** Reading a fragment packet gives back what it was made from */
  lemma ParseFragment(tunnel: int, off: nat, more: bool, data: Bytes, id: Bytes, src: Bytes, dst: Bytes)
    requires |src| == 16 && |dst| == 16 && |id| == 4 && off % 8 == 0 && off <= 65535
    ensures var p := F.FragPacket(off, more, data, id, src, dst);
      && |p| == F.IP6FLEN + |data|
      && Parse6(tunnel, p) == Arrival(TrainKey(tunnel, F.IP6IP4, id, []), p[..F.IP6FLEN], Piece(off, more, data))
      && p[..4] == [0x60, 0, 0, 0] && p[7..40] == [64] + src + dst && p[40] == F.IP6IP4
  {
    var p := F.FragPacket(off, more, data, id, src, dst);
    var h := F.FragHeader(off, more, id);
    assert forall j | 0 <= j < 8 :: p[40 + j] == h[j];
    assert p[44..48] == id;
  }

  /** Part i of the packet, as cut */
  ghost predicate PieceAs(d: Datagram, data: Bytes, cuts: seq<nat>, i: nat) {
    && i < |d.pieces| && i + 1 < |cuts| && cuts[i] <= cuts[i + 1] <= |data|
    && d.pieces[i] == Piece(cuts[i], cuts[i + 1] < |data|, data[cuts[i]..cuts[i + 1]])
  }

  ghost predicate CutAs(d: Datagram, data: Bytes, cuts: seq<nat>, src: Bytes, dst: Bytes, i: nat) {
    && PieceAs(d, data, cuts, i) && |d.headers| == |d.pieces| && |d.headers[i]| == F.IP6FLEN
    && d.headers[i][..4] == [0x60, 0, 0, 0] && d.headers[i][7..40] == [64] + src + dst && d.headers[i][40] == F.IP6IP4
  }

  /** Packet i is read as part i */
  ghost predicate ReadAs(d: Datagram, tunnel: int, packet: Bytes, i: nat) {
    i < |d.pieces| == |d.headers| && |packet| >= F.IP6FLEN && Parse6(tunnel, packet) == d.Part(i)
  }

  lemma CutPiece(tunnel: int, sent: seq<Bytes>, data: Bytes, cuts: seq<nat>, id: Bytes, src: Bytes, dst: Bytes, i: nat)
    requires |src| == 16 && |dst| == 16 && |id| == 4 && F.Fragments(sent, data, cuts, id, src, dst)
    requires |data| <= 65535 && i < |sent|
    ensures var d := Cut6(tunnel, sent, data, cuts, id, src, dst);
      CutAs(d, data, cuts, src, dst, i) && ReadAs(d, tunnel, sent[i], i) && cuts[i] % 8 == 0
  {
    assert F.Fragment(sent[i], data, cuts, i, id, src, dst);
    ParseFragment(tunnel, cuts[i], cuts[i + 1] < |data|, data[cuts[i]..cuts[i + 1]], id, src, dst);
  }

  lemma {:induction false} CutsGrow(cuts: seq<nat>, len: nat, room: nat, i: nat, j: nat)
    requires F.Cut(cuts, len, room) && i < j < |cuts|
    ensures cuts[i] < cuts[j]
  {
    assert F.PieceSize(cuts, j - 1) > 0;
    if i < j - 1 {
      CutsGrow(cuts, len, room, i, j - 1);
    }
  }

  lemma CutEnds(cuts: seq<nat>, len: nat, room: nat)
    requires F.Cut(cuts, len, room)
    ensures |cuts| >= 2 && cuts[0] == 0 && cuts[|cuts| - 1] == len
  {
  }

  /** The fragments of a proper cut are a packet in the sense of the reassembly */
  lemma CutIsDatagram(tunnel: int, sent: seq<Bytes>, data: Bytes, cuts: seq<nat>, room: nat, id: Bytes, src: Bytes,
      dst: Bytes)
    requires |src| == 16 && |dst| == 16 && |id| == 4 && F.Fragments(sent, data, cuts, id, src, dst)
    requires |data| <= 65535 && F.Cut(cuts, |data|, room)
    ensures Cut6(tunnel, sent, data, cuts, id, src, dst).Ok()
    ensures forall i | 0 <= i < |sent| ::
      ReadAs(Cut6(tunnel, sent, data, cuts, id, src, dst), tunnel, sent[i], i) && Sized(Parse6(tunnel, sent[i]).piece)
  {
    hide PieceAs, ReadAs, Parse6, Sized, Datagram.Ok, F.Cut;
    var d := Cut6(tunnel, sent, data, cuts, id, src, dst);
    CutEnds(cuts, |data|, room);
    forall i | 0 <= i < |sent|
      ensures PieceAs(d, data, cuts, i) && ReadAs(d, tunnel, sent[i], i) && Sized(Parse6(tunnel, sent[i]).piece)
    {
      CutPiece(tunnel, sent, data, cuts, id, src, dst, i);
      if i < |sent| - 1 {
        CutPiece(tunnel, sent, data, cuts, id, src, dst, i + 1);
      }
      CutSized(d, tunnel, sent[i], data, cuts, src, dst, i);
    }
    CutIsOk(d, data, cuts, room);
  }

  lemma CutSized(d: Datagram, tunnel: int, packet: Bytes, data: Bytes, cuts: seq<nat>, src: Bytes, dst: Bytes, i: nat)
    requires CutAs(d, data, cuts, src, dst, i) && ReadAs(d, tunnel, packet, i) && cuts[i] % 8 == 0
    requires i + 2 < |cuts| ==> cuts[i + 1] % 8 == 0
    requires cuts[|cuts| - 1] == |data|
    ensures Sized(Parse6(tunnel, packet).piece)
  {
    hide Parse6;
  }

  lemma CutIsOk(d: Datagram, data: Bytes, cuts: seq<nat>, room: nat)
    requires F.Cut(cuts, |data|, room) && |d.pieces| == |d.headers| == |cuts| - 1
    requires forall i | 0 <= i < |d.pieces| :: PieceAs(d, data, cuts, i)
    ensures d.Ok()
  {
    forall i, j | 0 <= i < j < |d.pieces| ensures Before(d.pieces[i], d.pieces[j]) {
      assert PieceAs(d, data, cuts, i) && PieceAs(d, data, cuts, j);
      CutsGrow(cuts, |data|, room, i, j);
      CutsGrow(cuts, |data|, room, i + 1, |cuts| - 1);
      if i + 1 < j {
        CutsGrow(cuts, |data|, room, i + 1, j);
      }
    }
    assert PieceAs(d, data, cuts, 0) && PieceAs(d, data, cuts, |d.pieces| - 1);
    forall i, j | 0 <= i < |d.pieces| - 1 && j == i + 1 ensures d.pieces[j].off == d.pieces[i].End() {
      assert PieceAs(d, data, cuts, i) && PieceAs(d, data, cuts, j);
    }
  }

  lemma {:induction false} CutPayload(d: Datagram, data: Bytes, cuts: seq<nat>, k: nat)
    requires |cuts| == |d.pieces| + 1 && cuts[0] == 0 && k <= |d.pieces|
    requires forall i | 0 <= i < |d.pieces| :: PieceAs(d, data, cuts, i)
    ensures cuts[k] <= |data| && Payload(d.pieces[..k]) == data[..cuts[k]]
  {
    if k > 0 {
      CutPayload(d, data, cuts, k - 1);
      assert PieceAs(d, data, cuts, k - 1);
      assert d.pieces[..k][..k - 1] == d.pieces[..k - 1];
      assert data[..cuts[k]] == data[..cuts[k - 1]] + data[cuts[k - 1]..cuts[k]];
    }
  }

  /** Rebuilt from all its fragments, the packet is the one that would have gone out whole */
  lemma CutRebuilt(tunnel: int, sent: seq<Bytes>, data: Bytes, cuts: seq<nat>, room: nat, id: Bytes, src: Bytes,
      dst: Bytes)
    requires |src| == 16 && |dst| == 16 && |id| == 4 && F.Fragments(sent, data, cuts, id, src, dst)
    requires |data| <= 65535 && F.Cut(cuts, |data|, room)
    ensures var d := Cut6(tunnel, sent, data, cuts, id, src, dst);
      && |d.headers| > 0 && |d.headers[0]| == F.IP6FLEN && Payload(d.pieces) == data
      && Rebuilt6(Train(0, d.headers[0], d.pieces)) == F.Whole(data, src, dst)
  {
    var d := Cut6(tunnel, sent, data, cuts, id, src, dst);
    forall i | 0 <= i < |sent| ensures CutAs(d, data, cuts, src, dst, i) && PieceAs(d, data, cuts, i) {
      CutPiece(tunnel, sent, data, cuts, id, src, dst, i);
    }
    CutPayload(d, data, cuts, |sent|);
    assert d.pieces[..|sent|] == d.pieces && data[..|data|] == data;
    assert CutAs(d, data, cuts, src, dst, 0);
  }

  /** Fragments of one packet, in any order, repeated at will and among any other traffic that does
      not use their identification: the fragment that supplies the last missing piece, and none
      before it, makes the queue hand out the packet exactly as it would have been sent whole. */
  lemma RoundTrip(tunnel: int, sent: seq<Bytes>, data: Bytes, cuts: seq<nat>, room: nat, id: Bytes, src: Bytes,
      dst: Bytes, 
                  view: map<TrainKey, Train>, arrivals: seq<Arrival>, i: nat)
    requires |src| == 16 && |dst| == 16 && |id| == 4 && F.Fragments(sent, data, cuts, id, src, dst)
    requires |data| <= 65535 && F.Cut(cuts, |data|, room) && i < |sent| && |sent[i]| >= F.IP6FLEN
    requires var d := Cut6(tunnel, sent, data, cuts, id, src, dst);
      && d.Ok() && ViewOk(view) && d.key !in view
      && (forall a <- arrivals :: Fair(d, a)) && Got(d, arrivals) != Whole(d)
    ensures var d, a := Cut6(tunnel, sent, data, cuts, id, src, dst), Parse6(tunnel, sent[i]);
      var v := After(Run(view, arrivals), a);
      && (Complete(v.pieces) <==> Got(d, arrivals + [a]) == Whole(d))
      && (Complete(v.pieces) ==> |v.header| == F.IP6FLEN && Rebuilt6(v) == F.Whole(data, src, dst)
                                 && |Payload(v.pieces)| <= IPMAXLEN && d.key !in Run(view, arrivals + [a]))
  {
    hide Complete, Fair, ViewOk, Rebuilt6;
    var d := Cut6(tunnel, sent, data, cuts, id, src, dst);
    CutIsDatagram(tunnel, sent, data, cuts, room, id, src, dst);
    CutRebuilt(tunnel, sent, data, cuts, room, id, src, dst);
    CutPiece(tunnel, sent, data, cuts, id, src, dst, i);
    AnyOrder(d, view, arrivals, i);
  }

  /** defrag6 on one more of the fragments, when the limits let it in: it succeeds exactly on the last one
      missing, and what it then leaves is the packet that would have gone out whole.  The queue is again
      one that has had these arrivals, so the next call may follow. */
  method Receive(q: Queue, tunnel: int, sent: seq<Bytes>, ghost data: Bytes, ghost cuts: seq<nat>, ghost room: nat,
                 ghost id: Bytes, ghost src: Bytes, ghost dst: Bytes,
                 ghost view: map<TrainKey, Train>, ghost arrivals: seq<Arrival>, i: nat, buf6: array<Byte>)
    returns (ok: bool, newLen: nat)
    requires |src| == 16 && |dst| == 16 && |id| == 4 && F.Fragments(sent, data, cuts, id, src, dst)
    requires |data| <= 65535 && F.Cut(cuts, |data|, room) && i < |sent| && F.IP6FLEN <= |sent[i]| <= buf6.Length
    requires q.Valid() && Headed(q.view, F.IP6FLEN) && F.IP6HDRLEN + IPMAXLEN <= buf6.Length
    requires q.view == Run(view, arrivals) && Admitted(q, Parse6(tunnel, sent[i]))
    requires var d := Cut6(tunnel, sent, data, cuts, id, src, dst);
      && d.Ok() && ViewOk(view) && d.key !in view
      && (forall a <- arrivals :: Fair(d, a)) && Got(d, arrivals) != Whole(d)
    modifies q, q.heads, buf6
    ensures q.Valid() && Headed(q.view, F.IP6FLEN) && q.view == Run(view, arrivals + [Parse6(tunnel, sent[i])])
    ensures ok <==> Got(Cut6(tunnel, sent, data, cuts, id, src, dst), arrivals + [Parse6(tunnel, sent[i])])
                    == Whole(Cut6(tunnel, sent, data, cuts, id, src, dst))
    ensures ok ==> newLen <= buf6.Length && buf6[..newLen] == F.Whole(data, src, dst)
  {
    hide Complete, Fair, ViewOk, Rebuilt6, Headed, Admitted, Parse6, After, Step, Cut6, F.Fragments, F.Cut, Got, Whole;
    RoundTrip(tunnel, sent, data, cuts, room, id, src, dst, view, arrivals, i);
    RunMore(view, arrivals, Parse6(tunnel, sent[i]));
    F.Store(buf6, 0, sent[i]);
    assert buf6[..|sent[i]|] == sent[i];
    ok, newLen := Defrag6(q, tunnel, buf6, |sent[i]|);
  }

  lemma RunMore(view: map<TrainKey, Train>, arrivals: seq<Arrival>, a: Arrival)
    ensures Run(view, arrivals + [a]) == Step(Run(view, arrivals), a)
  {
    assert (arrivals + [a])[..|arrivals|] == arrivals;
  }
}
