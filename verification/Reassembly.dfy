/**
  Reassembly of IPv6 tunnel fragments and of IPv4 fragments: the list each train of
  fragments keeps, when a fragment is taken, when the train is complete, and what
  any order of arrivals adds up to.
 */
module Reassembly {
  import opened NatEntry
  import opened Checksum
  import opened Options

  /** struct frag on a fraglist */
  datatype Piece = Piece(off: nat, more: bool, data: Bytes) {
    function End(): nat { off + |data| }
  }

  /** What fragments of one packet have in common.  IPv6 fragments match on tunnel, protocol
      and identification alone, so their addrs is empty. */
  datatype TrainKey = TrainKey(tunnel: int, proto: Byte, id: Bytes, addrs: Bytes)

  /** The head of a fraglist: offset and header of the first arrival or, once it is there, of offset 0 */
  datatype Train = Train(off: nat, header: Bytes, pieces: seq<Piece>)

  datatype Arrival = Arrival(key: TrainKey, header: Bytes, piece: Piece)

  // ---------- What a train holds ----------

  /** r may stand before p: they do not overlap and r is not the end */
  predicate Before(r: Piece, p: Piece) { r.off < p.off && r.more && r.End() <= p.off }

  /** Strictly sorted, not overlapping, only the last one may end the packet */
  ghost predicate ListOk(pieces: seq<Piece>) {
    forall i, j | 0 <= i < j < |pieces| :: Before(pieces[i], pieces[j])
  }

  /** p neither repeats, overlaps nor contradicts what is there */
  ghost predicate Fits(pieces: seq<Piece>, p: Piece) {
    forall r <- pieces :: Before(r, p) || Before(p, r)
  }

  /** The offset says whose header it is */
  ghost predicate TrainOk(v: Train) {
    && ListOk(v.pieces) && |v.pieces| > 0
    && (v.off == 0 <==> v.pieces[0].off == 0)
  }

  /** No byte missing from 0 to the end of the packet */
  ghost predicate Complete(pieces: seq<Piece>) {
    && |pieces| > 0 && pieces[0].off == 0 && !pieces[|pieces| - 1].more
    && forall i, j | 0 <= i < |pieces| - 1 && j == i + 1 :: pieces[j].off == pieces[i].End()
  }

  function Payload(pieces: seq<Piece>): Bytes {
    if |pieces| == 0 then [] else Payload(pieces[..|pieces| - 1]) + pieces[|pieces| - 1].data
  }

  /** Where a fragment with this offset belongs in a sorted list */
  function Position(pieces: seq<Piece>, off: nat): (k: nat)
    ensures k <= |pieces|
  {
    if |pieces| == 0 || pieces[|pieces| - 1].off < off then |pieces| else Position(pieces[..|pieces| - 1], off)
  }

  lemma {:induction false} PositionIs(pieces: seq<Piece>, off: nat, k: nat)
    requires ListOk(pieces) && k <= |pieces|
    requires (forall j | 0 <= j < k :: pieces[j].off < off) && (k < |pieces| ==> off <= pieces[k].off)
    ensures Position(pieces, off) == k
  {
    if k < |pieces| {
      assert pieces[|pieces| - 1].off >= off;
      PositionIs(pieces[..|pieces| - 1], off, k);
    }
  }

  /** A train with one fragment more */
  function Added(v: Train, a: Arrival): Train {
    var k := Position(v.pieces, a.piece.off);
    var pieces := v.pieces[..k] + [a.piece] + v.pieces[k..];
    if k == 0 && a.piece.off == 0 && v.off != 0 then Train(0, a.header, pieces) else v.(pieces := pieces)
  }

  function Fresh(a: Arrival): Train { Train(a.piece.off, a.header, []) }

  function Start(view: map<TrainKey, Train>, a: Arrival): Train {
    if a.key in view then view[a.key] else Fresh(a)
  }

  /** What the train is after an arrival that the limits let through */
  ghost function After(view: map<TrainKey, Train>, a: Arrival): Train {
    var v := Start(view, a);
    if Fits(v.pieces, a.piece) then Added(v, a) else v
  }

  /** A complete train leaves the queue */
  ghost function Step(view: map<TrainKey, Train>, a: Arrival): map<TrainKey, Train> {
    if Complete(After(view, a).pieces) then view - {a.key} else view[a.key := After(view, a)]
  }

  ghost predicate ViewOk(view: map<TrainKey, Train>) {
    forall k <- view :: TrainOk(view[k]) && !Complete(view[k].pieces)
  }

  lemma AddedOk(v: Train, a: Arrival)
    requires ListOk(v.pieces) && Fits(v.pieces, a.piece)
    requires if |v.pieces| == 0 then v.off == a.piece.off else TrainOk(v)
    ensures TrainOk(Added(v, a))
    ensures forall p :: p in Added(v, a).pieces <==> p in v.pieces || p == a.piece
    ensures a.piece.off != 0 ==> Added(v, a).off == v.off && Added(v, a).header == v.header
    ensures a.piece.off == 0 ==> Added(v, a).off == 0 && Added(v, a).header == if v.off != 0 then a.header else v.header
  {
    hide Position, ListOk, Fits, Before;
    var k := Position(v.pieces, a.piece.off);
    PositionFacts(v.pieces, a.piece);
    InsertedOk(v.pieces, k, a.piece);
    Inserted(v.pieces, k, a.piece);
    FirstOffset(v.pieces, k, a.piece);
  }

  lemma InsertedOk(s: seq<Piece>, k: nat, p: Piece)
    requires ListOk(s) && k <= |s|
    requires (forall j | 0 <= j < k :: Before(s[j], p)) && (forall j | k <= j < |s| :: Before(p, s[j]))
    ensures ListOk(s[..k] + [p] + s[k..])
  {
    hide Before;
    var t := s[..k] + [p] + s[k..];
    assert forall i | 0 <= i < |t| :: t[i] == if i < k then s[i] else if i == k then p else s[i - 1];
  }

  lemma Inserted<T>(s: seq<T>, k: nat, p: T)
    requires k <= |s|
    ensures forall q :: q in s[..k] + [p] + s[k..] <==> q in s || q == p
  {
    assert s == s[..k] + s[k..];
  }

  lemma FirstOffset(s: seq<Piece>, k: nat, p: Piece)
    requires k <= |s|
    requires (forall j | 0 <= j < k :: Before(s[j], p)) && (forall j | k <= j < |s| :: Before(p, s[j]))
    ensures (s[..k] + [p] + s[k..])[0].off == if k == 0 then p.off else s[0].off
    ensures p.off == 0 ==> k == 0
    ensures k == 0 && |s| > 0 ==> s[0].off > p.off
  {
  }

  lemma {:induction false} PositionFacts(pieces: seq<Piece>, p: Piece)
    requires ListOk(pieces) && Fits(pieces, p)
    ensures var k := Position(pieces, p.off);
      && (forall j | 0 <= j < k :: Before(pieces[j], p)) && (forall j | k <= j < |pieces| :: Before(p, pieces[j]))
  {
    if |pieces| > 0 {
      assert pieces[|pieces| - 1] in pieces;
      if pieces[|pieces| - 1].off >= p.off {
        PositionFacts(pieces[..|pieces| - 1], p);
      }
    }
  }

  lemma StepKeepsViewOk(view: map<TrainKey, Train>, a: Arrival)
    requires ViewOk(view)
    ensures ViewOk(Step(view, a)) && TrainOk(After(view, a))
  {
    var v := if a.key in view then view[a.key] else Fresh(a);
    if Fits(v.pieces, a.piece) {
      AddedOk(v, a);
    }
  }

  // ---------- Any order of arrivals ----------

  /** A packet as its sender cut it: pieces in order, each with its header */
  datatype Datagram = Datagram(key: TrainKey, pieces: seq<Piece>, headers: seq<Bytes>) {
    ghost predicate Ok() {
      |headers| == |pieces| && ListOk(pieces) && Complete(pieces)
    }

    function Part(i: nat): Arrival
      requires |headers| == |pieces| && i < |pieces|
    {
      Arrival(key, headers[i], pieces[i])
    }
  }

  /** An arrival that is not a fragment of another packet under this one's key */
  ghost predicate Fair(d: Datagram, a: Arrival)
    requires d.Ok()
  {
    a.key == d.key ==> exists i: nat | i < |d.pieces| :: a == d.Part(i)
  }

  /** The pieces of the packet among the arrivals */
  function Got(d: Datagram, arrivals: seq<Arrival>): set<Piece> {
    set a <- arrivals | a.key == d.key :: a.piece
  }

  function Whole(d: Datagram): set<Piece> {
    set p <- d.pieces
  }

  /** Which of the packet's pieces the queue holds */
  ghost predicate Holds(d: Datagram, view: map<TrainKey, Train>, got: set<Piece>)
    requires d.Ok()
  {
    && (d.key in view <==> got != {})
    && (d.key in view ==>
      && (forall p :: p in view[d.key].pieces <==> p in got)
      && (view[d.key].off == 0 ==> view[d.key].header == d.headers[0]))
  }

  lemma {:induction false} SameList(a: seq<Piece>, b: seq<Piece>)
    requires ListOk(a) && ListOk(b) && forall p :: p in a <==> p in b
    ensures a == b
  {
    assert |a| > 0 ==> a[0] in a;
    assert |b| > 0 ==> b[0] in b;
    if |a| > 0 {
      var i :| 0 <= i < |b| && b[i] == a[0];
      var j :| 0 <= j < |a| && a[j] == b[0];
      assert a[0] == b[0];
      forall p ensures p in a[1..] <==> p in b[1..] {
        if p in a[1..] {
          var k :| 1 <= k < |a| && a[k] == p;
          assert p in b && p != b[0];
          var l :| 0 <= l < |b| && b[l] == p;
          assert b[1..][l - 1] == p;
        }
        if p in b[1..] {
          var k :| 1 <= k < |b| && b[k] == p;
          assert p in a && p != a[0];
          var l :| 0 <= l < |a| && a[l] == p;
          assert a[1..][l - 1] == p;
        }
      }
      SameList(a[1..], b[1..]);
      assert a == [a[0]] + a[1..] && b == [b[0]] + b[1..];
    }
  }

  /** A gapless list of a packet's pieces from 0 to an end is all of them */
  lemma CompleteIsWhole(d: Datagram, pieces: seq<Piece>)
    requires d.Ok() && ListOk(pieces) && Complete(pieces) && forall p <- pieces :: p in d.pieces
    ensures pieces == d.pieces
  {
    var i := 0;
    while i < |pieces| && i < |d.pieces|
      invariant i <= |pieces| && i <= |d.pieces| && forall j | 0 <= j < i :: pieces[j] == d.pieces[j]
    {
      assert pieces[i].off == if i == 0 then 0 else d.pieces[i - 1].End();
      SameOffset(d.pieces, pieces[i], i);
      i := i + 1;
    }
    LastEnds(pieces, d.pieces);
  }

  lemma SameOffset(whole: seq<Piece>, p: Piece, i: nat)
    requires ListOk(whole) && i < |whole| && p in whole && p.off == whole[i].off
    ensures p == whole[i]
  {
  }

  /** Of two complete lists that agree as far as both go, neither goes further */
  lemma LastEnds(a: seq<Piece>, b: seq<Piece>)
    requires ListOk(a) && ListOk(b) && Complete(a) && Complete(b)
    requires forall j | 0 <= j < |a| && j < |b| :: a[j] == b[j]
    ensures a == b
  {
    EndIsLast(a);
    EndIsLast(b);
  }

  lemma EndIsLast(s: seq<Piece>)
    requires ListOk(s)
    ensures forall i | 0 <= i < |s| && !s[i].more :: i == |s| - 1
  {
    assert forall i | 0 <= i < |s| - 1 :: Before(s[i], s[|s| - 1]);
  }

  // ---------- One arrival, and any number of them ----------

  lemma HeldFits(d: Datagram, pieces: seq<Piece>, i: nat)
    requires d.Ok() && i < |d.pieces| && forall p <- pieces :: p in d.pieces
    ensures Fits(pieces, d.pieces[i]) <==> d.pieces[i] !in pieces
  {
    forall r | r in pieces && r != d.pieces[i]
      ensures Before(r, d.pieces[i]) || Before(d.pieces[i], r)
    {
      var j :| 0 <= j < |d.pieces| && d.pieces[j] == r;
    }
  }

  /** A fragment of the packet is held from its arrival on.  The queue gives the packet up
      exactly when the last missing one arrives, and then it is whole. */
  lemma PartArrives(d: Datagram, view: map<TrainKey, Train>, got: set<Piece>, i: nat)
    requires d.Ok() && ViewOk(view) && Holds(d, view, got) && got < Whole(d) && i < |d.pieces|
    ensures var v, got' := After(view, d.Part(i)), got + {d.pieces[i]};
      && (Complete(v.pieces) <==> got' == Whole(d))
      && (got' == Whole(d) ==> v == Train(0, d.headers[0], d.pieces) && Holds(d, Step(view, d.Part(i)), {}))
      && (got' != Whole(d) ==> Holds(d, Step(view, d.Part(i)), got'))
  {
    hide ListOk, Complete, Fits, Before, Position;
    var a := d.Part(i);
    var v := if a.key in view then view[a.key] else Fresh(a);
    var after := After(view, a);
    HeldFits(d, v.pieces, i);
    StepKeepsViewOk(view, a);
    Firsts(d, i);
    if a.piece !in v.pieces {
      EmptyOk(a);
      AddedOk(v, a);
    }
    assert forall p :: p in after.pieces <==> p in got || p == a.piece;
    if Complete(after.pieces) {
      CompleteIsWhole(d, after.pieces);
    }
    if got + {a.piece} == Whole(d) {
      SameList(after.pieces, d.pieces);
      Firsts(d, 0);
    }
  }

  lemma EmptyOk(a: Arrival)
    ensures ListOk(Fresh(a).pieces) && Fits(Fresh(a).pieces, a.piece)
  {
  }

  /** Only the first piece starts at 0 */
  lemma Firsts(d: Datagram, i: nat)
    requires d.Ok() && i < |d.pieces|
    ensures d.pieces[i].off == 0 <==> i == 0
  {
    assert i > 0 ==> Before(d.pieces[0], d.pieces[i]);
  }

  lemma OtherArrives(d: Datagram, view: map<TrainKey, Train>, got: set<Piece>, a: Arrival)
    requires d.Ok() && Holds(d, view, got) && a.key != d.key
    ensures Holds(d, Step(view, a), got)
  {
  }

  /** The queue after the arrivals, oldest first */
  ghost function Run(view: map<TrainKey, Train>, arrivals: seq<Arrival>): map<TrainKey, Train> {
    if |arrivals| == 0 then view else Step(Run(view, arrivals[..|arrivals| - 1]), arrivals[|arrivals| - 1])
  }

  lemma {:induction false} RunKeepsViewOk(view: map<TrainKey, Train>, arrivals: seq<Arrival>)
    requires ViewOk(view)
    ensures ViewOk(Run(view, arrivals))
  {
    if |arrivals| > 0 {
      RunKeepsViewOk(view, arrivals[..|arrivals| - 1]);
      StepKeepsViewOk(Run(view, arrivals[..|arrivals| - 1]), arrivals[|arrivals| - 1]);
    }
  }

  lemma GotOneMore(d: Datagram, arrivals: seq<Arrival>)
    requires |arrivals| > 0
    ensures var a, before := arrivals[|arrivals| - 1], Got(d, arrivals[..|arrivals| - 1]);
      Got(d, arrivals) == if a.key == d.key then before + {a.piece} else before
  {
    assert arrivals == arrivals[..|arrivals| - 1] + [arrivals[|arrivals| - 1]];
  }

  /** As long as a piece is missing, the queue holds exactly the pieces that came,
      whatever their order, their repetitions and the traffic between them. */
  lemma {:induction false} HeldAfterRun(d: Datagram, view: map<TrainKey, Train>, arrivals: seq<Arrival>)
    requires d.Ok() && ViewOk(view) && d.key !in view
    requires forall a <- arrivals :: Fair(d, a)
    requires Got(d, arrivals) != Whole(d)
    ensures Got(d, arrivals) < Whole(d)
    ensures ViewOk(Run(view, arrivals)) && Holds(d, Run(view, arrivals), Got(d, arrivals))
  {
    if |arrivals| > 0 {
      var a, before := arrivals[|arrivals| - 1], arrivals[..|arrivals| - 1];
      GotOneMore(d, arrivals);
      assert Fair(d, a);
      GotIsPart(d, arrivals);
      GotIsPart(d, before);
      HeldAfterRun(d, view, before);
      RunKeepsViewOk(view, arrivals);
      if a.key == d.key {
        var i: nat :| i < |d.pieces| && a == d.Part(i);
        PartArrives(d, Run(view, before), Got(d, before), i);
      } else {
        OtherArrives(d, Run(view, before), Got(d, before), a);
      }
    }
  }

  lemma GotIsPart(d: Datagram, arrivals: seq<Arrival>)
    requires d.Ok() && forall a <- arrivals :: Fair(d, a)
    ensures Got(d, arrivals) <= Whole(d)
  {
    forall a | a in arrivals && a.key == d.key ensures a.piece in Whole(d) {
      var i: nat :| i < |d.pieces| && a == d.Part(i);
    }
  }

  /** The whole run up to and including one more fragment of the packet: it completes the packet
      if and only if it was the last one missing, and then the train is the packet as it was cut. */
  lemma AnyOrder(d: Datagram, view: map<TrainKey, Train>, arrivals: seq<Arrival>, i: nat)
    requires d.Ok() && ViewOk(view) && d.key !in view && i < |d.pieces|
    requires forall a <- arrivals :: Fair(d, a)
    requires Got(d, arrivals) != Whole(d)
    ensures var v := After(Run(view, arrivals), d.Part(i));
      && (Complete(v.pieces) <==> Got(d, arrivals + [d.Part(i)]) == Whole(d))
      && (Complete(v.pieces) ==> v == Train(0, d.headers[0], d.pieces) && d.key !in Run(view, arrivals + [d.Part(i)]))
  {
    var all := arrivals + [d.Part(i)];
    assert all[..|all| - 1] == arrivals;
    HeldAfterRun(d, view, arrivals);
    GotOneMore(d, all);
    PartArrives(d, Run(view, arrivals), Got(d, arrivals), i);
  }
}
