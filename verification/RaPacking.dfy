/**
  radvd's list of options and how they are packed into router advertisements.
 */
module RaPacking {
  import opened SafeBuffer

  // ---------- The list of options ----------

  class Node {
    var sb: Buffer
    var next: Node?

    constructor ()
      ensures fresh(sb) && fresh(sb.data) && sb.Valid() && sb.Contents() == [] && next == null
    {
      sb := new Buffer();
      next := null;
    }
  }

  ghost function Buffers(nodes: seq<Node>): set<Buffer>
    reads nodes
  {
    set n | n in nodes :: n.sb
  }

  ghost function Arrays(nodes: seq<Node>): set<array<Byte>>
    reads nodes, Buffers(nodes)
  {
    set n | n in nodes :: n.sb.data
  }

  /** The nodes are linked one to the next, have buffers of their own, and these hold the options */
  ghost predicate Holds(nodes: seq<Node>, options: seq<Bytes>)
    reads nodes, Buffers(nodes), Arrays(nodes)
  {
    && |nodes| == |options| > 0
    && (forall i | 0 <= i < |nodes| :: nodes[i].next == if i + 1 < |nodes| then nodes[i + 1] else null)
    && (forall i | 0 <= i < |nodes| :: nodes[i].sb.Valid() && nodes[i].sb.Contents() == options[i])
    && forall i, j | 0 <= i < j < |nodes| ::
      nodes[i] != nodes[j] && nodes[i].sb != nodes[j].sb && nodes[i].sb.data != nodes[j].sb.data
  }

  /** A new list has one node, and nothing in it */
  method NewList() returns (root: Node, ghost nodes: seq<Node>)
    ensures fresh(root) && fresh(root.sb) && fresh(root.sb.data) && nodes == [root] && Holds(nodes, [[]])
  {
    root := new Node();
    nodes := [root];
  }

  method Link(cur: Node, ghost nodes: seq<Node>, ghost options: seq<Bytes>)
    returns (tail: Node, ghost nodes': seq<Node>)
    requires Holds(nodes, options) && cur == nodes[|nodes| - 1]
    modifies cur`next
    ensures fresh(tail) && fresh(tail.sb) && fresh(tail.sb.data) && nodes' == nodes + [tail]
    ensures Holds(nodes', options + [[]])
  {
    tail := new Node();
    cur.next := tail;
    nodes' := nodes + [tail];
  }

  /** safe_buffer_list_append: a tail with nothing in it */
  method ListAppend(cur: Node, ghost nodes: seq<Node>, ghost options: seq<Bytes>)
    returns (tail: Node, ghost nodes': seq<Node>)
    requires Holds(nodes, options) && cur == nodes[|nodes| - 1]
    modifies cur`next
    ensures nodes' == (if options[|options| - 1] == [] then nodes else nodes + [tail]) && tail == nodes'[|nodes'| - 1]
    ensures Holds(nodes', if options[|options| - 1] == [] then options else options + [[]])
    ensures options[|options| - 1] != [] ==> fresh(tail) && fresh(tail.sb) && fresh(tail.sb.data)
  {
    if cur.sb.used > 0 {
      tail, nodes' := Link(cur, nodes, options);
    } else {
      tail, nodes' := cur, nodes;
    }
  }

  /** Bytes for a tail that had none */
  method Fill(tail: Node, option: Bytes, ghost nodes: seq<Node>, ghost options: seq<Bytes>) returns (alive: bool)
    requires Holds(nodes, options + [[]]) && tail == nodes[|nodes| - 1]
    modifies tail.sb, tail.sb.data
    ensures alive <==> |option| <= MAX
    ensures alive ==> Holds(nodes, options + [option]) && (tail.sb.data == old(tail.sb.data) || fresh(tail.sb.data))
  {
    assert nodes[|options|].sb.Contents() == (options + [[]])[|options|];
    alive := tail.sb.Append(option);
  }

  /** A list has a node before it has an option */
  function Listed(lists: seq<Bytes>): seq<Bytes> { if lists == [] then [[]] else lists }

  lemma LastListed(lists: seq<Bytes>)
    requires forall o <- lists :: o != []
    ensures if lists == [] then Listed(lists) == lists + [[]] == [[]]
            else Listed(lists) == lists && lists[|lists| - 1] != []
  {
    assert lists != [] ==> lists[|lists| - 1] in lists;
  }

  /** An option of a list: the last node is used while it is empty */
  method AddListed(cur: Node, option: Bytes, ghost nodes: seq<Node>, ghost lists: seq<Bytes>)
    returns (alive: bool, tail: Node, ghost nodes': seq<Node>)
    requires Holds(nodes, Listed(lists)) && cur == nodes[|nodes| - 1] && forall o <- lists :: o != []
    modifies cur`next, cur.sb, cur.sb.data
    ensures alive <==> |option| <= MAX
    ensures alive ==> Holds(nodes', lists + [option]) && tail == nodes'[|nodes'| - 1] && nodes' != [] && nodes <= nodes'
    ensures alive ==> (tail.sb.data == old(cur.sb.data) || fresh(tail.sb.data))
                      && if tail == cur then tail.sb == old(cur.sb) else fresh(tail) && fresh(tail.sb)
  {
    hide Holds;
    FirstNode(nodes, Listed(lists));
    LastListed(lists);
    tail, nodes' := ListAppend(cur, nodes, Listed(lists));
    FirstNode(nodes', lists + [[]]);
    alive := Fill(tail, option, nodes', lists);
  }

  /** An option that comes alone: it always gets a node of its own */
  method AddSingle(cur: Node, option: Bytes, ghost nodes: seq<Node>, ghost options: seq<Bytes>)
    returns (alive: bool, tail: Node, ghost nodes': seq<Node>)
    requires Holds(nodes, options) && cur == nodes[|nodes| - 1]
    modifies cur`next
    ensures alive <==> |option| <= MAX
    ensures alive ==> Holds(nodes', options + [option]) && tail == nodes'[|nodes'| - 1] && nodes' == nodes + [tail]
    ensures alive ==> fresh(tail)
  {
    tail, nodes' := Link(cur, nodes, options);
    alive := Fill(tail, option, nodes', options);
  }

  /** build_ra_options: the list holds the options in the order they are built in, unless one is larger than any
      buffer */
  method BuildRaOptions(lists: seq<Bytes>, singles: seq<Bytes>)
    returns (alive: bool, root: Node, ghost nodes: seq<Node>)
    requires forall o <- lists :: o != []
    ensures alive <==> forall o <- lists + singles :: |o| <= MAX
    ensures alive ==> Holds(nodes, Listed(lists) + singles) && root == nodes[0]
  {
    hide Holds, Listed;
    assert forall o :: o in lists + singles <==> o in lists || o in singles;
    var tail;
    alive, root, tail, nodes := AddLists(lists);
    if alive {
      FirstNode(nodes, Listed(lists));
      alive, tail, nodes := AddSingles(tail, singles, nodes, Listed(lists));
    }
  }

  lemma ListedNone()
    ensures Listed([]) == [[]]
  {
  }

  lemma ListedMore(lists: seq<Bytes>, i: nat)
    requires i < |lists|
    ensures lists[..i + 1] == lists[..i] + [lists[i]] && Listed(lists[..i + 1]) == lists[..i + 1]
  {
  }

  method AddLists(lists: seq<Bytes>) returns (alive: bool, root: Node, cur: Node, ghost nodes: seq<Node>)
    requires forall o <- lists :: o != []
    ensures alive <==> forall o <- lists :: |o| <= MAX
    ensures alive ==> Holds(nodes, Listed(lists)) && root == nodes[0] && cur == nodes[|nodes| - 1]
    ensures alive ==> fresh(cur)
  {
    hide Holds, Listed;
    ListedNone();
    root, nodes := NewList();
    cur := root;
    for i := 0 to |lists|
      invariant Holds(nodes, Listed(lists[..i])) && |nodes| > 0 && cur == nodes[|nodes| - 1] && root == nodes[0]
      invariant fresh(cur) && fresh(cur.sb) && fresh(cur.sb.data)
      invariant forall o <- lists[..i] :: |o| <= MAX
    {
      assert forall o <- lists[..i] :: o in lists;
      alive, cur, nodes := AddListed(cur, lists[i], nodes, lists[..i]);
      if !alive {
        assert lists[i] in lists;
        return;
      }
      ListedMore(lists, i);
    }
    assert lists[..|lists|] == lists;
    alive := true;
  }

  method AddSingles(cur: Node, singles: seq<Bytes>, ghost nodes: seq<Node>, ghost options: seq<Bytes>)
    returns (alive: bool, tail: Node, ghost nodes': seq<Node>)
    requires Holds(nodes, options) && cur == nodes[|nodes| - 1]
    modifies cur`next
    ensures alive <==> forall o <- singles :: |o| <= MAX
    ensures alive ==> Holds(nodes', options + singles) && nodes != [] && nodes <= nodes'
  {
    hide Holds;
    tail, nodes' := cur, nodes;
    FirstNode(nodes, options);
    assert options + singles[..0] == options;
    for i := 0 to |singles|
      invariant Holds(nodes', options + singles[..i]) && |nodes'| > 0 && tail == nodes'[|nodes'| - 1]
      invariant nodes <= nodes'
      invariant tail != cur ==> fresh(tail)
      invariant forall o <- singles[..i] :: |o| <= MAX
    {
      alive, tail, nodes' := AddSingle(tail, singles[i], nodes', options + singles[..i]);
      if !alive {
        return;
      }
      assert singles[..i + 1] == singles[..i] + [singles[i]];
      assert options + singles[..i + 1] == options + singles[..i] + [singles[i]];
    }
    assert singles[..|singles|] == singles;
    alive := true;
  }

  // ---------- Packing ----------

  function Flat(options: seq<Bytes>): Bytes {
    if options == [] then [] else Flat(options[..|options| - 1]) + options[|options| - 1]
  }

  /** How many bytes the options from i on and before j have */
  function Size(options: seq<Bytes>, i: nat, j: nat): (n: nat)
    requires i <= j <= |options|
    decreases j
  {
    if i == j then 0 else Size(options, i, j - 1) + |options[j - 1]|
  }

  lemma {:induction false} FlatSize(options: seq<Bytes>, i: nat, j: nat)
    requires i <= j <= |options|
    ensures |Flat(options[i..j])| == Size(options, i, j)
    ensures i < j ==> Flat(options[i..j]) == Flat(options[i..j - 1]) + options[j - 1]
  {
    if i < j {
      assert options[i..j][..j - i - 1] == options[i..j - 1];
      FlatSize(options, i, j - 1);
    }
  }

  lemma {:induction false} FlatJoin(a: seq<Bytes>, b: seq<Bytes>)
    ensures Flat(a + b) == Flat(a) + Flat(b)
  {
    if b == [] {
      assert a + b == a;
    } else {
      assert (a + b)[..|a + b| - 1] == a + b[..|b| - 1];
      FlatJoin(a, b[..|b| - 1]);
      Assoc(Flat(a), Flat(b[..|b| - 1]), b[|b| - 1]);
    }
  }

  lemma Assoc(a: Bytes, b: Bytes, c: Bytes)
    ensures (a + b) + c == a + (b + c)
  {
  }

  lemma {:induction false} SizeWithin(options: seq<Bytes>, i: nat, i': nat, j': nat, j: nat)
    requires i <= i' <= j' <= j <= |options|
    ensures Size(options, i', j') <= Size(options, i, j)
    decreases j
  {
    if j' < j {
      SizeWithin(options, i, i', j', j - 1);
    } else if i' < j {
      SizeWithin(options, i, i', j - 1, j - 1);
    }
  }

  /** The options an advertisement carries are within the limit, or there is only one */
  predicate Within(options: seq<Bytes>, header: nat, max: nat, i: nat, j: nat) {
    i < j <= |options| && (header + Size(options, i, j) <= max || j == i + 1)
  }

  /** Where each advertisement's options begin, and at last where they end: all options, in order */
  predicate Packing(options: seq<Bytes>, header: nat, max: nat, cuts: seq<nat>) {
    && cuts != [] && cuts[0] == 0 && cuts[|cuts| - 1] == |options|
    && forall k | 0 <= k < |cuts| - 1 :: Within(options, header, max, cuts[k], cuts[k + 1])
  }

  /** One that takes all it can each time */
  predicate Greedy(options: seq<Bytes>, header: nat, max: nat, cuts: seq<nat>) {
    && cuts != [] && cuts[0] == 0
    && forall k | 0 <= k < |cuts| - 1 ::
      Within(options, header, max, cuts[k], cuts[k + 1]) && Full(options, header, max, cuts[k], cuts[k + 1])
  }

  predicate Full(options: seq<Bytes>, header: nat, max: nat, i: nat, j: nat) {
    i <= j < |options| ==> header + Size(options, i, j + 1) > max
  }

  /** However else the options are packed in order, no advertisement of that packing begins behind the greedy one's */
  lemma {:induction false} StaysAhead(options: seq<Bytes>, header: nat, max: nat, cuts: seq<nat>, other: seq<nat>,
      k: nat)
    requires Greedy(options, header, max, cuts) && Packing(options, header, max, other) && k < |cuts| && k < |other|
    ensures other[k] <= cuts[k] <= |options|
  {
    if k > 0 {
      StaysAhead(options, header, max, cuts, other, k - 1);
      assert Within(options, header, max, cuts[k - 1], cuts[k]) && Within(options, header, max, other[k - 1], other[k]);
      assert Full(options, header, max, cuts[k - 1], cuts[k]);
      if other[k] > cuts[k] {
        SizeWithin(options, other[k - 1], cuts[k - 1], cuts[k] + 1, other[k]);
      }
    }
  }

  /** No packing that keeps the order of the options takes fewer advertisements */
  lemma FewestAdvertisements(options: seq<Bytes>, header: nat, max: nat, cuts: seq<nat>, other: seq<nat>)
    requires Greedy(options, header, max, cuts) && cuts[|cuts| - 1] == |options| && Packing(options, header, max, other)
    ensures |cuts| <= |other|
  {
    if |other| < |cuts| {
      var k := |other| - 1;
      assert Within(options, header, max, cuts[k], cuts[k + 1]);
      StaysAhead(options, header, max, cuts, other, k);
    }
  }

  // ---------- An empty first node ----------

  /** All options are in some advertisement */
  predicate Complete(options: seq<Bytes>, cuts: seq<nat>) { cuts != [] && cuts[|cuts| - 1] == |options| }

  /** A header goes out without options exactly when the first node is empty and nothing fits beside the header */
  lemma HeaderOnly(options: seq<Bytes>, header: nat, max: nat, cuts: seq<nat>, k: nat)
    requires Greedy(options, header, max, cuts) && Complete(options, cuts) && k < |cuts| - 1
    requires forall i | 1 <= i < |options| :: options[i] != []
    ensures cuts[k] <= cuts[k + 1] <= |options|
    ensures Flat(options[cuts[k]..cuts[k + 1]]) == [] <==>
            k == 0 && options[0] == [] && (|options| == 1 || header + |options[1]| > max)
  {
    hide Flat;
    var i, j := cuts[k], cuts[k + 1];
    assert Within(options, header, max, i, j) && Full(options, header, max, i, j);
    FlatSize(options, i, j);
    Later(options, header, max, cuts, k);
    if i > 0 {
      SizeWithin(options, i, i, i + 1, j);
    } else if j >= 2 {
      SizeWithin(options, 0, 1, 2, j);
    } else if |options| >= 2 {
      TwoSizes(options);
    }
  }

  /** Only the first advertisement begins with the first option */
  lemma {:induction false} Later(options: seq<Bytes>, header: nat, max: nat, cuts: seq<nat>, k: nat)
    requires Greedy(options, header, max, cuts) && k < |cuts|
    ensures cuts[k] == 0 <==> k == 0
  {
    if k > 0 {
      Later(options, header, max, cuts, k - 1);
      assert Within(options, header, max, cuts[k - 1], cuts[k]);
    }
  }

  lemma TwoSizes(options: seq<Bytes>)
    requires |options| >= 2
    ensures Size(options, 0, 1) == |options[0]| && Size(options, 0, 2) == |options[0]| + |options[1]|
  {
  }

  /** The empty node costs an advertisement exactly when the first option does not fit beside the header; otherwise
      there are as few as if the node were not there */
  lemma EmptyNodeCost(rest: seq<Bytes>, header: nat, max: nat, plain: seq<nat>, cuts: seq<nat>)
    requires rest != [] && Greedy(rest, header, max, plain) && Complete(rest, plain)
    requires Greedy([[]] + rest, header, max, cuts) && Complete([[]] + rest, cuts)
    ensures |cuts| == |plain| + if header + |rest[0]| > max then 1 else 0
  {
    hide Greedy, Within, Full;
    var all := [[]] + rest;
    var shifted := seq(|plain|, k requires 0 <= k < |plain| => plain[k] + 1);
    var other := if header + |rest[0]| > max then [0] + shifted else shifted[0 := 0];
    if header + |rest[0]| > max {
      ShiftedOver(rest, header, max, plain, shifted);
    } else {
      ShiftedFits(rest, header, max, plain, shifted);
    }
    GreedyPacks(all, header, max, other);
    GreedyPacks(all, header, max, cuts);
    FewestAdvertisements(all, header, max, cuts, other);
    FewestAdvertisements(all, header, max, other, cuts);
  }

  /** One option of 96 bytes, a header of 16 and a limit of 100: two advertisements, the first without options */
  lemma TwoForOne(option: Bytes)
    requires |option| == 96
    ensures Greedy([[], option], 16, 100, [0, 1, 2]) && Complete([[], option], [0, 1, 2])
    ensures Greedy([option], 16, 100, [0, 1]) && Complete([option], [0, 1])
    ensures Flat([[], option][0..1]) == []
  {
    TwoSizes([[], option]);
    SizeOne([option]);
    var options: seq<Bytes> := [[], option];
    assert options[0..1] == [[]];
    FlatSize(options, 0, 1);
  }

  lemma GreedyPacks(options: seq<Bytes>, header: nat, max: nat, cuts: seq<nat>)
    requires Greedy(options, header, max, cuts) && Complete(options, cuts)
    ensures Packing(options, header, max, cuts)
  {
  }

  lemma ShiftedOver(rest: seq<Bytes>, header: nat, max: nat, plain: seq<nat>, shifted: seq<nat>)
    requires rest != [] && Greedy(rest, header, max, plain) && Complete(rest, plain) && header + |rest[0]| > max
    requires |shifted| == |plain| && forall k | 0 <= k < |plain| :: shifted[k] == plain[k] + 1
    ensures Greedy([[]] + rest, header, max, [0] + shifted) && Complete([[]] + rest, [0] + shifted)
  {
    hide Size;
    var all, other := [[]] + rest, [0] + shifted;
    forall k | 0 <= k < |other| - 1
      ensures Within(all, header, max, other[k], other[k + 1]) && Full(all, header, max, other[k], other[k + 1])
    {
      if k == 0 {
        TwoSizes(all);
      } else {
        assert Within(rest, header, max, plain[k - 1], plain[k]) && Full(rest, header, max, plain[k - 1], plain[k]);
        SizeShifted(rest, plain[k - 1], plain[k]);
        if plain[k] < |rest| {
          SizeShifted(rest, plain[k - 1], plain[k] + 1);
        }
      }
    }
  }

  lemma ShiftedFits(rest: seq<Bytes>, header: nat, max: nat, plain: seq<nat>, shifted: seq<nat>)
    requires rest != [] && Greedy(rest, header, max, plain) && Complete(rest, plain) && header + |rest[0]| <= max
    requires |shifted| == |plain| && forall k | 0 <= k < |plain| :: shifted[k] == plain[k] + 1
    ensures Greedy([[]] + rest, header, max, shifted[0 := 0]) && Complete([[]] + rest, shifted[0 := 0])
  {
    hide Size;
    var all, other := [[]] + rest, shifted[0 := 0];
    forall k | 0 <= k < |other| - 1
      ensures Within(all, header, max, other[k], other[k + 1]) && Full(all, header, max, other[k], other[k + 1])
    {
      assert Within(rest, header, max, plain[k], plain[k + 1]) && Full(rest, header, max, plain[k], plain[k + 1]);
      SizeShifted(rest, plain[k], plain[k + 1]);
      if plain[k + 1] < |rest| {
        SizeShifted(rest, plain[k], plain[k + 1] + 1);
      }
      SizeOne(rest);
    }
  }

  lemma SizeOne(rest: seq<Bytes>)
    requires rest != []
    ensures Size(rest, 0, 1) == |rest[0]|
  {
  }

  lemma {:induction false} SizeShifted(rest: seq<Bytes>, i: nat, j: nat)
    requires i <= j <= |rest|
    ensures Size([[]] + rest, i + 1, j + 1) == Size(rest, i, j)
    ensures i == 0 ==> Size([[]] + rest, 0, j + 1) == Size(rest, 0, j)
    decreases j
  {
    if i < j {
      SizeShifted(rest, i, j - 1);
    } else if j == 0 {
      assert Size([[]] + rest, 0, 1) == Size([[]] + rest, 0, 0);
    } else {
      SizeShifted(rest, 0, 0);
    }
  }

  ghost predicate Carries(ra: Bytes, header: Bytes, options: seq<Bytes>, i: nat, j: nat) {
    i <= j <= |options| && ra == header + Flat(options[i..j])
  }

  /** The advertisements that go with the cuts */
  ghost predicate Advertisements(header: Bytes, options: seq<Bytes>, cuts: seq<nat>, ras: seq<Bytes>) {
    |cuts| == |ras| + 1 && forall k | 0 <= k < |ras| :: Carries(ras[k], header, options, cuts[k], cuts[k + 1])
  }

  function Bodies(header: nat, ras: seq<Bytes>): Bytes
    requires forall k | 0 <= k < |ras| :: header <= |ras[k]|
  {
    if ras == [] then [] else Bodies(header, ras[..|ras| - 1]) + ras[|ras| - 1][header..]
  }

  lemma NoOptions(options: seq<Bytes>)
    ensures Flat(options[..0]) == []
  {
  }

  /** What the advertisements carry behind their headers is all the options, in order */
  lemma {:induction false} BodiesAreOptions(header: Bytes, options: seq<Bytes>, cuts: seq<nat>, ras: seq<Bytes>)
    requires Advertisements(header, options, cuts, ras) && cuts[0] == 0
    ensures (forall k | 0 <= k < |ras| :: header <= ras[k]) && cuts[|ras|] <= |options|
    ensures Bodies(|header|, ras) == Flat(options[..cuts[|ras|]])
  {
    hide Flat;
    if ras == [] {
      NoOptions(options);
    } else {
      var n := |ras| - 1;
      assert Carries(ras[n], header, options, cuts[n], cuts[n + 1]);
      BodiesAreOptions(header, options, cuts[..n + 1], ras[..n]);
      FlatJoin(options[..cuts[n]], options[cuts[n]..cuts[n + 1]]);
      assert options[..cuts[n]] + options[cuts[n]..cuts[n + 1]] == options[..cuts[n + 1]];
      assert ras[n][|header|..] == Flat(options[cuts[n]..cuts[n + 1]]);
    }
  }

  /** A buffer that shares nothing with the list */
  ghost predicate Apart(sb: Buffer, nodes: seq<Node>)
    reads sb, nodes, Buffers(nodes)
  {
    sb !in Buffers(nodes) && sb.data !in Arrays(nodes)
  }

  /** An advertisement that begins with option i may become larger than any buffer */
  ghost predicate TooBig(options: seq<Bytes>, header: nat, max: nat, i: nat) {
    exists j: nat :: Within(options, header, max, i, j) && header + Size(options, i, j) > MAX
  }

  lemma HeaderTooBig(options: seq<Bytes>, header: nat, max: nat, i: nat)
    requires i < |options| && header > MAX
    ensures TooBig(options, header, max, i)
  {
    assert Within(options, header, max, i, i + 1);
  }

  /** Within a limit below that, only a single option can be too large */
  lemma SingleTooBig(options: seq<Bytes>, header: nat, max: nat, i: nat)
    requires TooBig(options, header, max, i) && max <= MAX
    ensures i < |options| && header + |options[i]| > MAX
  {
    var j: nat :| Within(options, header, max, i, j) && header + Size(options, i, j) > MAX;
    assert Size(options, i, i + 1) == |options[i]| + Size(options, i, i);
  }

  predicate FitsFrom(options: seq<Bytes>, header: nat, i: nat, j: nat) {
    i <= j <= |options| && header + Size(options, i, j) <= MAX
  }

  /** No advertisement is larger than a buffer can be */
  predicate Fit(options: seq<Bytes>, header: nat, cuts: seq<nat>) {
    forall k | 0 <= k < |cuts| - 1 :: FitsFrom(options, header, cuts[k], cuts[k + 1])
  }

  /** Each option is in one of the advertisements */
  lemma {:induction false} EachFits(options: seq<Bytes>, header: nat, cuts: seq<nat>, i: nat)
    requires cuts != [] && cuts[0] == 0 && Fit(options, header, cuts) && i < cuts[|cuts| - 1] <= |options|
    ensures header + |options[i]| <= MAX
  {
    var k := |cuts| - 2;
    assert FitsFrom(options, header, cuts[k], cuts[k + 1]);
    if i < cuts[k] {
      EachFits(options, header, cuts[..k + 1], i);
    } else {
      SizeWithin(options, cuts[k], i, i + 1, cuts[k + 1]);
      assert Size(options, i, i + 1) == |options[i]| + Size(options, i, i);
    }
  }

  /** One option more */
  method Put(sb: Buffer, option: Bytes, ghost nodes: seq<Node>, ghost options: seq<Bytes>) returns (alive: bool)
    requires sb.Valid() && Holds(nodes, options) && Apart(sb, nodes)
    modifies sb, sb.data
    ensures sb.Valid() && Holds(nodes, options) && Apart(sb, nodes) && (sb.data == old(sb.data) || fresh(sb.data))
    ensures alive <==> old(sb.used) + |option| <= MAX
    ensures sb.Contents() == if alive then old(sb.Contents()) + option else old(sb.Contents())
  {
    hide Holds;
    Older(nodes);
    alive := sb.Append(option);
  }

  /** A buffer begins with the header again */
  method Restart(sb: Buffer, header: Bytes, ghost nodes: seq<Node>, ghost options: seq<Bytes>) returns (alive: bool)
    requires sb.Valid() && Holds(nodes, options) && Apart(sb, nodes)
    modifies sb, sb.data
    ensures sb.Valid() && Holds(nodes, options) && Apart(sb, nodes) && (sb.data == old(sb.data) || fresh(sb.data))
    ensures (alive <==> |header| <= MAX) && (alive ==> sb.Contents() == header)
  {
    hide Holds;
    Older(nodes);
    sb.used := 0;
    alive := sb.Append(header);
  }

  /** The inner loop of send_ra: options from cur on, as long as they fit; the first one always does.
      A header that is empty would let it pass over all of them. */
  method Pack(sb: Buffer, header: Bytes, cur: Node, max: nat, ghost nodes: seq<Node>, ghost options: seq<Bytes>,
      ghost i: nat)
    returns (alive: bool, next: Node?, ghost j: nat)
    requires sb.Valid() && Holds(nodes, options) && i < |nodes| && cur == nodes[i] && header != [] && Apart(sb, nodes)
    modifies sb, sb.data
    ensures sb.Valid() && Holds(nodes, options) && (sb.data == old(sb.data) || fresh(sb.data)) && Apart(sb, nodes)
    ensures alive ==> i < j <= |nodes| && Within(options, |header|, max, i, j) && Full(options, |header|, max, i, j)
    ensures if alive then |header| + Size(options, i, j) <= MAX else TooBig(options, |header|, max, i)
    ensures alive ==> sb.Contents() == header + Flat(options[i..j]) && next == if j < |nodes| then nodes[j] else null
  {
    hide Holds, Apart, Flat, Size, Within, Full, TooBig;
    NodeAt(nodes, options, i);
    alive := Restart(sb, header, nodes, options);
    next, j := cur, i;
    if !alive {
      HeaderTooBig(options, |header|, max, i);
      return;
    }
    FlatNone(options, i);
    var count := 0;
    while next != null
      invariant i <= j <= |nodes| && next == (if j < |nodes| then nodes[j] else null) && count == j - i
      invariant sb.Valid() && Holds(nodes, options) && Apart(sb, nodes) && (sb.data == old(sb.data) || fresh(sb.data))
      invariant sb.Contents() == header + Flat(options[i..j]) && (i < j ==> Within(options, |header|, max, i, j))
      decreases |nodes| - j
    {
      NodeAt(nodes, options, j);
      OptionFits(header, options, max, i, j);
      if sb.used + next.sb.used > max && count > 0 {
        break;
      }
      alive := Put(sb, next.sb.Contents(), nodes, options);
      if !alive {
        GrowsTooBig(options, |header|, max, i, j);
        return;
      }
      count := count + 1;
      next, j := next.next, j + 1;
    }
    NoneLeft(header, options, max, i, j);
    FlatSize(options, i, j);
  }

  lemma GrowsTooBig(options: seq<Bytes>, header: nat, max: nat, i: nat, j: nat)
    requires i <= j < |options| && Within(options, header, max, i, j + 1)
    requires header + |Flat(options[i..j])| + |options[j]| > MAX
    ensures TooBig(options, header, max, i)
  {
    hide Flat;
    FlatSize(options, i, j);
  }

  lemma OptionFits(header: Bytes, options: seq<Bytes>, max: nat, i: nat, j: nat)
    requires i <= j < |options|
    ensures (header + Flat(options[i..j])) + options[j] == header + Flat(options[i..j + 1])
    ensures if i < j && |header + Flat(options[i..j])| + |options[j]| > max
      then Full(options, |header|, max, i, j)
      else Within(options, |header|, max, i, j + 1)
  {
    FlatSize(options, i, j);
    FlatSize(options, i, j + 1);
    Assoc(header, Flat(options[i..j]), options[j]);
  }

  lemma NoneLeft(header: Bytes, options: seq<Bytes>, max: nat, i: nat, j: nat)
    ensures j == |options| ==> Full(options, |header|, max, i, j)
  {
  }

  lemma NodeAt(nodes: seq<Node>, options: seq<Bytes>, i: nat)
    requires Holds(nodes, options) && i < |nodes|
    ensures |nodes| == |options| && nodes[i].sb.Valid() && nodes[i].sb.Contents() == options[i]
    ensures nodes[i].next == if i + 1 < |nodes| then nodes[i + 1] else null
  {
  }

  lemma FlatNone(options: seq<Bytes>, i: nat)
    requires i <= |options|
    ensures Flat(options[i..i]) == []
  {
  }

  /** send_ra: the advertisements handed to the socket, up to the first that cannot be sent, or that is larger than
      any buffer */
  method SendRa(header: Bytes, root: Node, max: nat, fails: set<nat>, ghost nodes: seq<Node>, ghost options: seq<Bytes>)
    returns (alive: bool, sent: seq<Bytes>, ghost cuts: seq<nat>)
    requires Holds(nodes, options) && root == nodes[0] && header != []
    ensures Greedy(options, |header|, max, cuts) && Advertisements(header, options, cuts, sent) && |cuts| == |sent| + 1
    ensures alive && (forall k | 0 <= k < |sent| :: k !in fails) ==> cuts[|sent|] == |options|
    ensures forall k | 0 <= k < |sent| - 1 :: k !in fails
    ensures !alive ==> TooBig(options, |header|, max, cuts[|sent|])
    ensures max <= MAX && (forall k | 0 <= k < |sent| :: k !in fails) ==>
      (alive <==> forall i | 0 <= i < |options| :: |header| + |options[i]| <= MAX)
  {
    hide Holds, Within, Full, Flat, Greedy, Advertisements, TooBig, Fit, Size;
    Older(nodes);
    NoneYet(header, options, max);
    FirstNode(nodes, options);
    var sb := new Buffer();
    var cur: Node? := root;
    sent, cuts := [], [0];
    ghost var i := 0;
    while cur != null
      invariant i <= |nodes| && (cur == if i < |nodes| then nodes[i] else null)
      invariant sb.Valid() && fresh(sb) && fresh(sb.data) && Holds(nodes, options) && Apart(sb, nodes)
      invariant Greedy(options, |header|, max, cuts) && Advertisements(header, options, cuts, sent)
      invariant |cuts| == |sent| + 1 && cuts[0] == 0 && cuts[|sent|] == i && Fit(options, |header|, cuts)
      invariant forall k | 0 <= k < |sent| :: k !in fails
      decreases |nodes| - i
    {
      ghost var j;
      alive, cur, j := Pack(sb, header, cur, max, nodes, options, i);
      if !alive {
        AliveBySizes(options, |header|, max, cuts, false);
        return;
      }
      FitMore(options, |header|, cuts, j);
      OneMore(header, options, max, cuts, sent, j);
      sent := sent + [sb.Contents()];
      i := j;
      cuts := cuts + [j];
      if |sent| - 1 in fails {
        return;
      }
    }
    alive := true;
    AliveBySizes(options, |header|, max, cuts, true);
  }

  lemma FitMore(options: seq<Bytes>, header: nat, cuts: seq<nat>, j: nat)
    requires cuts != [] && Fit(options, header, cuts) && cuts[|cuts| - 1] <= j <= |options|
    requires header + Size(options, cuts[|cuts| - 1], j) <= MAX
    ensures Fit(options, header, cuts + [j])
  {
    hide Size;
  }

  lemma AliveBySizes(options: seq<Bytes>, header: nat, max: nat, cuts: seq<nat>, alive: bool)
    requires cuts != [] && cuts[0] == 0 && Fit(options, header, cuts)
    requires if alive then cuts[|cuts| - 1] == |options| else TooBig(options, header, max, cuts[|cuts| - 1])
    ensures max <= MAX ==> (alive <==> forall i | 0 <= i < |options| :: header + |options[i]| <= MAX)
  {
    if alive {
      forall i | 0 <= i < |options| ensures header + |options[i]| <= MAX {
        EachFits(options, header, cuts, i);
      }
    } else if max <= MAX {
      SingleTooBig(options, header, max, cuts[|cuts| - 1]);
    }
  }

  lemma NoneYet(header: Bytes, options: seq<Bytes>, max: nat)
    ensures Fit(options, |header|, [0])
    ensures Greedy(options, |header|, max, [0]) && Advertisements(header, options, [0], [])
  {
  }

  lemma OneMore(header: Bytes, options: seq<Bytes>, max: nat, cuts: seq<nat>, ras: seq<Bytes>, j: nat)
    requires Greedy(options, |header|, max, cuts) && Advertisements(header, options, cuts, ras)
    requires cuts[|ras|] < j <= |options| && Within(options, |header|, max, cuts[|ras|], j)
    requires Full(options, |header|, max, cuts[|ras|], j)
    ensures Greedy(options, |header|, max, cuts + [j])
    ensures Advertisements(header, options, cuts + [j], ras + [header + Flat(options[cuts[|ras|]..j])])
  {
    hide Within, Full, Flat;
  }

  lemma FirstNode(nodes: seq<Node>, options: seq<Bytes>)
    requires Holds(nodes, options)
    ensures |nodes| == |options| > 0
  {
  }

  lemma Older(nodes: seq<Node>)
    ensures forall o <- Buffers(nodes) :: allocated(o)
    ensures forall o <- Arrays(nodes) :: allocated(o)
  {
  }
}
