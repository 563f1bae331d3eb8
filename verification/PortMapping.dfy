/**
  The port mappings of the extended NAT-PMP daemon: which client owns which port of a
  natted address, the pair of mappings every owned port has, and their expiry.
 */
module PortMapping {
  import opened Options

  const MAX_MAPPINGS := 64
  /** How many seconds a deleted mapping is held before its port can go */
  const HOLD := 120

  datatype Proto = Udp | Tcp

  function Other(p: Proto): Proto { if p == Udp then Tcp else Udp }

  // ---------- Lists without repetition ----------

  ghost predicate Distinct(s: seq<Mapping>) { forall i, j | 0 <= i < j < |s| :: s[i] != s[j] }

  /** list.remove: without the first occurrence */
  function Removed(s: seq<Mapping>, m: Mapping): (r: seq<Mapping>)
    requires m in s
    ensures |r| == |s| - 1
  {
    if s[0] == m then s[1..] else [s[0]] + Removed(s[1..], m)
  }

  lemma {:induction false} RemovedFrom(s: seq<Mapping>, m: Mapping)
    requires m in s && Distinct(s)
    ensures Distinct(Removed(s, m)) && m !in Removed(s, m)
    ensures (forall k <- Removed(s, m) :: k in s) && forall k <- s :: k != m ==> k in Removed(s, m)
  {
    if s[0] == m {
      assert s == [m] + s[1..];
    } else {
      RemovedFrom(s[1..], m);
      assert s == [s[0]] + s[1..] && s[0] !in s[1..];
    }
  }

  // ---------- Mappings and clients ----------

  datatype Row = Row(src: string, sport: int, expire: int, companion: bool, down: bool)

  class Mapping {
    const client: Client
    const nport: int
    const proto: Proto
    var src: string
    var sport: int
    var expire: int
    var companion: bool
    var down: bool

    constructor (client: Client, nport: int, proto: Proto)
      ensures this.client == client && this.nport == nport && this.proto == proto
      ensures src == "" && sport == 0 && expire == 0 && companion && !down
    {
      this.client, this.nport, this.proto := client, nport, proto;
      src, sport, expire, companion, down := "", 0, 0, true, false;
    }

    ghost function State(): Row
      reads this
    {
      Row(src, sport, expire, companion, down)
    }

    predicate Serves(src: string, sport: int, proto: Proto)
      reads this`src, this`sport, this`companion
    {
      this.src == src && this.sport == sport && this.proto == proto && !companion
    }
  }

  class Client {
    const ipv6: string
    const nsrc: string
    var mappings: seq<Mapping>

    constructor (ipv6: string, nsrc: string)
      ensures this.ipv6 == ipv6 && this.nsrc == nsrc && mappings == []
    {
      this.ipv6, this.nsrc, mappings := ipv6, nsrc, [];
    }

    method Serve(m: Mapping, sport: int, companion: bool, ghost ports: map<int, string>)
      requires m in mappings && Paired(mappings, this, ports) && (companion ==> m.companion)
      requires companion || forall k <- mappings :: k.Serves(m.src, sport, m.proto) ==> k == m
      modifies m`sport, m`companion
      ensures Paired(mappings, this, ports) && m.sport == sport && m.companion == companion
    {
      m.sport := sport;
      m.companion := companion;
    }

    method Demote(m: Mapping, ghost ports: map<int, string>)
      requires m in mappings && Paired(mappings, this, ports)
      requires exists k :: k in mappings && k.nport == m.nport && k.proto == Other(m.proto) && !k.companion
      modifies m`companion
      ensures Paired(mappings, this, ports) && m.companion
    {
      m.companion := true;
    }

    method GetMap(nport: int, proto: Proto) returns (m: Mapping?)
      ensures m == null ==> forall k <- mappings :: k.nport != nport || k.proto != proto
      ensures m != null ==> m in mappings && m.nport == nport && m.proto == proto
    {
      for i := 0 to |mappings|
        invariant forall j | 0 <= j < i :: mappings[j].nport != nport || mappings[j].proto != proto
      {
        if mappings[i].nport == nport && mappings[i].proto == proto {
          return mappings[i];
        }
      }
      m := null;
    }

    method GetSrc(src: string, sport: int, proto: Proto) returns (m: Mapping?)
      ensures m == null ==> forall k <- mappings :: !k.Serves(src, sport, proto)
      ensures m != null ==> m in mappings && m.Serves(src, sport, proto)
    {
      for i := 0 to |mappings|
        invariant forall j | 0 <= j < i :: !mappings[j].Serves(src, sport, proto)
      {
        var k := mappings[i];
        if k.src != src || k.proto != proto {
          continue;
        }
        if k.companion {
          continue;
        }
        if k.sport == sport {
          return k;
        }
      }
      m := null;
    }

    /** The other mapping of the port, if it is a companion */
    method GetCompanion(m: Mapping) returns (companion: Mapping?)
      requires m in mappings && Both(mappings, m.nport) && OnePerKey(mappings)
      ensures companion != null ==>
        companion in mappings && companion != m && companion.nport == m.nport && companion.companion
      ensures companion != null ==> companion.proto == Other(m.proto)
      ensures companion == null ==>
        exists k :: k in mappings && k.nport == m.nport && k.proto == Other(m.proto) && !k.companion
    {
      var candidate := GetMap(m.nport, Other(m.proto));
      companion := if candidate.companion then candidate else null;
    }
  }

  // ---------- What a client's mappings keep to ----------

  /** One UDP and one TCP mapping for the port, of one source, and not both companions */
  ghost predicate Both(s: seq<Mapping>, port: int)
    reads s`src, s`sport, s`companion
  {
    exists u, t ::
      && u in s && u.nport == port && u.proto == Udp
      && t in s && t.nport == port && t.proto == Tcp
      && u.src == t.src && !(u.companion && t.companion)
  }

  ghost predicate OnePerKey(s: seq<Mapping>) {
    Distinct(s) && forall m, k | m in s && k in s && m != k :: m.nport != k.nport || m.proto != k.proto
  }

  /** A source port is given to at most one mapping */
  ghost predicate OnePerSource(s: seq<Mapping>)
    reads s`src, s`sport, s`companion
  {
    forall m, k | m in s && k in s && m != k && !m.companion :: !k.Serves(m.src, m.sport, m.proto)
  }

  /** The ports a client owns are those it has a pair of mappings for */
  ghost predicate Paired(s: seq<Mapping>, c: Client, ports: map<int, string>)
    reads s`src, s`sport, s`companion
  {
    && (forall m <- s :: m.client == c && m.nport in ports && ports[m.nport] == c.ipv6)
    && (forall p <- ports :: ports[p] == c.ipv6 ==> Both(s, p))
    && OnePerKey(s) && OnePerSource(s)
    && |s| % 2 == 0 && |s| <= MAX_MAPPINGS
  }

  lemma BothKept(s: seq<Mapping>, s': seq<Mapping>, port: int)
    requires Both(s, port) && forall m <- s :: m.nport == port ==> m in s'
    ensures Both(s', port)
  {
    var u, t :|
      && u in s && u.nport == port && u.proto == Udp
      && t in s && t.nport == port && t.proto == Tcp
      && u.src == t.src && !(u.companion && t.companion);
    assert u in s' && t in s';
  }

  lemma OwnedBy(s: seq<Mapping>, c: Client, ports: map<int, string>)
    requires Paired(s, c, ports)
    ensures OnePerKey(s)
    ensures forall m <- s :: m.client == c && m.nport in ports && ports[m.nport] == c.ipv6 && Both(s, m.nport)
  {
  }

  /** What becomes of a port that was not and is not the client's */
  lemma OthersPort(s: seq<Mapping>, c: Client, ports: map<int, string>, port: int, owner: string)
    requires Paired(s, c, ports) && port in ports && ports[port] != c.ipv6 && owner != c.ipv6
    ensures Paired(s, c, ports[port := owner])
  {
  }

  /** A pair joins: the only mappings of its port */
  lemma PairJoins(s: seq<Mapping>, m: Mapping, k: Mapping, c: Client, ports: map<int, string>)
    requires Paired(s, c, ports) && |s| < MAX_MAPPINGS && c.ipv6 != "" && m.nport in ports && ports[m.nport] == ""
    requires m.client == k.client == c && m.nport == k.nport && k.proto == Other(m.proto) && m.src == k.src
    requires !m.companion && k.companion && forall o <- s :: !o.Serves(m.src, m.sport, m.proto)
    ensures Paired(s + [m, k], c, ports[m.nport := c.ipv6])
  {
    var s', ports' := s + [m, k], ports[m.nport := c.ipv6];
    assert m in s' && k in s' && forall o <- s' :: o in s || o == m || o == k;
    forall p | p in ports' && ports'[p] == c.ipv6 ensures Both(s', p) {
      if p != m.nport {
        BothKept(s, s', p);
      } else {
        var u, t := if m.proto == Udp then m else k, if m.proto == Udp then k else m;
        assert u in s' && t in s';
      }
    }
  }

  lemma NoThird(s: seq<Mapping>, m: Mapping, k: Mapping, o: Mapping)
    requires OnePerKey(s) && m in s && k in s && o in s && m != k && o != m && o != k && m.nport == k.nport
    ensures o.nport != m.nport
  {
    assert m.proto != k.proto;
  }

  /** A pair goes: its port is free */
  lemma PairGoes(s: seq<Mapping>, m: Mapping, k: Mapping, c: Client, ports: map<int, string>)
    requires Paired(s, c, ports) && m in s && k in s && m != k && m.nport == k.nport && c.ipv6 != ""
    ensures k in s && m in Removed(s, k)
    ensures Paired(Removed(Removed(s, k), m), c, ports[m.nport := ""])
    ensures (forall o <- Removed(Removed(s, k), m) :: o in s && o != m && o != k)
    ensures forall o <- s :: o != m && o != k ==> o in Removed(Removed(s, k), m)
  {
    hide Removed, OnePerSource;
    RemovedFrom(s, k);
    RemovedFrom(Removed(s, k), m);
    var s' := Removed(Removed(s, k), m);
    assert |s'| == |s| - 2;
    forall o | o in s' ensures o.nport != m.nport {
      NoThird(s, m, k, o);
    }
    PairLeft(s, s', m.nport, c, ports);
  }

  lemma PairLeft(s: seq<Mapping>, s': seq<Mapping>, port: int, c: Client, ports: map<int, string>)
    requires Paired(s, c, ports) && |s'| == |s| - 2 && Distinct(s') && c.ipv6 != "" && port in ports
    requires (forall o <- s' :: o in s && o.nport != port) && forall o <- s :: o.nport != port ==> o in s'
    ensures Paired(s', c, ports[port := ""])
  {
    var ports' := ports[port := ""];
    forall p | p in ports' && ports'[p] == c.ipv6 ensures Both(s', p) {
      BothKept(s, s', p);
    }
  }

  class Natsrc {
    var clients: map<string, Client>
    var ports: map<int, string>

    constructor (minport: int, maxport: int)
      ensures clients == map[] && forall p :: p in ports <==> minport <= p <= maxport
      ensures forall p <- ports :: ports[p] == ""
    {
      clients, ports := map[], map[];
      new;
      var i := minport;
      while i < maxport + 1
        invariant i <= maxport + 1 || i == minport
        invariant clients == map[] && (forall p :: p in ports <==> minport <= p < i) && forall p <- ports ::
          ports[p] == ""
      {
        ports := ports[i := ""];
        i := i + 1;
      }
    }

    /** Any free port; with none, an error */
    method GetFreePort() returns (ok: bool, port: int)
      ensures ok ==> port in ports && ports[port] == ""
      ensures !ok ==> forall p <- ports :: ports[p] != ""
    {
      if p :| p in ports && ports[p] == "" {
        return true, p;
      }
      return false, 0;
    }
  }

  class Natspec {
    var port: int
    const locked: bool

    constructor (port: int, locked: bool)
      ensures this.port == port && this.locked == locked
    {
      this.port, this.locked := port, locked;
    }
  }

  datatype Outcome = Granted | Refused | OutOfResources | UnavailablePort

  // ---------- What expires when ----------

  /** Each mapping that is not a companion is listed once, under the time it expires at */
  ghost predicate Timed(due: map<int, seq<Mapping>>, live: set<Mapping>)
    reads live`expire, live`companion
  {
    && (forall t <- due :: t > 0 && Distinct(due[t]) && Listed(due[t], t, live))
    && forall m <- live :: !m.companion ==> m.expire in due && m in due[m.expire]
  }

  ghost predicate Listed(s: seq<Mapping>, t: int, live: set<Mapping>)
    reads live`expire, live`companion
  {
    forall m <- s :: m in live && !m.companion && m.expire == t
  }

  function Armed(due: map<int, seq<Mapping>>, m: Mapping, t: int): map<int, seq<Mapping>> {
    due[t := if t in due then due[t] + [m] else [m]]
  }

  lemma AtTime(due: map<int, seq<Mapping>>, live: set<Mapping>, t: int)
    requires Timed(due, live) && t in due
    ensures t > 0 && Distinct(due[t]) && Listed(due[t], t, live)
  {
  }

  /** What is listed when the first k mappings of a time have been seen to */
  function From(due: map<int, seq<Mapping>>, first: int, k: nat): map<int, seq<Mapping>>
    requires first in due && k <= |due[first]|
  {
    due[first := due[first][k..]]
  }

  lemma WholeList(due: map<int, seq<Mapping>>, first: int)
    requires first in due
    ensures From(due, first, 0) == due
  {
    assert due[first][0..] == due[first];
  }

  lemma TakeFirst(due: map<int, seq<Mapping>>, live: set<Mapping>, first: int, k: nat)
    requires first in due && k < |due[first]| && Timed(From(due, first, k), live)
    ensures var m := due[first][k]; m in live && !m.companion && m.expire == first && m !in due[first][k + 1..]
    ensures Timed(From(due, first, k + 1), live - {due[first][k]})
  {
    var d, d', m := From(due, first, k), From(due, first, k + 1), due[first][k];
    AtTime(d, live, first);
    assert d[first] == [m] + d'[first] && m in d[first];
    forall t | t in d' ensures t > 0 && Distinct(d'[t]) && Listed(d'[t], t, live - {m}) {
      AtTime(d, live, t);
    }
    forall o | o in live - {m} && !o.companion ensures o.expire in d' && o in d'[o.expire] {
      assert o in d[o.expire];
    }
  }

  lemma ListDone(due: map<int, seq<Mapping>>, live: set<Mapping>, first: int)
    requires first in due && Timed(From(due, first, |due[first]|), live)
    ensures Timed(due - {first}, live)
  {
    var d, d' := From(due, first, |due[first]|), due - {first};
    forall t | t in d' ensures t > 0 && Distinct(d'[t]) && Listed(d'[t], t, live) {
      AtTime(d, live, t);
    }
  }

  lemma TimedArmed(due: map<int, seq<Mapping>>, live: set<Mapping>, m: Mapping)
    requires Timed(due, live - {m}) && !m.companion && m.expire > 0
    ensures Timed(Armed(due, m, m.expire), live + {m})
  {
    var due', t := Armed(due, m, m.expire), m.expire;
    assert m in due'[t];
    forall k | k in live + {m} && !k.companion ensures k.expire in due' && k in due'[k.expire] {
    }
  }

  lemma TimedTwo(due: map<int, seq<Mapping>>, live: set<Mapping>, m: Mapping, k: Mapping)
    requires Timed(due, live + {m}) && k.companion && k !in live + {m}
    ensures Timed(due, live + {m} + {k})
  {
    forall t | t in due ensures t > 0 && Distinct(due[t]) && Listed(due[t], t, live + {m} + {k}) {
      AtTime(due, live + {m}, t);
    }
  }

  lemma TimedWithout(due: map<int, seq<Mapping>>, live: set<Mapping>, m: Mapping)
    requires Timed(due, live) && m.companion
    ensures Timed(due, live - {m})
  {
    forall t | t in due ensures t > 0 && Distinct(due[t]) && Listed(due[t], t, live - {m}) {
      AtTime(due, live, t);
    }
  }

  lemma TimedDisarmed(due: map<int, seq<Mapping>>, live: set<Mapping>, m: Mapping)
    requires Timed(due, live) && m in live && !m.companion
    ensures m.expire in due && m in due[m.expire]
    ensures Timed(due[m.expire := Removed(due[m.expire], m)], live - {m})
  {
    AtTime(due, live, m.expire);
    RemovedFrom(due[m.expire], m);
    var due' := due[m.expire := Removed(due[m.expire], m)];
    forall k | k in live - {m} && !k.companion ensures k.expire in due' && k in due'[k.expire] {
    }
  }

  lemma Inhabited(h: multiset<int>)
    requires |h| > 0
    ensures exists x :: x in h
  {
    assert (exists x :: x in h) || h == multiset{};
  }

  lemma {:induction false} HasLeast(h: multiset<int>) returns (least: int)
    requires |h| > 0
    ensures least in h && forall u <- h :: least <= u
  {
    Inhabited(h);
    var x :| x in h;
    var r := h[x := 0];
    assert forall u <- h :: u == x || u in r;
    least := x;
    if |r| > 0 {
      var t := HasLeast(r);
      if t < x {
        least := t;
      }
    }
  }

  /** HEAP[0] */
  method Least(h: multiset<int>) returns (first: int)
    requires |h| > 0
    ensures first in h && forall u <- h :: first <= u
  {
    ghost var least := HasLeast(h);
    first :| first in h && forall u <- h :: first <= u;
  }

  lemma MoreClients(clients: map<string, Client>, ip: string, c: Client)
    requires ip !in clients
    ensures clients[ip := c].Values == clients.Values + {c}
  {
    forall x | x in clients.Values ensures x in clients[ip := c].Values {
      var k :| k in clients && clients[k] == x;
      assert clients[ip := c][k] == x;
    }
    assert clients[ip := c][ip] == c;
  }

  // ---------- What a request does ----------

  predicate Deletable(m: Mapping, src: Option<string>, proto: Proto)
    reads m
  {
    m.proto == proto && !m.companion && !m.down && (src.Some? ==> m.src == src.value)
  }

  /** The ports of a client's natted address, its mappings, the fields of all mappings, and the timers */
  datatype View = View(
    ports: map<int, string>, mappings: seq<Mapping>, rows: map<Mapping, Row>,
    expires: map<int, seq<Mapping>>, heap: multiset<int>)

  predicate IsFor(m: Mapping, nport: int, proto: Proto) { m.nport == nport && m.proto == proto }

  /** The source port is served at port until the given time; only a mapping promoted from a companion that
      was once on hold stays down */
  ghost predicate Served(b: View, a: View, src: string, sport: int, port: int, proto: Proto, until: int) {
    exists m :: m in a.mappings && m in a.rows && IsFor(m, port, proto)
      && a.rows[m] == Row(src, sport, until, false, m in b.rows && b.rows[m].companion && b.rows[m].down)
  }

  /** The port is the client's, with a pair of mappings if it was free; no other port and no other mapping changes */
  ghost predicate GrantedEffect(b: View, a: View, c: Client, src: string, sport: int, port: int, proto: Proto,
      until: int) {
    && port in b.ports && a.ports == b.ports[port := c.ipv6]
    && |a.mappings| == |b.mappings| + (if b.ports[port] == "" then 2 else 0) && a.mappings[..|b.mappings|] == b.mappings
    && (forall o <- b.rows :: o in a.rows && (a.rows[o] == b.rows[o] || (IsFor(o, port, proto) && o in b.mappings)))
    && Served(b, a, src, sport, port, proto, until)
    && (b.ports[port] == "" ==> Accompanied(a, src, port, Other(proto)))
    && (forall o <- a.rows :: o in b.rows || o in a.mappings[|b.mappings|..])
  }

  /** A new mapping has a companion, which serves no source port yet */
  ghost predicate Accompanied(a: View, src: string, port: int, proto: Proto) {
    exists k :: k in a.mappings && k in a.rows && IsFor(k, port, proto) && a.rows[k] == Row(src, 0, 0, true, false)
  }

  /** Nothing changes, but that a companion that was to be promoted forgets its source port */
  ghost predicate DeniedEffect(b: View, a: View, port: int, proto: Proto) {
    && a.ports == b.ports && a.mappings == b.mappings && a.expires == b.expires && a.heap == b.heap
    && a.rows.Keys == b.rows.Keys
    && forall o <- b.rows ::
      || a.rows[o] == b.rows[o]
      || (IsFor(o, port, proto) && o in b.mappings && b.rows[o].companion && a.rows[o] == b.rows[o].(sport := 0))
  }

  /** The client has a mapping for the port that serves a source port already, or is on hold */
  ghost predicate Renewal(b: View, port: int, proto: Proto) {
    exists m :: m in b.mappings && m in b.rows && IsFor(m, port, proto) && !b.rows[m].companion
  }

  /** The answer to a request that a port can meet, by what the router says to it: with 64 mappings a client gets no
      free port; a renewal does not depend on the router */
  ghost function Answer(b: View, port: int, proto: Proto, granted: bool): Outcome {
    if port in b.ports && b.ports[port] == "" then
      if |b.mappings| >= MAX_MAPPINGS then OutOfResources else if granted then Granted else Refused
    else if granted || Renewal(b, port, proto) then Granted
    else Refused
  }

  ghost predicate Effect(b: View, a: View, c: Client, src: string, sport: int, port: int, proto: Proto, until: int,
      granted: bool, outcome: Outcome) {
    match outcome
    case Granted => Answer(b, port, proto, granted) == outcome && GrantedEffect(b, a, c, src, sport, port, proto, until)
    case Refused => Answer(b, port, proto, granted) == outcome && DeniedEffect(b, a, port, proto)
    case OutOfResources =>
        a == b && (Answer(b, port, proto, granted) == outcome || forall p <- b.ports :: b.ports[p] != "")
    case UnavailablePort => a == b
  }

  /** On a port in use the one mapping for the port and protocol is what changes */
  lemma GrantedThere(b: View, a: View, c: Client, x: Mapping, src: string, sport: int, until: int)
    requires GrantedEffect(b, a, c, src, sport, x.nport, x.proto, until) && b.ports[x.nport] == c.ipv6 != ""
    requires x in b.mappings && x in b.rows && forall o <- b.mappings :: IsFor(o, x.nport, x.proto) ==> o == x
    ensures a.mappings == b.mappings && a.ports == b.ports && a.rows.Keys == b.rows.Keys
    ensures a.rows[x] == Row(src, sport, until, false, b.rows[x].companion && b.rows[x].down)
    ensures forall o <- b.rows :: o != x ==> a.rows[o] == b.rows[o]
  {
    assert a.mappings[..|b.mappings|] == a.mappings && a.mappings[|b.mappings|..] == [];
  }

  lemma PairGranted(b: View, a: View, c: Client, m: Mapping, k: Mapping, src: string, sport: int, until: int)
    requires m.nport in b.ports && b.ports[m.nport] == "" && a.ports == b.ports[m.nport := c.ipv6]
    requires a.mappings == b.mappings + [m, k] && a.rows.Keys == b.rows.Keys + {m, k} && m !in b.rows && k !in b.rows
    requires forall o <- b.rows :: a.rows[o] == b.rows[o]
    requires a.rows[m] == Row(src, sport, until, false, false)
    requires k.nport == m.nport && k.proto == Other(m.proto) && a.rows[k] == Row(src, 0, 0, true, false)
    ensures GrantedEffect(b, a, c, src, sport, m.nport, m.proto, until)
  {
    assert a.mappings[..|b.mappings|] == b.mappings && a.mappings[|b.mappings|..] == [m, k];
    assert m in a.mappings && k in a.mappings;
  }

  lemma MappingGranted(b: View, a: View, c: Client, m: Mapping, sport: int, until: int)
    requires a.ports == b.ports && a.mappings == b.mappings && a.rows.Keys == b.rows.Keys && m in a.mappings
    requires m in a.rows
    requires m.nport in b.ports && b.ports[m.nport] == c.ipv6 != ""
    requires forall o <- b.rows :: o != m ==> a.rows[o] == b.rows[o]
    requires a.rows[m] == Row(b.rows[m].src, sport, until, false, b.rows[m].companion && b.rows[m].down)
    ensures GrantedEffect(b, a, c, b.rows[m].src, sport, m.nport, m.proto, until)
  {
    assert b.ports[m.nport := c.ipv6] == b.ports;
    assert a.mappings[..|b.mappings|] == b.mappings;
  }

  // ---------- The daemon ----------

  class Daemon {
    var clients: map<string, Client>
    var natted: map<string, Natsrc>
    var expires: map<int, seq<Mapping>>
    /** The times something may expire at: a heap whose least element is looked at */
    var heap: multiset<int>
    /** All mappings of all clients */
    ghost var live: set<Mapping>

    ghost predicate Linked()
      reads this`clients, this`natted, this`live, natted.Values, clients.Values
    {
      && "" !in clients
      && (forall ip <- clients :: Known(ip))
      && (forall n <- natted :: SourceOk(n))
      && (forall n <- natted, k <- natted :: n != k ==> natted[n] != natted[k])
      && forall m <- live :: m.client in clients.Values && m in m.client.mappings
    }

    /** The clients of a natted address are known, and own its ports */
    ghost predicate SourceOk(n: string)
      requires n in natted
      reads this`clients, this`natted, natted.Values, clients.Values
    {
      var s := natted[n];
      && (forall ip <- s.clients :: ip in clients && clients[ip].nsrc == n && s.clients[ip] == clients[ip])
      && (forall p <- s.ports :: p != 0 && (s.ports[p] == "" || s.ports[p] in s.clients))
    }

    ghost predicate Known(ip: string)
      requires ip in clients
      reads this`clients, this`natted, this`live, natted.Values, clients.Values
    {
      var c := clients[ip];
      && c.ipv6 == ip && c.nsrc in natted && ip in natted[c.nsrc].clients && natted[c.nsrc].clients[ip] == c
      && forall m <- c.mappings :: m in live && m.client == c
    }

    ghost predicate Owned()
      requires Linked()
      reads this`clients, this`natted, this`live, natted.Values, clients.Values, live`src, live`sport, live`companion
    {
      forall ip <- clients :: Paired(clients[ip].mappings, clients[ip], natted[clients[ip].nsrc].ports)
    }

    ghost predicate Keyed()
      reads this`expires, this`heap
    {
      forall t :: t in expires <==> t in heap
    }

    ghost predicate Valid()
      reads this, natted.Values, clients.Values, live
    {
      Linked() && Owned() && Timed(expires, live) && Keyed()
    }

    /** What a request of a client may change */
    ghost function Region(ip: string): set<object>
      reads this, clients.Values
    {
      if ip in clients && clients[ip].nsrc in natted
      then {clients[ip], natted[clients[ip].nsrc]} + set m | m in clients[ip].mappings
      else {}
    }

    constructor ()
      ensures Valid() && clients == map[] && natted == map[] && expires == map[] && heap == multiset{} && live == {}
    {
      clients, natted, expires, heap, live := map[], map[], map[], multiset{}, {};
    }

    // ---------- Timers ----------

    /** A mapping is to expire at t */
    method Arm(m: Mapping, t: int)
      requires t > 0 && !m.companion && Timed(expires, live - {m}) && Keyed()
      modifies this`expires, this`heap, m`expire
      ensures m.expire == t && expires == Armed(old(expires), m, t) && heap == old(heap) + multiset{t}
      ensures Timed(expires, live + {m}) && Keyed()
    {
      m.expire := t;
      TimedArmed(expires, live, m);
      heap := heap + multiset{t};
      if t !in expires {
        expires := expires[t := [m]];
      } else {
        expires := expires[t := expires[t] + [m]];
      }
    }

    /** The mapping's time is called off */
    method Disarm(m: Mapping)
      requires m in live && !m.companion && Timed(expires, live) && Keyed()
      modifies this`expires
      ensures Timed(expires, live - {m}) && Keyed()
      ensures m.expire in old(expires) && m in old(expires)[m.expire]
      ensures expires == old(expires)[m.expire := Removed(old(expires)[m.expire], m)]
    {
      TimedDisarmed(expires, live, m);
      if m.expire != 0 {
        expires := expires[m.expire := Removed(expires[m.expire], m)];
      }
    }

    /** A mapping that is deleted stays on hold for a while, and keeps its port */
    method Hold(m: Mapping, now: int)
      requires now >= 0 && !m.companion && Timed(expires, live - {m}) && Keyed()
      modifies this`expires, this`heap, m`expire, m`down
      ensures m.down && m.expire == now + HOLD && expires == Armed(old(expires), m, now + HOLD)
      ensures heap == old(heap) + multiset{now + HOLD}
      ensures Timed(expires, live + {m}) && Keyed()
    {
      m.down := true;
      Arm(m, now + HOLD);
    }

    // ---------- Expiry ----------

    function SourceOf(c: Client): Natsrc
      requires c.nsrc in natted
      reads this
    {
      natted[c.nsrc]
    }

    lemma Homes(m: Mapping)
      requires Linked() && (m in live || exists c <- clients.Values :: m in c.mappings)
      ensures m in live
      ensures m.client in clients.Values && m.client.nsrc in natted && SourceOf(m.client) in natted.Values
    {
      Home(m.client);
    }

    lemma Home(c: Client)
      requires Linked() && c in clients.Values
      ensures c.ipv6 in clients && clients[c.ipv6] == c && Known(c.ipv6)
      ensures c.nsrc in natted && c.ipv6 in natted[c.nsrc].clients && c.ipv6 != ""
    {
    }

    /** A pair leaves its client, and the port is free */
    method RemovePair(m: Mapping, k: Mapping)
      requires Linked() && Owned() && m in live && k in live && m != k && m.client == k.client && m.nport == k.nport
      requires m.client in clients.Values && m.client.nsrc in natted
      modifies this`live, m.client`mappings, SourceOf(m.client)`ports
      ensures Linked() && Owned() && live == old(live) - {m, k}
      ensures natted[m.client.nsrc].ports == old(natted[m.client.nsrc].ports)[m.nport := ""]
    {
      hide Linked, Paired, Removed, OnePerKey, Both;
      var c := m.client;
      Home(c);
      PairGoesHere(m, k);
      OthersKeep(c, m.nport, "");
      var s := Removed(Removed(c.mappings, k), m);
      assert Paired(s, c, SourceOf(c).ports[m.nport := ""]);
      Put(c, s, m.nport, "", live - {m, k});
      assert Paired(s, c, SourceOf(c).ports);
    }

    lemma PairGoesHere(m: Mapping, k: Mapping)
      requires Linked() && Owned() && m in live && k in live && m != k && m.client == k.client && m.nport == k.nport
      requires m.client in clients.Values && m.client.nsrc in natted
      ensures var c := m.client; m.nport in SourceOf(c).ports && SourceOf(c).ports[m.nport] == c.ipv6
      ensures k in m.client.mappings && m in Removed(m.client.mappings, k)
      ensures var c, s := m.client, Removed(Removed(m.client.mappings, k), m);
        && Paired(s, c, SourceOf(c).ports[m.nport := ""])
        && (forall o <- s :: o in live - {m, k} && o.client == c)
        && forall o <- live - {m, k} :: o.client == c ==> o in s
    {
      var c := m.client;
      Home(c);
      OwnedBy(c.mappings, c, natted[c.nsrc].ports);
      PairGoes(c.mappings, m, k, c, natted[c.nsrc].ports);
    }

    /** The other clients of the natted address keep what they have */
    lemma OthersKeep(c: Client, port: int, owner: string)
      requires Linked() && Owned() && c in clients.Values && c.nsrc in natted && port in SourceOf(c).ports
      requires (owner == "" && SourceOf(c).ports[port] == c.ipv6) || (owner == c.ipv6 && SourceOf(c).ports[port] == "")
      ensures forall ip <- clients ::
        clients[ip] != c ==>
          && clients[ip].nsrc in natted
          && Paired(clients[ip].mappings, clients[ip],
                    if clients[ip].nsrc == c.nsrc then SourceOf(c).ports[port := owner]
                    else SourceOf(clients[ip]).ports)
      ensures forall ip <- clients ::
        clients[ip].nsrc in natted && clients[ip].nsrc != c.nsrc ==> SourceOf(clients[ip]) != SourceOf(c)
    {
      hide Paired;
      Home(c);
      forall ip | ip in clients && clients[ip] != c && clients[ip].nsrc == c.nsrc
        ensures Paired(clients[ip].mappings, clients[ip], SourceOf(c).ports[port := owner])
      {
        OthersPort(clients[ip].mappings, clients[ip], SourceOf(c).ports, port, owner);
      }
    }

    lemma AllListed(c: Client)
      requires Linked() && c in clients.Values
      ensures forall m <- live :: m.client == c ==> m in c.mappings
      ensures forall m <- c.mappings :: m in live && m.client == c
    {
      Home(c);
    }

    /** A client's list, and the owner of a port of its natted address, change */
    method Put(c: Client, s: seq<Mapping>, port: int, owner: string, ghost all: set<Mapping>)
      requires Linked() && c in clients.Values && c.nsrc in natted && port in SourceOf(c).ports
      requires (owner == "" || owner == c.ipv6)
      requires (forall m <- s :: m in all && m.client == c)
      requires forall m <- all :: if m.client == c then m in s else m in live
      requires forall m <- live :: m.client != c ==> m in all
      modifies this`live, c`mappings, SourceOf(c)`ports
      ensures Linked() && live == all && c.mappings == s && SourceOf(c).ports == old(SourceOf(c).ports)[port := owner]
    {
      hide Linked;
      PutList(c, s, all);
      PutPort(c, port, owner);
    }

    method PutList(c: Client, s: seq<Mapping>, ghost all: set<Mapping>)
      requires Linked() && c in clients.Values
      requires (forall m <- s :: m in all && m.client == c)
      requires forall m <- all :: if m.client == c then m in s else m in live
      requires forall m <- live :: m.client != c ==> m in all
      modifies this`live, c`mappings
      ensures Linked() && live == all && c.mappings == s
    {
      c.mappings := s;
      live := all;
    }

    method PutPort(c: Client, port: int, owner: string)
      requires Linked() && c in clients.Values && c.nsrc in natted && port in SourceOf(c).ports
      requires (owner == "" || owner == c.ipv6)
      modifies SourceOf(c)`ports
      ensures Linked() && SourceOf(c).ports == old(SourceOf(c).ports)[port := owner]
    {
      Home(c);
      natted[c.nsrc].ports := natted[c.nsrc].ports[port := owner];
    }

    /** expire1: the port goes with its last mapping; else the mapping becomes the companion of the other */
    method Expire1(m: Mapping, ghost due: map<int, seq<Mapping>>)
      requires Linked() && Owned() && Timed(due, live - {m}) && m in live && !m.companion
      requires m.client in clients.Values && m.client.nsrc in natted
      modifies this`live, m.client`mappings, m`companion, SourceOf(m.client)`ports
      ensures Linked() && Owned() && Timed(due, live) && live <= old(live)
      ensures forall o <- old(live) :: o != m && !o.companion ==> o in live
    {
      hide Linked, Owned, OnePerKey, Both;
      var c := m.client;
      Home(c);
      AtHome(m);
      var companion := c.GetCompanion(m);
      if companion != null {
        AtHome(companion);
        RemovePair(m, companion);
      } else {
        Demote(m);
      }
    }

    lemma AtHome(m: Mapping)
      requires Linked() && Owned() && (m in live || exists c <- clients.Values :: m in c.mappings)
      ensures m in live && m.client in clients.Values && m in m.client.mappings && m.client.nsrc in natted
      ensures OnePerKey(m.client.mappings) && Both(m.client.mappings, m.nport)
      ensures m.nport in SourceOf(m.client).ports && SourceOf(m.client).ports[m.nport] == m.client.ipv6
    {
    }

    method PopAll(first: int)
      modifies this`heap
      ensures heap == old(heap)[first := 0]
    {
      while first in heap
        invariant heap == old(heap)[first := heap[first]]
        decreases heap[first]
      {
        heap := heap[first := heap[first] - 1];
      }
    }

    /** All the mappings listed under a time, which leaves the list and the heap */
    method ExpireAt(first: int)
      requires Valid() && first in heap
      modifies this`live, this`heap, this`expires, clients.Values`mappings, live`companion, natted.Values`ports
      ensures Valid() && live <= old(live) && expires == old(expires) - {first} && heap == old(heap)[first := 0]
      ensures forall m <- old(live) :: !old(m.companion) && m.expire != first ==> m in live && !m.companion
    {
      hide Linked, Owned, Timed, Listed, Known, Distinct;
      PopAll(first);
      ghost var before := live;
      WholeList(expires, first);
      for k := 0 to |expires[first]|
        invariant expires == old(expires) && first in expires && heap == old(heap)[first := 0]
        invariant Linked() && Owned() && Timed(From(expires, first, k), live) && live <= before
        invariant forall m <- before :: !old(m.companion) && m.expire != first ==> m in live && !m.companion
      {
        var m := expires[first][k];
        TakeFirst(expires, live, first, k);
        Homes(m);
        Expire1(m, From(expires, first, k + 1));
      }
      ListDone(expires, live, first);
      expires := expires - {first};
    }

    /** expire: what is due goes, and nothing else */
    method Expire(now: int)
      requires Valid()
      modifies this`live, this`heap, this`expires, clients.Values`mappings, live`companion, natted.Values`ports
      ensures Valid() && live <= old(live) && forall t <- heap :: t > now
      ensures forall t | t > now ::
        && heap[t] == old(heap)[t] && (t in expires <==> t in old(expires))
        && (t in expires ==> expires[t] == old(expires)[t])
      ensures forall m <- old(live) :: !old(m.companion) && m.expire > now ==> m in live && !m.companion
    {
      hide Linked, Owned, Timed;
      while |heap| > 0
        invariant Valid() && live <= old(live)
        invariant forall t | t > now ::
          && heap[t] == old(heap)[t] && (t in expires <==> t in old(expires))
          && (t in expires ==> expires[t] == old(expires)[t])
        invariant forall m <- old(live) :: !old(m.companion) && m.expire > now ==> m in live && !m.companion
        decreases heap
      {
        var first := Least(heap);
        if first > now {
          return;
        }
        ExpireAt(first);
      }
    }

    method Demote(m: Mapping)
      requires Linked() && Owned() && m in live && !m.companion && m.client in clients.Values
      requires OnePerKey(m.client.mappings)
      requires exists k :: k in m.client.mappings && k.nport == m.nport && k.proto == Other(m.proto) && !k.companion
      modifies m`companion
      ensures Linked() && Owned() && m.companion
    {
      hide Paired;
      Home(m.client);
      m.client.Demote(m, natted[m.client.nsrc].ports);
    }

    // ---------- Requests ----------

    ghost function ViewOf(c: Client): View
      requires c.nsrc in natted
      reads this, SourceOf(c), c, live
    {
      View(SourceOf(c).ports, c.mappings, map m | m in live :: m.State(), expires, heap)
    }

    /** A port the request can be met with: the one the source port has already, or a free one,
        or one of the client's own whose mapping is of the source and serves nothing else */
    ghost predicate Settled(c: Client, src: string, sport: int, nport: int, proto: Proto)
      requires c.nsrc in natted
      reads this, SourceOf(c), c, c.mappings
    {
      var ports := SourceOf(c).ports;
      && (forall k <- c.mappings :: k.Serves(src, sport, proto) ==> k.nport == nport)
      && nport in ports
      && (ports[nport] == ""
          || (ports[nport] == c.ipv6 && forall m <- c.mappings :: IsFor(m, nport, proto) ==> Free(m, src, sport)))
    }

    static predicate Free(m: Mapping, src: string, sport: int)
      reads m
    {
      m.src == src && (m.companion || m.down || m.sport == sport)
    }

    /** The port a source port has is one its request can be met with */
    lemma SettledOwn(c: Client, m: Mapping, src: string, sport: int, proto: Proto)
      requires Valid() && c in clients.Values && m in c.mappings && m.Serves(src, sport, proto)
      ensures c.nsrc in natted && Settled(c, src, sport, m.nport, proto)
    {
      Home(c);
    }

    lemma SettledFree(c: Client, src: string, sport: int, nport: int, proto: Proto)
      requires Valid() && c in clients.Values && forall k <- c.mappings :: !k.Serves(src, sport, proto)
      requires c.nsrc in natted && nport in SourceOf(c).ports && SourceOf(c).ports[nport] == ""
      ensures Settled(c, src, sport, nport, proto)
    {
    }

    /** A source port that has no port gets a free one, with a pair of mappings */
    method NewPair(c: Client, src: string, sport: int, nport: int, life: int, proto: Proto, now: int, granted: bool)
      returns (outcome: Outcome)
      requires Valid() && c in clients.Values && c.nsrc in natted && life > 0 && now >= 0
      requires nport in SourceOf(c).ports && SourceOf(c).ports[nport] == ""
      requires forall k <- c.mappings :: !k.Serves(src, sport, proto)
      modifies this`live, this`heap, this`expires, c`mappings, SourceOf(c)`ports
      ensures natted == old(natted)
      ensures outcome == if |old(c.mappings)| >= MAX_MAPPINGS
        then OutOfResources else if granted then Granted
        else Refused
      ensures Effect(old(ViewOf(c)), ViewOf(c), c, src, sport, nport, proto, now + life, granted, outcome)
      ensures Valid() && forall o <- live :: o in old(live) || fresh(o)
    {
      hide Valid, GrantedEffect;
      if |c.mappings| >= MAX_MAPPINGS {
        return OutOfResources;
      }
      if granted {
        GrantPair(c, src, sport, nport, life, proto, now);
        outcome := Granted;
      } else {
        outcome := Refused;
      }
    }

    method GrantPair(c: Client, src: string, sport: int, nport: int, life: int, proto: Proto, now: int)
      requires Valid() && c in clients.Values && c.nsrc in natted && life > 0 && now >= 0 && |c.mappings| < MAX_MAPPINGS
      requires nport in SourceOf(c).ports && SourceOf(c).ports[nport] == ""
      requires forall k <- c.mappings :: !k.Serves(src, sport, proto)
      modifies this`live, this`heap, this`expires, c`mappings, SourceOf(c)`ports
      ensures natted == old(natted)
      ensures Effect(old(ViewOf(c)), ViewOf(c), c, src, sport, nport, proto, now + life, true, Granted)
      ensures Valid() && forall o <- live :: o in old(live) || fresh(o)
    {
      hide Valid, GrantedEffect;
      ghost var b := ViewOf(c);
      var m, k := Fresh(c, src, sport, nport, life, proto, now);
      ghost var a := ViewOf(c);
      assert a.rows.Keys == live && a.rows[m] == m.State() && a.rows[k] == k.State();
      PairGranted(b, a, c, m, k, src, sport, now + life);
    }

    method Fresh(c: Client, src: string, sport: int, nport: int, life: int, proto: Proto, now: int)
      returns (m: Mapping, k: Mapping)
      requires Valid() && c in clients.Values && c.nsrc in natted && life > 0 && now >= 0 && |c.mappings| < MAX_MAPPINGS
      requires nport in SourceOf(c).ports && SourceOf(c).ports[nport] == ""
      requires forall k <- c.mappings :: !k.Serves(src, sport, proto)
      modifies this`live, this`heap, this`expires, c`mappings, SourceOf(c)`ports
      ensures Valid() && m.Serves(src, sport, proto) && m.nport == nport && m.expire == now + life && !m.down
      ensures !m.companion
      ensures c.mappings == old(c.mappings) + [m, k] && live == old(live) + {m, k}
      ensures SourceOf(c).ports == old(SourceOf(c).ports)[nport := c.ipv6] && m.proto == proto && m !in old(live)
      ensures k !in old(live)
      ensures k.nport == nport && k.proto == Other(proto) && k.State() == Row(src, 0, 0, true, false)
      ensures fresh(m) && fresh(k)
    {
      hide Linked, Owned, Timed, Paired;
      m, k := Two(c, src, sport, nport, proto);
      assert live - {m} == live;
      Arm(m, now + life);
      JoinPair(m, k);
      TimedTwo(expires, live - {m, k}, m, k);
      assert live - {m, k} + {m} + {k} == live;
    }

    /** A mapping, and the companion it has */
    method Two(c: Client, src: string, sport: int, nport: int, proto: Proto) returns (m: Mapping, k: Mapping)
      ensures fresh(m) && fresh(k) && m != k && m.client == c && k.client == c && m.nport == k.nport == nport
      ensures m.proto == proto && k.proto == Other(proto)
      ensures m.Serves(src, sport, proto) && !m.down && k.State() == Row(src, 0, 0, true, false)
    {
      m := new Mapping(c, nport, proto);
      m.src := src;
      m.sport := sport;
      m.companion := false;
      k := new Mapping(c, nport, Other(proto));
      k.src := src;
    }

    method JoinPair(m: Mapping, k: Mapping)
      requires Linked() && Owned() && m !in live && k !in live && m != k && m.client == k.client && m.nport == k.nport
      requires k.proto == Other(m.proto)
      requires m.client in clients.Values && m.client.nsrc in natted && !m.companion && k.companion && m.src == k.src
      requires |m.client.mappings| < MAX_MAPPINGS && forall o <- m.client.mappings :: !o.Serves(m.src, m.sport, m.proto)
      requires m.nport in SourceOf(m.client).ports && SourceOf(m.client).ports[m.nport] == ""
      modifies this`live, m.client`mappings, SourceOf(m.client)`ports
      ensures Linked() && Owned() && live == old(live) + {m, k} && m.client.mappings == old(m.client.mappings) + [m, k]
      ensures SourceOf(m.client).ports == old(SourceOf(m.client).ports)[m.nport := m.client.ipv6]
    {
      hide Linked, Paired;
      var c := m.client;
      Home(c);
      PairJoins(c.mappings, m, k, c, natted[c.nsrc].ports);
      OthersKeep(c, m.nport, c.ipv6);
      AllListed(c);
      Put(c, c.mappings + [m, k], m.nport, c.ipv6, live + {m, k});
    }

    /** The companion of a port in use gets a source port of its own; what was on hold stays marked so */
    method Promote(c: Client, m: Mapping, sport: int, life: int, now: int, granted: bool) returns (outcome: Outcome)
      requires Valid() && c in clients.Values && c.nsrc in natted && m in c.mappings && m.companion && life > 0
      requires now >= 0
      requires forall k <- c.mappings :: !k.Serves(m.src, sport, m.proto)
      modifies this`heap, this`expires, m`sport, m`companion, m`expire
      ensures Valid()
      ensures outcome == if granted then Granted else Refused
      ensures Effect(old(ViewOf(c)), ViewOf(c), c, m.src, sport, m.nport, m.proto, now + life, granted, outcome)
    {
      hide Valid, GrantedEffect;
      Within(c, m);
      ghost var b := ViewOf(c);
      if granted {
        Start(c, m, sport, now + life);
        MappingGranted(b, ViewOf(c), c, m, sport, now + life);
        outcome := Granted;
      } else {
        OneFor(c, m);
        NoRenewal(b, c, m);
        Stay(c, m);
        outcome := Refused;
      }
    }

    method Start(c: Client, m: Mapping, sport: int, until: int)
      requires Valid() && c in clients.Values && m in c.mappings && m.companion && until > 0
      requires forall k <- c.mappings :: !k.Serves(m.src, sport, m.proto)
      modifies this`heap, this`expires, m`sport, m`companion, m`expire
      ensures Valid() && m.sport == sport && !m.companion && m.expire == until
    {
      hide Linked, Timed, Owned;
      TimedWithout(expires, live, m);
      Homes(m);
      Serve(c, m, sport, false);
      Arm(m, until);
      assert live + {m} == live;
    }

    method Stay(c: Client, m: Mapping)
      requires Valid() && c in clients.Values && m in c.mappings && m.companion
      modifies m`sport, m`companion
      ensures Valid() && m.sport == 0 && m.companion
    {
      hide Linked, Owned;
      Serve(c, m, 0, true);
    }

    lemma OneFor(c: Client, m: Mapping)
      requires Valid() && c in clients.Values && m in c.mappings
      ensures forall k <- c.mappings :: IsFor(k, m.nport, m.proto) ==> k == m
    {
      Home(c);
    }

    lemma NoRenewal(b: View, c: Client, m: Mapping)
      requires m in b.rows && b.rows[m].companion && forall k <- b.mappings :: IsFor(k, m.nport, m.proto) ==> k == m
      ensures !Renewal(b, m.nport, m.proto)
    {
    }

    lemma Within(c: Client, m: Mapping)
      requires Valid() && c in clients.Values && m in c.mappings
      ensures m in live && m.client == c && c.ipv6 != "" && c.nsrc in natted
      ensures m.nport in SourceOf(c).ports && SourceOf(c).ports[m.nport] == c.ipv6
    {
      AtHome(m);
      Home(c);
    }

    /** The mapping's source port changes, and the others of the client have another */
    method Serve(c: Client, m: Mapping, sport: int, companion: bool)
      requires Linked() && Owned() && c in clients.Values && m in c.mappings && (companion ==> m.companion)
      requires companion || forall k <- c.mappings :: k.Serves(m.src, sport, m.proto) ==> k == m
      modifies m`sport, m`companion
      ensures Linked() && Owned() && m.sport == sport && m.companion == companion
    {
      hide Paired;
      Home(c);
      assert clients[c.ipv6] == c;
      c.Serve(m, sport, companion, natted[c.nsrc].ports);
    }

    /** The mapping is given a new lifetime, whatever the answer; one on hold is taken back, for the new source port */
    method Renew(c: Client, m: Mapping, sport: int, life: int, now: int, ghost granted: bool)
      requires Valid() && c in clients.Values && c.nsrc in natted && m in c.mappings && !m.companion && life > 0
      requires now >= 0 && (m.down || m.sport == sport)
      requires forall k <- c.mappings :: k.Serves(m.src, sport, m.proto) ==> k == m
      modifies this`heap, this`expires, m`sport, m`companion, m`down, m`expire
      ensures Valid()
      ensures Effect(old(ViewOf(c)), ViewOf(c), c, m.src, sport, m.nport, m.proto, now + life, granted, Granted)
    {
      hide Valid, GrantedEffect;
      Within(c, m);
      ghost var b := ViewOf(c);
      Extend(c, m, sport, now + life);
      MappingGranted(b, ViewOf(c), c, m, sport, now + life);
    }

    method Extend(c: Client, m: Mapping, sport: int, until: int)
      requires Valid() && c in clients.Values && m in c.mappings && !m.companion && until > 0
      requires (m.down || m.sport == sport)
      requires forall k <- c.mappings :: k.Serves(m.src, sport, m.proto) ==> k == m
      modifies this`heap, this`expires, m`sport, m`companion, m`down, m`expire
      ensures Valid() && m.sport == sport && !m.down && !m.companion && m.expire == until
    {
      hide Linked, Timed, Owned;
      Homes(m);
      Disarm(m);
      if m.down {
        m.down := false;
        Serve(c, m, sport, false);
      }
      Arm(m, until);
      assert live + {m} == live;
    }

    /** Whether a port will do, and the mapping it has if it is the client's */
    method Fits(c: Client, src: string, sport: int, nport: int, proto: Proto) returns (fits: bool, m: Mapping?)
      requires Valid() && c in clients.Values && c.nsrc in natted
      requires forall k <- c.mappings :: k.Serves(src, sport, proto) ==> k.nport == nport
      ensures fits <==> Settled(c, src, sport, nport, proto)
      ensures fits ==> nport in SourceOf(c).ports && (m == null <==> SourceOf(c).ports[nport] == "")
      ensures fits && m != null ==> m in c.mappings && IsFor(m, nport, proto) && Free(m, src, sport)
      ensures fits && m == null ==> forall k <- c.mappings :: !k.Serves(src, sport, proto)
      ensures fits && m != null ==> forall k <- c.mappings :: k.Serves(src, sport, proto) ==> k == m
    {
      Home(c);
      var natsrc := natted[c.nsrc];
      fits, m := nport != 0 && nport in natsrc.ports, null;
      if fits && natsrc.ports[nport] != "" {
        if natsrc.clients[natsrc.ports[nport]] != c {
          fits := false;
        } else {
          HasBoth(c, nport);
          m := c.GetMap(nport, proto);
          fits := m.src == src && (m.companion || m.down || m.sport == sport);
        }
      }
    }

    /** setmapping: the port asked for, or else another one, unless it must be that one */
    method SetMapping(ip: string, src: string, sport: int, spec: Natspec, life: int, proto: Proto, now: int,
        granted: bool)
      returns (outcome: Outcome)
      requires Valid() && life > 0 && now >= 0
      modifies this`live, this`heap, this`expires, spec`port, Region(ip)
      ensures Valid() && forall o <- live :: o in old(live) || fresh(o)
      ensures spec.locked ==> spec.port == old(spec.port)
      ensures ip !in clients ==> outcome == Refused && spec.port == old(spec.port)
      ensures ip in clients && old(Settled(clients[ip], src, sport, spec.port, proto)) ==>
        spec.port == old(spec.port) && outcome != UnavailablePort
      ensures ip in clients && old(Settled(clients[ip], src, sport, spec.port, proto)) && outcome == OutOfResources ==>
        old(SourceOf(clients[ip]).ports[spec.port]) == ""
      ensures ip in clients && !old(Settled(clients[ip], src, sport, spec.port, proto)) && spec.locked ==>
        outcome == UnavailablePort
      ensures ip in clients && outcome in {Granted, Refused} ==>
        var p := spec.port; old(Settled(clients[ip], src, sport, p, proto))
      ensures ip in clients ==>
        Effect(old(ViewOf(clients[ip])), ViewOf(clients[ip]), clients[ip],
               src, sport, spec.port, proto, now + life, granted, outcome)
      decreases if ip in clients && Settled(clients[ip], src, sport, spec.port, proto) then 0 else 1
    {
      hide Valid, Settled, Effect, ViewOf, Region, Mapping.Serves, IsFor, Free;
      NotRegion(ip, spec);
      if ip !in clients {
        return Refused;
      }
      var c := clients[ip];
      AtHomeClient(ip);
      var nport := spec.port;
      var mapping := c.GetSrc(src, sport, proto);
      if mapping != null && nport != mapping.nport {
        NotSettled(c, mapping, src, sport, nport, proto);
        if spec.locked {
          NoEffect(c, ViewOf(c), src, sport, nport, proto, now + life, granted);
          return UnavailablePort;
        }
        SettledOwn(c, mapping, src, sport, proto);
        spec.port := mapping.nport;
        outcome := SetMapping(ip, src, sport, spec, life, proto, now, granted);
        return;
      }
      OneServes(c, mapping, src, sport, proto);
      var fits, m := Fits(c, src, sport, nport, proto);
      if mapping != null {
        SettledOwn(c, mapping, src, sport, proto);
      }
      if !fits {
        if spec.locked {
          NoEffect(c, ViewOf(c), src, sport, nport, proto, now + life, granted);
          return UnavailablePort;
        }
        var found, free := natted[c.nsrc].GetFreePort();
        if !found {
          NoneFree(c, src, sport, nport, proto, now + life, granted);
          return OutOfResources;
        }
        SettledFree(c, src, sport, free, proto);
        spec.port := free;
        outcome := SetMapping(ip, src, sport, spec, life, proto, now, granted);
        return;
      }
      outcome := Meet(c, m, src, sport, nport, life, proto, now, granted);
    }

    /** The port is free, or m is the mapping it has and may serve the source port */
    ghost predicate Usable(c: Client, m: Mapping?, src: string, sport: int, nport: int, proto: Proto)
      requires c.nsrc in natted
      reads this, SourceOf(c), c, m
    {
      if m == null then nport in SourceOf(c).ports && SourceOf(c).ports[nport] == ""
      else m in c.mappings && IsFor(m, nport, proto) && Free(m, src, sport)
    }

    /** The port will do: it is free, or m is the mapping it has */
    method Meet(c: Client, m: Mapping?, src: string, sport: int, nport: int, life: int, proto: Proto, now: int,
        granted: bool)
      returns (outcome: Outcome)
      requires Valid() && c in clients.Values && c.nsrc in natted && life > 0 && now >= 0
      requires Usable(c, m, src, sport, nport, proto)
      requires forall k <- c.mappings :: k.Serves(src, sport, proto) ==> k == m
      requires c.ipv6 in clients && clients[c.ipv6] == c
      modifies this`live, this`heap, this`expires, Region(c.ipv6)
      ensures natted == old(natted) && forall o <- live :: o in old(live) || fresh(o)
      ensures Valid() && outcome != UnavailablePort && (outcome == OutOfResources ==> m == null)
      ensures Effect(old(ViewOf(c)), ViewOf(c), c, src, sport, nport, proto, now + life, granted, outcome)
    {
      hide Valid, Effect;
      if m == null {
        outcome := NewPair(c, src, sport, nport, life, proto, now, granted);
      } else if m.companion {
        outcome := Promote(c, m, sport, life, now, granted);
      } else {
        Renew(c, m, sport, life, now, granted);
        outcome := Granted;
      }
    }

    /** In every state between requests: a port is a client's exactly when the client has one UDP and one TCP
        mapping for it, not both companions; and a source port is served at one port at most */
    lemma Ownership(ip: string, port: int)
      requires Valid() && ip in clients && clients[ip].nsrc in natted
      ensures port in SourceOf(clients[ip]).ports && SourceOf(clients[ip]).ports[port] == ip <==>
        Both(clients[ip].mappings, port)
      ensures forall m, k | m in clients[ip].mappings && k in clients[ip].mappings && m != k ::
        IsFor(m, port, m.proto) ==> !IsFor(k, port, m.proto)
      ensures forall m, k | m in clients[ip].mappings && k in clients[ip].mappings && m != k && !m.companion ::
        !k.Serves(m.src, m.sport, m.proto)
      ensures |clients[ip].mappings| <= MAX_MAPPINGS
    {
      Home(clients[ip]);
      assert Paired(clients[ip].mappings, clients[ip], SourceOf(clients[ip]).ports);
    }

    /** A port has one owner: two clients behind one natted address never have mappings for the same port */
    lemma OneOwner(ip: string, ip': string, m: Mapping, k: Mapping)
      requires Valid() && ip in clients && ip' in clients && clients[ip].nsrc == clients[ip'].nsrc
      requires m in clients[ip].mappings && k in clients[ip'].mappings && m.nport == k.nport
      ensures ip == ip'
    {
      AtHome(m);
      AtHome(k);
      Home(clients[ip]);
      Home(clients[ip']);
    }

    // ---------- Deletion by request ----------

    /** The mapping is deleted at the AFTR and goes on hold, with its port */
    method Release(m: Mapping, now: int)
      requires Valid() && m in live && !m.companion && now >= 0
      modifies this`heap, this`expires, m`expire, m`down
      ensures Valid() && m.State() == old(m.State()).(expire := now + HOLD, down := true)
    {
      hide Linked, Timed, Owned;
      Disarm(m);
      Hold(m, now);
      assert live + {m} == live;
    }

    /** delmapping: the mapping that serves the source port, unless it is on hold */
    method DelMapping(ip: string, src: string, sport: int, proto: Proto, now: int) returns (known: bool)
      requires Valid() && now >= 0
      modifies this`heap, this`expires, live`expire, live`down
      ensures Valid() && known == (ip in clients)
      ensures forall m <- live ::
        m.State() == if known && m in clients[ip].mappings && old(m.Serves(src, sport, proto) && !m.down)
          then old(m.State()).(expire := now + HOLD, down := true) else old(m.State())
    {
      hide Valid, Mapping.Serves;
      known := ip in clients;
      if known {
        Members(ip);
        OneServing(ip, src, sport, proto);
        var m := clients[ip].GetSrc(src, sport, proto);
        if m != null && !m.down {
          ServesItself(m, src, sport, proto);
          Release(m, now);
        }
      }
    }

    /** delsrcall: all that a source has; delall: all that the client has (src is then None) */
    method DelAll(ip: string, src: Option<string>, proto: Proto, now: int) returns (known: bool)
      requires Valid() && now >= 0
      modifies this`heap, this`expires, live`expire, live`down
      ensures Valid() && known == (ip in clients)
      ensures forall m <- live ::
        m.State() ==
        if known && m in clients[ip].mappings && m.proto == proto && old(!m.companion && !m.down)
           && (src.Some? ==> old(m.src) == src.value)
        then old(m.State()).(expire := now + HOLD, down := true)
        else old(m.State())
    {
      hide Valid;
      known := ip in clients;
      if known {
        Members(ip);
        var s := clients[ip].mappings;
        for i := 0 to |s|
          invariant Valid()
          invariant forall j | i <= j < |s| :: s[j].State() == old(s[j].State())
          invariant forall m <- live :: m.State() == if m in s[..i] && old(Deletable(m, src, proto))
                then old(m.State()).(expire := now + HOLD, down := true) else old(m.State())
        {
          assert s[..i + 1] == s[..i] + [s[i]];
          if Deletable(s[i], src, proto) {
            Release(s[i], now);
          }
        }
        assert s[..|s|] == s;
      }
    }

    lemma Members(ip: string)
      requires Valid() && ip in clients
      ensures Distinct(clients[ip].mappings) && forall m <- clients[ip].mappings :: m in live
    {
      Home(clients[ip]);
    }

    lemma OneServing(ip: string, src: string, sport: int, proto: Proto)
      requires Valid() && ip in clients
      ensures forall m, k | m in clients[ip].mappings && k in clients[ip].mappings
                            && m.Serves(src, sport, proto) && k.Serves(src, sport, proto) ::
        m == k
    {
      Home(clients[ip]);
    }

    lemma ServesItself(m: Mapping, src: string, sport: int, proto: Proto)
      requires m.Serves(src, sport, proto)
      ensures !m.companion
    {
    }

    // ---------- Clients and natted addresses ----------

    /** getextaddr: a client whose tunnel the AFTR knows the natted address of (nsrc is its answer) */
    method GetExtAddr(ip: string, nsrc: string) returns (c: Client?)
      requires Valid() && ip != "" && (nsrc == "" || nsrc in natted)
      modifies this`clients, natted.Values`clients
      ensures Valid()
      ensures c == if ip in old(clients) then old(clients)[ip] else c
      ensures old(ip !in clients) && nsrc == "" ==> c == null
      ensures old(ip !in clients) && nsrc != "" ==>
        c != null && fresh(c) && c.ipv6 == ip && c.nsrc == nsrc && c.mappings == []
      ensures clients == if c == null then old(clients) else old(clients)[ip := c]
    {
      hide Valid;
      if ip in clients {
        return clients[ip];
      }
      if nsrc != "" {
        c := new Client(ip, nsrc);
        Enrol(c);
      } else {
        c := null;
      }
    }

    method Enrol(c: Client)
      requires Valid() && c.ipv6 != "" && c.ipv6 !in clients && c.nsrc in natted && c.mappings == []
      requires c !in clients.Values
      modifies this`clients, SourceOf(c)`clients
      ensures Valid() && clients == old(clients)[c.ipv6 := c]
    {
      hide Linked, Timed, Paired;
      OwnsNothing(c);
      forall ip | ip in clients ensures clients[ip].nsrc in natted {
        AtHomeClient(ip);
      }
      Link(c);
      assert Paired(c.mappings, c, SourceOf(c).ports);
      assert forall ip <- old(clients) :: Paired(clients[ip].mappings, clients[ip], natted[clients[ip].nsrc].ports);
    }

    method Link(c: Client)
      requires Linked() && c.ipv6 != "" && c.ipv6 !in clients && c.nsrc in natted && c.mappings == []
      requires c !in clients.Values
      modifies this`clients, SourceOf(c)`clients
      ensures Linked() && clients == old(clients)[c.ipv6 := c]
    {
      MoreClients(clients, c.ipv6, c);
      clients := clients[c.ipv6 := c];
      natted[c.nsrc].clients := natted[c.nsrc].clients[c.ipv6 := c];
      forall ip | ip in clients ensures Known(ip) {
        assert ip != c.ipv6 ==> old(Known(ip));
      }
      forall n | n in natted ensures SourceOk(n) {
        assert old(SourceOk(n));
      }
    }

    lemma OwnsNothing(c: Client)
      requires Linked() && c.nsrc in natted && c.ipv6 !in clients && c.ipv6 != ""
      ensures Paired([], c, SourceOf(c).ports)
    {
      forall p | p in SourceOf(c).ports ensures SourceOf(c).ports[p] != c.ipv6 {
        assert p in natted[c.nsrc].ports;
      }
    }

    /** A -n option: a natted address with its range of ports */
    method AddSource(nsrc: string, minport: int, maxport: int)
      requires Valid() && clients == map[] && nsrc !in natted && (minport > 0 || maxport < 0)
      modifies this`natted
      ensures Valid() && nsrc in natted && natted == old(natted)[nsrc := natted[nsrc]] && fresh(natted[nsrc])
      ensures (forall p :: p in natted[nsrc].ports <==> minport <= p <= maxport)
      ensures forall p <- natted[nsrc].ports :: natted[nsrc].ports[p] == ""
    {
      var s := new Natsrc(minport, maxport);
      natted := natted[nsrc := s];
    }

    lemma RegionParts(ip: string)
      requires Valid()
      ensures forall o <- Region(ip) :: o in clients.Values || o in natted.Values || o in live
    {
      if ip in clients {
        Home(clients[ip]);
      }
    }

    lemma OnlyThese(c: Client, m: Mapping, k: Mapping)
      requires Valid() && c in clients.Values && forall o <- c.mappings :: o == m || o == k
      ensures forall o <- live :: o.client == c ==> o == m || o == k
    {
      AllListed(c);
    }

    /** After expiry: k keeps the port, so m is there, and has become a companion if its time has come */
    lemma StillThere(c: Client, m: Mapping, k: Mapping, now: int)
      requires Valid() && c in clients.Values && (forall o <- live :: o.client == c ==> o == m || o == k)
      requires forall t <- heap :: t > now
      requires k in live && k.client == c && m.client == c && m.nport == k.nport && m.proto == Udp && k.proto == Tcp
      requires m.expire <= now
      ensures m in live && m in c.mappings && k in c.mappings && m.companion
      ensures (forall o <- c.mappings :: o == m || o == k)
      ensures c.nsrc in natted && m.nport in SourceOf(c).ports && SourceOf(c).ports[m.nport] == c.ipv6
    {
      AtHome(k);
      AllListed(c);
      var u :| u in c.mappings && u.nport == m.nport && u.proto == Udp;
      assert u == m;
    }

    lemma NotRegion(ip: string, spec: Natspec)
      ensures (spec as object) !in Region(ip) && (this as object) !in Region(ip)
    {
    }

    lemma NoEffect(c: Client, b: View, src: string, sport: int, port: int, proto: Proto, until: int, granted: bool)
      ensures Effect(b, b, c, src, sport, port, proto, until, granted, UnavailablePort)
    {
    }

    lemma NoneFree(c: Client, src: string, sport: int, port: int, proto: Proto, until: int, granted: bool)
      requires c.nsrc in natted && forall p <- SourceOf(c).ports :: SourceOf(c).ports[p] != ""
      ensures Effect(ViewOf(c), ViewOf(c), c, src, sport, port, proto, until, granted, OutOfResources)
    {
    }

    lemma HasBoth(c: Client, port: int)
      requires Linked() && Owned() && c in clients.Values && c.nsrc in natted && port in SourceOf(c).ports
      requires SourceOf(c).ports[port] in SourceOf(c).clients && SourceOf(c).clients[SourceOf(c).ports[port]] == c
      ensures SourceOf(c).ports[port] == c.ipv6 && Both(c.mappings, port)
    {
      Home(c);
      var entry := natted[c.nsrc].ports[port];
      assert entry in natted[c.nsrc].clients && clients[entry] == c && Known(entry);
      assert Paired(clients[c.ipv6].mappings, c, SourceOf(c).ports);
    }

    lemma AtHomeClient(ip: string)
      requires Valid() && ip in clients
      ensures clients[ip] in clients.Values && clients[ip].ipv6 == ip && clients[ip].nsrc in natted
      ensures SourceOf(clients[ip]) in natted.Values
    {
      Home(clients[ip]);
    }

    lemma NotSettled(c: Client, m: Mapping, src: string, sport: int, nport: int, proto: Proto)
      requires m in c.mappings && m.Serves(src, sport, proto) && m.nport != nport && c.nsrc in natted
      ensures !Settled(c, src, sport, nport, proto)
    {
    }

    lemma OneServes(c: Client, m: Mapping?, src: string, sport: int, proto: Proto)
      requires Valid() && c in clients.Values
      requires if m == null then forall k <- c.mappings ::
        !k.Serves(src, sport, proto) else m in c.mappings && m.Serves(src, sport, proto)
      ensures forall k <- c.mappings :: k.Serves(src, sport, proto) ==> k == m
    {
      Home(c);
    }
  }

  // ---------- A mapping that cannot be deleted any more ----------

  /** A client with port 1 of its natted address, the UDP mapping m for it and the TCP mapping k, and no others */
  ghost predicate Owner(d: Daemon, c: Client, m: Mapping, k: Mapping)
    reads d, d.natted.Values, d.clients.Values, c, d.live, d.live`expire
  {
    && d.Valid() && "c" in d.clients && d.clients["c"] == c && c.nsrc in d.natted && c.ipv6 == "c"
    && m in c.mappings && IsFor(m, 1, Udp) && k in c.mappings && IsFor(k, 1, Tcp)
    && (forall o <- c.mappings :: o == m || o == k)
    && m in d.live && k in d.live && m.client == c && k.client == c
    && 1 in d.SourceOf(c).ports && d.SourceOf(c).ports[1] == "c"
  }

  /** The first mapping of a client, and its companion */
  method FirstMapping(d: Daemon, c: Client, spec: Natspec) returns (m: Mapping, k: Mapping)
    requires d.Valid() && "c" in d.clients && d.clients["c"] == c && c.nsrc in d.natted && c.mappings == []
    requires spec.locked && spec.port == 1 && 1 in d.SourceOf(c).ports && d.SourceOf(c).ports[1] == ""
    modifies d`live, d`heap, d`expires, spec`port, d.Region("c")
    ensures Owner(d, c, m, k) && spec.port == 1 && forall o <- d.live :: o in old(d.live) || fresh(o)
    ensures d.clients == old(d.clients) && d.natted == old(d.natted)
    ensures m.State() == Row("s", 5, 1000, false, false) && k.State() == Row("s", 0, 0, true, false)
  {
    hide Daemon.Valid;
    d.AtHomeClient("c");
    var outcome := d.SetMapping("c", "s", 5, spec, 1000, Udp, 0, true);
    assert outcome == Granted;
    m, k := TwoMappings(c);
    d.Within(c, m);
    d.Within(c, k);
  }

  method TwoMappings(c: Client) returns (m: Mapping, k: Mapping)
    requires |c.mappings| == 2
    requires exists x :: x in c.mappings && IsFor(x, 1, Udp) && x.State() == Row("s", 5, 1000, false, false)
    requires exists x :: x in c.mappings && IsFor(x, 1, Tcp) && x.State() == Row("s", 0, 0, true, false)
    ensures m in c.mappings && IsFor(m, 1, Udp) && k in c.mappings && IsFor(k, 1, Tcp)
    ensures forall o <- c.mappings :: o == m || o == k
    ensures m.State() == Row("s", 5, 1000, false, false) && k.State() == Row("s", 0, 0, true, false)
  {
    m := c.GetMap(1, Udp);
    k := c.GetMap(1, Tcp);
  }

  lemma CanServe(d: Daemon, c: Client, m: Mapping, k: Mapping, sport: int, proto: Proto)
    requires Owner(d, c, m, k)
    requires if proto == Udp then Daemon.Free(m, "s", sport) else Daemon.Free(k, "s", sport)
    ensures d.Settled(c, "s", sport, 1, proto)
  {
    hide Daemon.Valid;
  }

  /** The companion is asked for as well */
  method SecondMapping(d: Daemon, c: Client, spec: Natspec, m: Mapping, k: Mapping)
    requires Owner(d, c, m, k) && spec.locked && spec.port == 1
    requires m.State() == Row("s", 5, 1000, false, false) && k.State() == Row("s", 0, 0, true, false)
    modifies d`live, d`heap, d`expires, spec`port, d.Region("c")
    ensures Owner(d, c, m, k) && spec.port == 1 && forall o <- d.live :: o in old(d.live) || fresh(o)
    ensures d.clients == old(d.clients) && d.natted == old(d.natted)
    ensures m.State() == Row("s", 5, 1000, false, false) && k.State() == Row("s", 6, 100000, false, false)
  {
    hide Daemon.Valid, GrantedEffect, Daemon.Settled;
    ghost var b := d.ViewOf(c);
    assert b.rows[k] == k.State() && b.rows[m] == m.State() && b.rows.Keys == d.live;
    CanServe(d, c, m, k, 6, Tcp);
    var outcome := d.SetMapping("c", "s", 6, spec, 100000, Tcp, 0, true);
    assert outcome == Granted;
    GrantedThere(b, d.ViewOf(c), c, k, "s", 6, 100000);
    ghost var a := d.ViewOf(c);
    assert a.rows.Keys == d.live;
    assert a.rows[k] == k.State() && a.rows[m] == m.State();
  }

  method Delete(d: Daemon, c: Client, m: Mapping, k: Mapping, now: int)
    requires Owner(d, c, m, k) && m.Serves("s", 5, Udp) && now >= 0
    modifies d`heap, d`expires, d.live`expire, d.live`down
    ensures Owner(d, c, m, k)
    ensures m.State() == if old(m.down) then old(m.State()) else old(m.State()).(expire := now + HOLD, down := true)
    ensures k.State() == old(k.State())
  {
    hide Daemon.Valid;
    var known := d.DelMapping("c", "s", 5, Udp, now);
  }

  method LetExpire(d: Daemon, c: Client, m: Mapping, k: Mapping)
    requires Owner(d, c, m, k)
    requires m.State() == Row("s", 5, 130, false, true) && k.State() == Row("s", 6, 100000, false, false)
    modifies d`live, d`heap, d`expires, d.clients.Values`mappings, d.live`companion, d.natted.Values`ports
    ensures Owner(d, c, m, k) && d.live <= old(d.live)
    ensures m.State() == Row("s", 5, 130, true, true) && k.State() == Row("s", 6, 100000, false, false)
  {
    hide Daemon.Valid;
    d.OnlyThese(c, m, k);
    d.Expire(200);
    d.StillThere(c, m, k, 200);
  }

  method Again(d: Daemon, c: Client, spec: Natspec, m: Mapping, k: Mapping)
    requires Owner(d, c, m, k) && spec.locked && spec.port == 1
    requires m.State() == Row("s", 5, 130, true, true) && k.State() == Row("s", 6, 100000, false, false)
    modifies d`live, d`heap, d`expires, spec`port, d.Region("c")
    ensures Owner(d, c, m, k) && m.State() == Row("s", 5, 1200, false, true) && d.live <= old(d.live)
  {
    hide Daemon.Valid, GrantedEffect, Daemon.Settled;
    ghost var b := d.ViewOf(c);
    assert b.rows[k] == k.State() && b.rows[m] == m.State() && b.rows.Keys == d.live;
    CanServe(d, c, m, k, 5, Udp);
    var outcome := d.SetMapping("c", "s", 5, spec, 1000, Udp, 200, true);
    assert outcome == Granted;
    GrantedThere(b, d.ViewOf(c), c, m, "s", 5, 1200);
    ghost var a := d.ViewOf(c);
    assert a.rows.Keys == d.live;
    assert a.rows[k] == k.State() && a.rows[m] == m.State();
  }

  /** The UDP mapping is deleted, its hold ends while the TCP one lives, and it is asked for again.  It then
      serves its source port, but counts as on hold: deleting it has no effect, and when it expires the AFTR
      is not told. */
  method HeldForGood(d: Daemon, c: Client, spec: Natspec, m: Mapping, k: Mapping)
    requires Owner(d, c, m, k) && spec.locked && spec.port == 1
    requires m.State() == Row("s", 5, 1000, false, false) && k.State() == Row("s", 6, 100000, false, false)
    modifies d`live, d`heap, d`expires, spec`port, d.clients.Values, d.natted.Values, d.live
    ensures Owner(d, c, m, k) && m.State() == Row("s", 5, 1200, false, true)
  {
    hide Daemon.Valid;
    Delete(d, c, m, k, 10);
    LetExpire(d, c, m, k);
    d.RegionParts("c");
    Again(d, c, spec, m, k);
    Delete(d, c, m, k, 210);
  }

  /** The same from the start of the daemon on: a natted address with port 1, a client, and its two mappings */
  method HeldFromTheStart() returns (d: Daemon, c: Client, m: Mapping, k: Mapping)
    ensures Owner(d, c, m, k) && m.State() == Row("s", 5, 1200, false, true)
  {
    hide Daemon.Valid, Owner, Daemon.Region;
    var spec: Natspec;
    d, c, spec := OneClient();
    m, k := FirstMapping(d, c, spec);
    OwnerRegion(d, c, m, k);
    SecondMapping(d, c, spec, m, k);
    HeldForGood(d, c, spec, m, k);
  }

  lemma OwnerRegion(d: Daemon, c: Client, m: Mapping, k: Mapping)
    requires Owner(d, c, m, k)
    ensures forall o <- d.Region("c") :: o in d.clients.Values || o in d.natted.Values || o in d.live
  {
    hide Daemon.Valid, Daemon.Region;
    d.RegionParts("c");
  }

  method OneClient() returns (d: Daemon, c: Client, spec: Natspec)
    ensures d.Valid() && d.clients == map["c" := c] && c.nsrc in d.natted && c.mappings == []
    ensures 1 in d.SourceOf(c).ports && d.SourceOf(c).ports[1] == "" && spec.locked && spec.port == 1
    ensures d.live == {} && fresh(d) && fresh(spec) && fresh(d.Region("c"))
    ensures fresh(d.clients.Values) && fresh(d.natted.Values)
  {
    hide Daemon.Valid;
    d := new Daemon();
    d.AddSource("n", 1, 1);
    var client := d.GetExtAddr("c", "n");
    c := client;
    spec := new Natspec(1, true);
    assert d.natted == map["n" := d.natted["n"]];
    assert d.natted.Values == {d.natted["n"]} && d.clients.Values == {c};
  }
}
