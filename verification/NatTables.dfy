/**
  The tables of the NAT (state.cc, state.h, ip.cc): the pool of free IPv4 ports and the two maps that
  hold the flows. Ports are in network byte order.
 */
module NatTables {
  import opened Words

  const MIN_PORT: int := 32000
  const MAX_PORT: int := 60000
  const PORTS_PER_ADDRESS: int := MAX_PORT - MIN_PORT + 1

  /** An IPv6 address as its four 32-bit words; the last one embeds an IPv4 address. */
  datatype Ip6 = Ip6(w0: uint32, w1: uint32, w2: uint32, w3: uint32)
  datatype Ip6Port = Ip6Port(ip: Ip6, port: uint16)
  datatype Ip4Port = Ip4Port(ip: uint32, port: uint16)

  /** The end points given to the constructor of Flow. */
  datatype Flow = Flow(ip6p: Ip6Port, ip4p: Ip4Port, ip6srv: Ip6, ip4srv: uint32)

  // ----- comparators and map keys

  /**
    AsWritten: operator< and operator!= of ip.cc:79-93 compare the words of a with those of a.
    Intended: they compare the words of a with those of b.
   */
  datatype Comparator = AsWritten | Intended

  predicate Less6(cmp: Comparator, a: Ip6, b: Ip6) {
    var c := if cmp == AsWritten then a else b;
    if a.w0 != c.w0 then a.w0 < c.w0
    else if a.w1 != c.w1 then a.w1 < c.w1
    else if a.w2 != c.w2 then a.w2 < c.w2
    else a.w3 < c.w3
  }

  predicate Differ6(cmp: Comparator, a: Ip6, b: Ip6) {
    var c := if cmp == AsWritten then a else b;
    a.w0 != c.w0 || a.w1 != c.w1 || a.w2 != c.w2 || a.w3 != c.w3
  }

  /** ip.cc:187-192 */
  predicate Less6Port(cmp: Comparator, a: Ip6Port, b: Ip6Port) {
    if Differ6(cmp, a.ip, b.ip) then Less6(cmp, a.ip, b.ip) else a.port < b.port
  }

  /** std::pair's operator< on the keys of map64_. */
  predicate LessKey(cmp: Comparator, a: (Ip6Port, Ip6), b: (Ip6Port, Ip6)) {
    Less6Port(cmp, a.0, b.0) || (!Less6Port(cmp, b.0, a.0) && Less6(cmp, a.1, b.1))
  }

  /** std::map takes two keys for the same if neither is less. */
  predicate SameKey(cmp: Comparator, a: (Ip6Port, Ip6), b: (Ip6Port, Ip6)) {
    !LessKey(cmp, a, b) && !LessKey(cmp, b, a)
  }

  const NO_ADDRESS: Ip6 := Ip6(0, 0, 0, 0)

  /** One representative for all keys that the map takes for the same. */
  function KeyOf(cmp: Comparator, ip6p: Ip6Port, srv: Ip6): (Ip6Port, Ip6) {
    if cmp == AsWritten then (Ip6Port(NO_ADDRESS, ip6p.port), NO_ADDRESS) else (ip6p, srv)
  }

  /** The representative is right; as written, only the client's port tells two keys apart. */
  lemma KeysAreRepresentatives(cmp: Comparator, a: (Ip6Port, Ip6), b: (Ip6Port, Ip6))
    ensures SameKey(cmp, a, b) <==> KeyOf(cmp, a.0, a.1) == KeyOf(cmp, b.0, b.1)
    ensures SameKey(AsWritten, a, b) <==> a.0.port == b.0.port
    ensures SameKey(Intended, a, b) <==> a == b
  {
  }

  // ----- addresses

  /** state.cc:153-158: the /96 embedding of section 2.2 of RFC 6052. */
  function Embed(prefix: Ip6, ip: uint32): Ip6 {
    prefix.(w3 := ip)
  }

  /** state.cc:160-164 */
  function Extract(ip: Ip6): uint32 {
    ip.w3
  }

  /** state.cc:166-173 */
  predicate InPrefix(prefix: Ip6, ip: Ip6) {
    prefix.w0 == ip.w0 && prefix.w1 == ip.w1 && prefix.w2 == ip.w2
  }

  /** Embedding and extracting are inverse, on exactly the addresses inside the prefix. */
  lemma EmbedExtract(prefix: Ip6, ip4: uint32, ip6: Ip6)
    ensures Extract(Embed(prefix, ip4)) == ip4 && InPrefix(prefix, Embed(prefix, ip4))
    ensures Embed(prefix, Extract(ip6)) == ip6 <==> InPrefix(prefix, ip6)
  {
  }

  // ----- the tables as values

  datatype Tables = Tables(
    cmp: Comparator,
    prefix: Ip6,
    pool: seq<Ip4Port>,
    mapPool: set<uint32>,
    map64: map<(Ip6Port, Ip6), Flow>,
    map46: map<(Ip4Port, uint32), Flow>)

  /** state.cc:66-68: the ports MIN_PORT to MAX_PORT of an address. */
  function Ports(ip: uint32): seq<Ip4Port> {
    seq(PORTS_PER_ADDRESS, i requires 0 <= i < PORTS_PER_ADDRESS => Ip4Port(ip, Htons(MIN_PORT + i)))
  }

  function AddPool(t: Tables, ip: uint32): Tables {
    t.(pool := t.pool + Ports(ip), mapPool := t.mapPool + {ip})
  }

  datatype Mapped = Mapped(tables: Tables, flow: Option<Flow>)

  /** state.cc:72-93 */
  function MapFlow(t: Tables, ip6p: Ip6Port, srv: Ip6): Mapped {
    var key := KeyOf(t.cmp, ip6p, srv);
    if key in t.map64 then Mapped(t, Some(t.map64[key]))
    else if t.pool != [] then
      var flow := Flow(ip6p, t.pool[0], srv, Extract(srv));
      Mapped(t.(pool := t.pool[1..], map64 := t.map64[key := flow],
                map46 := t.map46[(t.pool[0], Extract(srv)) := flow]), Some(flow))
    else Mapped(t, None)
  }

  /** state.cc:109-121 */
  function GetMapping46(t: Tables, ip4p: Ip4Port, srv: uint32): Option<Flow> {
    if (ip4p, srv) in t.map46 then Some(t.map46[(ip4p, srv)]) else None
  }

  // ----- the invariant

  predicate NoRepeats(s: seq<Ip4Port>) {
    forall i, j :: 0 <= i < j < |s| ==> s[i] != s[j]
  }

  /** The pair is one of the 28001 ports of an address that was added. */
  predicate Added(t: Tables, p: Ip4Port) {
    p.ip in t.mapPool && MIN_PORT <= Htons(p.port) <= MAX_PORT
  }

  /** A flow uses the pair. */
  ghost predicate Allocated(t: Tables, p: Ip4Port) {
    exists k :: k in t.map64 && t.map64[k].ip4p == p
  }

  /** The pairs added are exactly the free and the allocated ones; no pair is both, none is free twice. */
  ghost predicate PairsOk(t: Tables) {
    && NoRepeats(t.pool)
    && (forall p :: p in t.pool ==> Added(t, p))
    && (forall p :: Added(t, p) ==> p in t.pool || Allocated(t, p))
    && (forall k :: k in t.map64 ==> Added(t, t.map64[k].ip4p) && t.map64[k].ip4p !in t.pool)
  }

  /** The number of pairs in the tables. */
  predicate Counted(t: Tables) {
    |t.pool| + |t.map64| == PORTS_PER_ADDRESS * |t.mapPool|
  }

  /** No pair backs two flows. */
  ghost predicate PairsUnique(t: Tables) {
    forall k, l :: k in t.map64 && l in t.map64 && t.map64[k].ip4p == t.map64[l].ip4p ==> k == l
  }

  ghost predicate Linked64(t: Tables, k: (Ip6Port, Ip6))
    requires k in t.map64
  {
    var f := t.map64[k];
    && k == KeyOf(t.cmp, f.ip6p, f.ip6srv) && f.ip4srv == Extract(f.ip6srv)
    && (f.ip4p, f.ip4srv) in t.map46 && t.map46[(f.ip4p, f.ip4srv)] == f
  }

  ghost predicate Linked46(t: Tables, k: (Ip4Port, uint32))
    requires k in t.map46
  {
    var f := t.map46[k];
    && k == (f.ip4p, f.ip4srv)
    && KeyOf(t.cmp, f.ip6p, f.ip6srv) in t.map64 && t.map64[KeyOf(t.cmp, f.ip6p, f.ip6srv)] == f
  }

  /** The two maps hold the same flows under keys that determine each other. */
  ghost predicate MapsLinked(t: Tables) {
    && (forall k :: k in t.map64 ==> Linked64(t, k))
    && (forall k :: k in t.map46 ==> Linked46(t, k))
  }

  ghost predicate Inv(t: Tables) {
    PairsOk(t) && Counted(t) && PairsUnique(t) && MapsLinked(t)
  }

  function Empty(cmp: Comparator, prefix: Ip6): Tables {
    Tables(cmp, prefix, [], {}, map[], map[])
  }

  lemma EmptyInv(cmp: Comparator, prefix: Ip6)
    ensures Inv(Empty(cmp, prefix))
  {
  }

  // ----- pool additions

  lemma PortsOf(ip: uint32)
    ensures |Ports(ip)| == PORTS_PER_ADDRESS && NoRepeats(Ports(ip))
    ensures forall p :: p in Ports(ip) <==> p.ip == ip && MIN_PORT <= Htons(p.port) <= MAX_PORT
  {
    var ports := Ports(ip);
    forall i, j | 0 <= i < j < |ports| ensures ports[i] != ports[j] {
      HtonsTwice(MIN_PORT + i);
      HtonsTwice(MIN_PORT + j);
    }
    forall p ensures p in ports <==> p.ip == ip && MIN_PORT <= Htons(p.port) <= MAX_PORT {
      PortOf(ip, p);
    }
  }

  lemma PortOf(ip: uint32, p: Ip4Port)
    ensures p in Ports(ip) <==> p.ip == ip && MIN_PORT <= Htons(p.port) <= MAX_PORT
  {
    var ports := Ports(ip);
    if p in ports {
      var i :| 0 <= i < |ports| && ports[i] == p;
      HtonsTwice(MIN_PORT + i);
    }
    if p.ip == ip && MIN_PORT <= Htons(p.port) <= MAX_PORT {
      HtonsTwice(p.port);
      assert ports[Htons(p.port) - MIN_PORT] == p;
    }
  }

  lemma NoRepeatsAppend(a: seq<Ip4Port>, b: seq<Ip4Port>)
    requires NoRepeats(a) && NoRepeats(b) && forall p :: p in a ==> p !in b
    ensures NoRepeats(a + b)
  {
    forall i, j | 0 <= i < j < |a + b| ensures (a + b)[i] != (a + b)[j] {
      if i < |a| <= j {
        assert a[i] in a && b[j - |a|] in b;
      }
    }
  }

  lemma AddNewPool(t: Tables, ip: uint32)
    requires Inv(t) && ip !in t.mapPool
    ensures Inv(AddPool(t, ip))
  {
    PortsOf(ip);
    AddNewPairs(t, ip);
    AddNewCount(t, ip);
    AddKeepsLinks(t, ip);
  }

  lemma AddNewPairs(t: Tables, ip: uint32)
    requires PairsOk(t) && ip !in t.mapPool
    ensures PairsOk(AddPool(t, ip))
  {
    PortsOf(ip);
    var ports, t' := Ports(ip), AddPool(t, ip);
    forall p | p in t.pool ensures p !in ports {
      assert Added(t, p);
    }
    NoRepeatsAppend(t.pool, ports);
    forall p | p in t'.pool ensures Added(t', p) {
      assert p in t.pool ==> Added(t, p);
    }
    forall p | Added(t', p) ensures p in t'.pool || Allocated(t', p) {
      if Added(t, p) && p !in t.pool {
        var k :| k in t.map64 && t.map64[k].ip4p == p;
        assert t'.map64[k].ip4p == p;
      }
    }
    forall k | k in t'.map64 ensures Added(t', t'.map64[k].ip4p) && t'.map64[k].ip4p !in t'.pool {
      assert Added(t, t.map64[k].ip4p) && t.map64[k].ip4p !in t.pool;
    }
  }

  lemma AddNewCount(t: Tables, ip: uint32)
    requires Counted(t) && ip !in t.mapPool
    ensures Counted(AddPool(t, ip))
  {
    var t' := AddPool(t, ip);
    assert |t'.mapPool| == |t.mapPool| + 1;
    assert |t'.pool| == |t.pool| + PORTS_PER_ADDRESS && t'.map64 == t.map64;
    OneMoreAddress(|t.mapPool|);
  }

  lemma OneMoreAddress(n: nat)
    ensures PORTS_PER_ADDRESS * (n + 1) == PORTS_PER_ADDRESS * n + PORTS_PER_ADDRESS
  {
  }

  lemma AddKeepsLinks(t: Tables, ip: uint32)
    requires PairsUnique(t) && MapsLinked(t)
    ensures PairsUnique(AddPool(t, ip)) && MapsLinked(AddPool(t, ip))
  {
    var t' := AddPool(t, ip);
    forall k | k in t'.map64 ensures Linked64(t', k) {
      assert Linked64(t, k);
    }
    forall k | k in t'.map46 ensures Linked46(t', k) {
      assert Linked46(t, k);
    }
  }

  lemma AddOldPool(t: Tables, ip: uint32)
    requires Counted(t) && ip in t.mapPool
    ensures !Counted(AddPool(t, ip))
  {
    assert AddPool(t, ip).mapPool == t.mapPool;
  }

  /** Adding an address keeps the tables in order if and only if the address is new. */
  lemma AddPoolKeepsInvExactly(t: Tables, ip: uint32)
    requires Inv(t)
    ensures Inv(AddPool(t, ip)) <==> ip !in t.mapPool
  {
    if ip !in t.mapPool {
      AddNewPool(t, ip);
    } else {
      AddOldPool(t, ip);
    }
  }

  // ----- mappings

  lemma DoMappingKeepsInv(t: Tables, ip6p: Ip6Port, srv: Ip6)
    requires Inv(t)
    ensures Inv(MapFlow(t, ip6p, srv).tables)
  {
    if KeyOf(t.cmp, ip6p, srv) !in t.map64 && t.pool != [] {
      NewFlowPairs(t, ip6p, srv);
      NewFlowLinks(t, ip6p, srv);
      assert |MapFlow(t, ip6p, srv).tables.map64| == |t.map64| + 1;
    }
  }

  lemma NewFlowPairs(t: Tables, ip6p: Ip6Port, srv: Ip6)
    requires PairsOk(t) && PairsUnique(t) && KeyOf(t.cmp, ip6p, srv) !in t.map64 && t.pool != []
    ensures PairsOk(MapFlow(t, ip6p, srv).tables) && PairsUnique(MapFlow(t, ip6p, srv).tables)
  {
    var key, t' := KeyOf(t.cmp, ip6p, srv), MapFlow(t, ip6p, srv).tables;
    var p := t.pool[0];
    assert p in t.pool && t'.map64[key].ip4p == p;
    assert forall q :: q in t'.pool ==> q in t.pool && q != p;
    forall q | Added(t', q) ensures q in t'.pool || Allocated(t', q) {
      assert Added(t, q);
      if q != p && q !in t.pool {
        var k :| k in t.map64 && t.map64[k].ip4p == q;
        assert t'.map64[k].ip4p == q;
      }
    }
    forall k | k in t'.map64 ensures Added(t', t'.map64[k].ip4p) && t'.map64[k].ip4p !in t'.pool {
      assert k != key ==> Added(t, t.map64[k].ip4p);
      assert Added(t, p);
    }
  }

  lemma NewFlowLinks(t: Tables, ip6p: Ip6Port, srv: Ip6)
    requires PairsOk(t) && MapsLinked(t) && KeyOf(t.cmp, ip6p, srv) !in t.map64 && t.pool != []
    ensures MapsLinked(MapFlow(t, ip6p, srv).tables)
  {
    var key, t' := KeyOf(t.cmp, ip6p, srv), MapFlow(t, ip6p, srv).tables;
    var p := t.pool[0];
    assert p in t.pool;
    forall k | k in t'.map64 ensures Linked64(t', k) {
      if k != key {
        assert Linked64(t, k) && t.map64[k].ip4p != p;
      }
    }
    forall k | k in t'.map46 ensures Linked46(t', k) {
      if k != (p, Extract(srv)) {
        assert Linked46(t, k);
      }
    }
  }

  // ----- every run

  datatype Event = AddPoolEvent(ip: uint32) | MapEvent(ip6p: Ip6Port, srv: Ip6)

  function Happen(t: Tables, e: Event): Tables {
    match e
    case AddPoolEvent(ip) => AddPool(t, ip)
    case MapEvent(ip6p, srv) => MapFlow(t, ip6p, srv).tables
  }

  function RunEvents(t: Tables, es: seq<Event>): Tables
    decreases |es|
  {
    if es == [] then t else RunEvents(Happen(t, es[0]), es[1..])
  }

  /** No address is added twice. */
  predicate NewAddresses(t: Tables, es: seq<Event>)
    decreases |es|
  {
    es == [] || ((es[0].AddPoolEvent? ==> es[0].ip !in t.mapPool) && NewAddresses(Happen(t, es[0]), es[1..]))
  }

  /** Every run of additions of distinct addresses and of mappings keeps the tables in order. */
  lemma {:induction false} RunKeepsInv(t: Tables, es: seq<Event>)
    requires Inv(t) && NewAddresses(t, es)
    ensures Inv(RunEvents(t, es))
    decreases |es|
  {
    if es != [] {
      match es[0] {
        case AddPoolEvent(ip) => AddNewPool(t, ip);
        case MapEvent(ip6p, srv) => DoMappingKeepsInv(t, ip6p, srv);
      }
      RunKeepsInv(Happen(t, es[0]), es[1..]);
    }
  }

  /** A flow once made is never forgotten or changed: both maps only grow. */
  lemma {:induction false} FlowsPersist(t: Tables, es: seq<Event>)
    requires Inv(t) && NewAddresses(t, es)
    ensures forall k :: k in t.map64 ==> k in RunEvents(t, es).map64 && RunEvents(t, es).map64[k] == t.map64[k]
    ensures forall k :: k in t.map46 ==> k in RunEvents(t, es).map46 && RunEvents(t, es).map46[k] == t.map46[k]
    ensures t.mapPool <= RunEvents(t, es).mapPool
    ensures RunEvents(t, es).prefix == t.prefix && RunEvents(t, es).cmp == t.cmp
    decreases |es|
  {
    if es != [] {
      match es[0] {
        case AddPoolEvent(ip) => AddNewPool(t, ip);
        case MapEvent(ip6p, srv) =>
          DoMappingKeepsInv(t, ip6p, srv);
          NewPairIsNew(t, ip6p, srv);
      }
      FlowsPersist(Happen(t, es[0]), es[1..]);
    }
  }

  lemma NewPairIsNew(t: Tables, ip6p: Ip6Port, srv: Ip6)
    requires Inv(t)
    ensures var m := MapFlow(t, ip6p, srv).tables.map46; forall k :: k in t.map46 ==> k in m && m[k] == t.map46[k]
  {
    if t.pool != [] {
      assert t.pool[0] in t.pool;
      forall k | k in t.map46 ensures k.0 != t.pool[0] {
        assert Linked46(t, k);
      }
    }
  }

  lemma {:induction false} RunsAppend(t: Tables, a: seq<Event>, b: seq<Event>)
    ensures RunEvents(t, a + b) == RunEvents(RunEvents(t, a), b)
    ensures NewAddresses(t, a + b) <==> NewAddresses(t, a) && NewAddresses(RunEvents(t, a), b)
    decreases |a|
  {
    if a == [] {
      assert a + b == b;
    } else {
      assert (a + b)[0] == a[0] && (a + b)[1..] == a[1..] + b;
      RunsAppend(Happen(t, a[0]), a[1..], b);
    }
  }

  /** The last event of a run. */
  lemma RunLast(t: Tables, es: seq<Event>)
    requires es != []
    ensures var front, last := es[..|es| - 1], es[|es| - 1];
      && RunEvents(t, es) == Happen(RunEvents(t, front), last)
      && (NewAddresses(t, es) ==>
        NewAddresses(t, front) && (last.AddPoolEvent? ==> last.ip !in RunEvents(t, front).mapPool))
  {
    var front, last := es[..|es| - 1], es[|es| - 1];
    assert es == front + [last] && [last][1..] == [];
    RunsAppend(t, front, [last]);
    assert RunEvents(RunEvents(t, front), [last]) == RunEvents(Happen(RunEvents(t, front), last), []);
  }

  /** After every run each flow is found again from the IPv4 side; nothing else is. */
  lemma MapsMirrorEachOther(cmp: Comparator, prefix: Ip6, es: seq<Event>, f: Flow)
    requires NewAddresses(Empty(cmp, prefix), es)
    ensures var t := RunEvents(Empty(cmp, prefix), es);
      (exists k :: k in t.map64 && t.map64[k] == f) <==> GetMapping46(t, f.ip4p, f.ip4srv) == Some(f)
  {
    EmptyInv(cmp, prefix);
    RunKeepsInv(Empty(cmp, prefix), es);
    var t := RunEvents(Empty(cmp, prefix), es);
    if GetMapping46(t, f.ip4p, f.ip4srv) == Some(f) {
      assert Linked46(t, (f.ip4p, f.ip4srv));
    }
    if k :| k in t.map64 && t.map64[k] == f {
      assert Linked64(t, k);
    }
  }

  /** After every run the pairs of the addresses added are exactly the free and the allocated ones, and none is both. */
  lemma FreeOrAllocated(cmp: Comparator, prefix: Ip6, es: seq<Event>, p: Ip4Port)
    requires NewAddresses(Empty(cmp, prefix), es)
    ensures var t := RunEvents(Empty(cmp, prefix), es);
      && (p.ip in AddressesOf(es) && MIN_PORT <= Htons(p.port) <= MAX_PORT <==> p in t.pool || Allocated(t, p))
      && !(p in t.pool && Allocated(t, p))
  {
    EmptyInv(cmp, prefix);
    RunKeepsInv(Empty(cmp, prefix), es);
    AddressesAreAdded(Empty(cmp, prefix), es);
    var t := RunEvents(Empty(cmp, prefix), es);
    assert Added(t, p) <==> p.ip in AddressesOf(es) && MIN_PORT <= Htons(p.port) <= MAX_PORT;
  }

  // ----- when the pool runs out

  function AddressesOf(es: seq<Event>): set<uint32> {
    if es == [] then {}
    else
      var last := es[|es| - 1];
      AddressesOf(es[..|es| - 1]) + if last.AddPoolEvent? then {last.ip} else {}
  }

  /** The distinct keys of the mappings of a run. */
  function KeysOf(cmp: Comparator, es: seq<Event>): set<(Ip6Port, Ip6)> {
    if es == [] then {}
    else
      var last := es[|es| - 1];
      KeysOf(cmp, es[..|es| - 1]) + if last.MapEvent? then {KeyOf(cmp, last.ip6p, last.srv)} else {}
  }

  /** Every mapping of the run gives a flow. */
  predicate AllServed(t: Tables, es: seq<Event>) {
    es == [] ||
    var front, last := es[..|es| - 1], es[|es| - 1];
    AllServed(t, front) && (last.MapEvent? ==> MapFlow(RunEvents(t, front), last.ip6p, last.srv).flow.Some?)
  }

  /** At every mapping of the run its key has been mapped before, or fewer keys than there are pairs. */
  predicate EnoughPairs(cmp: Comparator, es: seq<Event>) {
    es == [] ||
    var front, last := es[..|es| - 1], es[|es| - 1];
    && EnoughPairs(cmp, front)
    && (last.MapEvent? ==>
      || KeyOf(cmp, last.ip6p, last.srv) in KeysOf(cmp, front)
      || |KeysOf(cmp, front)| < PORTS_PER_ADDRESS * |AddressesOf(front)|)
  }

  lemma {:induction false} AddressesAreAdded(t: Tables, es: seq<Event>)
    ensures RunEvents(t, es).mapPool == t.mapPool + AddressesOf(es)
    decreases |es|
  {
    if es != [] {
      RunLast(t, es);
      AddressesAreAdded(t, es[..|es| - 1]);
    }
  }

  lemma {:induction false} KeysAreMapped(t: Tables, es: seq<Event>)
    requires AllServed(t, es)
    ensures RunEvents(t, es).map64.Keys == t.map64.Keys + KeysOf(t.cmp, es) && RunEvents(t, es).cmp == t.cmp
    decreases |es|
  {
    if es != [] {
      RunLast(t, es);
      KeysAreMapped(t, es[..|es| - 1]);
    }
  }

  /** doMapping gives no flow exactly for a new key when every pair is in use. */
  lemma NoFlowExactly(t: Tables, ip6p: Ip6Port, srv: Ip6)
    requires Inv(t)
    ensures MapFlow(t, ip6p, srv).flow == None <==>
      KeyOf(t.cmp, ip6p, srv) !in t.map64 && |t.map64| == PORTS_PER_ADDRESS * |t.mapPool|
  {
  }

  /**
    After a run in which every mapping gave a flow, the next gives none (and nat.cc:162 dereferences
    null) exactly if its key is new and as many distinct keys have been mapped as there are pairs.
   */
  lemma FirstNullExactly(cmp: Comparator, prefix: Ip6, es: seq<Event>, ip6p: Ip6Port, srv: Ip6)
    requires NewAddresses(Empty(cmp, prefix), es) && AllServed(Empty(cmp, prefix), es)
    ensures MapFlow(RunEvents(Empty(cmp, prefix), es), ip6p, srv).flow == None <==>
      && KeyOf(cmp, ip6p, srv) !in KeysOf(cmp, es)
      && |KeysOf(cmp, es)| == PORTS_PER_ADDRESS * |AddressesOf(es)|
  {
    var t0 := Empty(cmp, prefix);
    EmptyInv(cmp, prefix);
    RunKeepsInv(t0, es);
    KeysAreMapped(t0, es);
    AddressesAreAdded(t0, es);
    var t := RunEvents(t0, es);
    assert t.map64.Keys == KeysOf(cmp, es) && t.mapPool == AddressesOf(es);
    assert |t.map64| == |t.map64.Keys|;
    NoFlowExactly(t, ip6p, srv);
  }

  /** Every mapping of a run gives a flow if and only if there are always enough pairs. */
  lemma {:induction false} AllServedExactly(cmp: Comparator, prefix: Ip6, es: seq<Event>)
    requires NewAddresses(Empty(cmp, prefix), es)
    ensures AllServed(Empty(cmp, prefix), es) <==> EnoughPairs(cmp, es)
    decreases |es|
  {
    if es != [] {
      var front, last := es[..|es| - 1], es[|es| - 1];
      RunLast(Empty(cmp, prefix), es);
      AllServedExactly(cmp, prefix, front);
      if AllServed(Empty(cmp, prefix), front) && last.MapEvent? {
        FirstNullExactly(cmp, prefix, front, last.ip6p, last.srv);
        NoMoreKeysThanPairs(cmp, prefix, front);
      }
    }
  }

  lemma NoMoreKeysThanPairs(cmp: Comparator, prefix: Ip6, es: seq<Event>)
    requires NewAddresses(Empty(cmp, prefix), es) && AllServed(Empty(cmp, prefix), es)
    ensures |KeysOf(cmp, es)| <= PORTS_PER_ADDRESS * |AddressesOf(es)|
  {
    var t0 := Empty(cmp, prefix);
    EmptyInv(cmp, prefix);
    RunKeepsInv(t0, es);
    KeysAreMapped(t0, es);
    AddressesAreAdded(t0, es);
    var t := RunEvents(t0, es);
    assert t.map64.Keys == KeysOf(cmp, es) && t.mapPool == AddressesOf(es);
    assert |t.map64| == |t.map64.Keys|;
  }

  // ----- translation (nat.cc:72-83, nat.cc:157-213)

  datatype Packet6 = Packet6(src: Ip6Port, dst: Ip6, dport: uint16)
  datatype Packet4 = Packet4(src: uint32, sport: uint16, dst: Ip4Port)
  datatype Reply6 = Reply6(src: Ip6, sport: uint16, dst: Ip6Port)

  datatype Outcome<T> = Dropped | Sent(packet: T)

  /** A client's packet: range check, begin, doSPort and doIP. Without a flow the code crashes; here the packet is dropped. */
  function Outbound(t: Tables, p: Packet6): (Tables, Outcome<Packet4>) {
    if !InPrefix(t.prefix, p.dst) then (t, Dropped)
    else
      var m := MapFlow(t, p.src, p.dst);
      match m.flow
      case None => (m.tables, Dropped)
      case Some(f) => (m.tables, Sent(Packet4(f.ip4p.ip, f.ip4p.port, Ip4Port(Extract(p.dst), p.dport))))
  }

  /** A server's packet: range check, begin, doDPort and doIP. */
  function Inbound(t: Tables, p: Packet4): Outcome<Reply6> {
    if p.dst.ip !in t.mapPool then Dropped
    else
      match GetMapping46(t, p.dst, p.src)
      case None => Dropped
      case Some(f) => Sent(Reply6(Embed(t.prefix, p.src), p.sport, f.ip6p))
  }

  /** The server answers to the address and port that the packet came from. */
  function Answer(p: Packet4): Packet4 {
    Packet4(p.dst.ip, p.dst.port, Ip4Port(p.src, p.sport))
  }

  /** The flow that serves a client's packet. */
  function FlowFor(t: Tables, p: Packet6): Option<Flow> {
    MapFlow(t, p.src, p.dst).flow
  }

  /** The answer comes back to the client of the packet, from the server it was sent to. */
  ghost predicate ComesBack(t: Tables, p: Packet6, later: seq<Event>) {
    var (t1, sent) := Outbound(t, p);
    sent.Sent? && Inbound(RunEvents(t1, later), Answer(sent.packet)) == Sent(Reply6(p.dst, p.dport, p.src))
  }

  /** The tables serve the packet with a flow of its own client and server: one that is there, or a new one. */
  predicate ServesItsOwn(t: Tables, p: Packet6) {
    var k := KeyOf(t.cmp, p.src, p.dst);
    if k in t.map64 then t.map64[k].ip6p == p.src && t.map64[k].ip4srv == Extract(p.dst)
    else |t.map64| < PORTS_PER_ADDRESS * |t.mapPool|
  }

  /**
    A client's packet from outside the prefix changes nothing and is not sent on. One inside is sent to the
    server that its destination stands for, at the port that it was for, if and only if there is a flow for it.
   */
  lemma OutboundExactly(t: Tables, p: Packet6)
    requires Inv(t)
    ensures var (t', sent) := Outbound(t, p);
      && (!InPrefix(t.prefix, p.dst) ==> t' == t && sent == Dropped)
      && (sent.Sent? ==> Embed(t.prefix, sent.packet.dst.ip) == p.dst && sent.packet.dst.port == p.dport)
      && (sent.Sent? ==> Allocated(t', Ip4Port(sent.packet.src, sent.packet.sport)))
      && (sent.Sent? <==>
            && InPrefix(t.prefix, p.dst)
            && (KeyOf(t.cmp, p.src, p.dst) in t.map64 || |t.map64| < PORTS_PER_ADDRESS * |t.mapPool|))
  {
    NoFlowExactly(t, p.src, p.dst);
    EmbedExtract(t.prefix, 0, p.dst);
    FlowIsAllocated(t, p.src, p.dst);
    CountBound(t);
  }

  lemma CountBound(t: Tables)
    requires Inv(t)
    ensures |t.map64| <= PORTS_PER_ADDRESS * |t.mapPool|
  {
  }

  lemma FlowIsAllocated(t: Tables, ip6p: Ip6Port, srv: Ip6)
    requires Inv(t)
    ensures var m := MapFlow(t, ip6p, srv); m.flow.Some? ==> Allocated(m.tables, m.flow.value.ip4p)
  {
    var m, key := MapFlow(t, ip6p, srv), KeyOf(t.cmp, ip6p, srv);
    if m.flow.Some? {
      assert m.tables.map64[key] == m.flow.value;
    }
  }

  /** A server's packet gets through if and only if a flow has its destination's pair and its source as server, to that client. */
  lemma InboundExactly(t: Tables, p: Packet4)
    requires Inv(t)
    ensures Inbound(t, p).Sent? <==> exists k :: k in t.map64 && t.map64[k].ip4p == p.dst && t.map64[k].ip4srv == p.src
    ensures forall k :: k in t.map64 && t.map64[k].ip4p == p.dst && t.map64[k].ip4srv == p.src ==>
      Inbound(t, p) == Sent(Reply6(Embed(t.prefix, p.src), p.sport, t.map64[k].ip6p))
  {
    forall k | k in t.map64 && t.map64[k].ip4p == p.dst && t.map64[k].ip4srv == p.src
      ensures Inbound(t, p) == Sent(Reply6(Embed(t.prefix, p.src), p.sport, t.map64[k].ip6p))
    {
      assert Linked64(t, k) && Added(t, t.map64[k].ip4p);
    }
    if (p.dst, p.src) in t.map46 {
      assert Linked46(t, (p.dst, p.src));
    }
  }

  // ----- the order of the pool

  /** The pairs of the addresses added, in the order of their addition. */
  function PairsAdded(es: seq<Event>): seq<Ip4Port> {
    if es == [] then []
    else
      var last := es[|es| - 1];
      PairsAdded(es[..|es| - 1]) + if last.AddPoolEvent? then Ports(last.ip) else []
  }

  /** The pairs given to new flows, in the order of the mappings. */
  function PairsGiven(t: Tables, es: seq<Event>): seq<Ip4Port> {
    if es == [] then []
    else
      var front, last := es[..|es| - 1], es[|es| - 1];
      PairsGiven(t, front) + if last.MapEvent? then GivenBy(RunEvents(t, front), last) else []
  }

  /** The pair that a mapping takes: that of its flow, if there was none under the key. */
  function GivenBy(t: Tables, e: Event): seq<Ip4Port>
    requires e.MapEvent?
  {
    var flow := MapFlow(t, e.ip6p, e.srv).flow;
    if KeyOf(t.cmp, e.ip6p, e.srv) !in t.map64 && flow.Some? then [flow.value.ip4p] else []
  }

  /** The pool is a queue: pairs are given out once each, in the order in which they were added, and the others wait. */
  lemma {:induction false} PoolIsAQueue(cmp: Comparator, prefix: Ip6, es: seq<Event>)
    ensures PairsGiven(Empty(cmp, prefix), es) + RunEvents(Empty(cmp, prefix), es).pool == PairsAdded(es)
    decreases |es|
  {
    var t0 := Empty(cmp, prefix);
    if es != [] {
      var front, last := es[..|es| - 1], es[|es| - 1];
      PoolIsAQueue(cmp, prefix, front);
      RunLast(t0, es);
      QueueStep(RunEvents(t0, front), last, PairsGiven(t0, front), PairsAdded(front));
    }
  }

  lemma QueueStep(t: Tables, e: Event, given: seq<Ip4Port>, added: seq<Ip4Port>)
    requires given + t.pool == added
    ensures (given + if e.MapEvent? then GivenBy(t, e) else []) + Happen(t, e).pool
         == added + if e.AddPoolEvent? then Ports(e.ip) else []
  {
    if e.AddPoolEvent? {
      assert given + [] == given;
      Associates(given, t.pool, Ports(e.ip));
    } else {
      TakenFromFront(t, e);
      Associates(given, GivenBy(t, e), Happen(t, e).pool);
      assert added + [] == added;
    }
  }

  lemma TakenFromFront(t: Tables, e: Event)
    requires e.MapEvent?
    ensures GivenBy(t, e) + Happen(t, e).pool == t.pool
  {
    assert t.pool != [] ==> [t.pool[0]] + t.pool[1..] == t.pool;
    assert [] + t.pool == t.pool;
  }

  /** The pairs of an address: its ports 32000 to 60000, in this order. */
  lemma PortsInOrder(ip: uint32, i: nat)
    requires i < 28001
    ensures |Ports(ip)| == 28001 && Ports(ip)[i].ip == ip && Htons(Ports(ip)[i].port) == 32000 + i
  {
    HtonsTwice(32000 + i);
  }

  /**
    Round trip: after any later mappings, the server's answer reaches the client's address and port
    under the server's own IPv6 address exactly when the entry under the packet's key, if there is
    one, is that of its own client and server, and if there is none, a pair is free.
   */
  lemma RoundTripExactly(t: Tables, p: Packet6, later: seq<Event>)
    requires Inv(t) && InPrefix(t.prefix, p.dst) && NewAddresses(Outbound(t, p).0, later)
    ensures ComesBack(t, p, later) <==> ServesItsOwn(t, p)
  {
    NoFlowExactly(t, p.src, p.dst);
    if FlowFor(t, p).Some? {
      AnswerFindsFlow(t, p, later);
      EmbedExtract(t.prefix, 0, p.dst);
    }
  }

  /** What the answer to a packet that was sent finds. */
  lemma AnswerFindsFlow(t: Tables, p: Packet6, later: seq<Event>)
    requires Inv(t) && InPrefix(t.prefix, p.dst) && FlowFor(t, p).Some? && NewAddresses(Outbound(t, p).0, later)
    ensures var f, (t1, sent) := FlowFor(t, p).value, Outbound(t, p);
      && sent == Sent(Packet4(f.ip4p.ip, f.ip4p.port, Ip4Port(Extract(p.dst), p.dport)))
      && Inbound(RunEvents(t1, later), Answer(sent.packet)) ==
        if Extract(p.dst) == f.ip4srv then Sent(Reply6(Embed(t.prefix, Extract(p.dst)), p.dport, f.ip6p)) else Dropped
  {
    var t1 := Outbound(t, p).0;
    DoMappingKeepsInv(t, p.src, p.dst);
    var key := KeyOf(t.cmp, p.src, p.dst);
    assert t1.map64[key] == FlowFor(t, p).value;
    FlowStaysFound(t1, key, later, Extract(p.dst));
    FlowsPersist(t1, later);
  }

  /** Later, the flow's pair is inside the pool's range, and it leads to the flow and to no other. */
  lemma FlowStaysFound(t: Tables, key: (Ip6Port, Ip6), later: seq<Event>, srv: uint32)
    requires Inv(t) && key in t.map64 && NewAddresses(t, later)
    ensures var f, t2 := t.map64[key], RunEvents(t, later);
      && f.ip4p.ip in t2.mapPool
      && GetMapping46(t2, f.ip4p, srv) == if srv == f.ip4srv then Some(f) else None
  {
    var f, t2 := t.map64[key], RunEvents(t, later);
    assert Linked64(t, key) && Added(t, f.ip4p);
    FlowsPersist(t, later);
    RunKeepsInv(t, later);
    if (f.ip4p, srv) in t2.map46 {
      var g := t2.map46[(f.ip4p, srv)];
      assert Linked46(t2, (f.ip4p, srv));
      assert t2.map64[KeyOf(t2.cmp, g.ip6p, g.ip6srv)] == g && t2.map64[key] == f;
    }
  }

  /** With the comparison that was meant, every packet's answer comes back, as long as pairs are free for new keys. */
  lemma RoundTrip(t: Tables, p: Packet6, later: seq<Event>)
    requires Inv(t) && t.cmp == Intended && InPrefix(t.prefix, p.dst) && NewAddresses(Outbound(t, p).0, later)
    ensures ComesBack(t, p, later) <==> (p.src, p.dst) in t.map64 || |t.map64| < PORTS_PER_ADDRESS * |t.mapPool|
  {
    RoundTripExactly(t, p, later);
    if KeyOf(t.cmp, p.src, p.dst) in t.map64 {
      assert Linked64(t, KeyOf(t.cmp, p.src, p.dst));
    }
  }

  /**
    With the comparison as written it fails as soon as a second client uses the port of the first:
    its packet is sent under the first client's flow, and the answer goes to the first client.
   */
  lemma AnswerGoesToTheWrongClient(t: Tables, p: Packet6, q: Packet6)
    requires Inv(t) && t.cmp == AsWritten && ServesItsOwn(t, p)
    requires InPrefix(t.prefix, p.dst) && p.src.port == q.src.port && p.src.ip != q.src.ip && q.dst == p.dst
    ensures var t1 := Outbound(t, p).0;
      && !ComesBack(t1, q, [])
      && Outbound(t1, q).1.Sent?
      && Inbound(Outbound(t1, q).0, Answer(Outbound(t1, q).1.packet)) == Sent(Reply6(q.dst, q.dport, p.src))
  {
    NoFlowExactly(t, p.src, p.dst);
    DoMappingKeepsInv(t, p.src, p.dst);
    var t1 := Outbound(t, p).0;
    assert FlowFor(t1, q) == FlowFor(t, p) && FlowFor(t, p).value.ip6p == p.src;
    RoundTripExactly(t1, q, []);
    AnswerFindsFlow(t1, q, []);
    EmbedExtract(t.prefix, 0, p.dst);
  }

  // ----- round trips of a whole run

  /** The packet of an event, to some port of the server. */
  function PacketOf(e: Event, dport: uint16): Packet6
    requires e.MapEvent?
  {
    Packet6(e.ip6p, e.srv, dport)
  }

  /** The answer to the packet of event i comes back, after all later events. */
  ghost predicate ComesBackAt(t: Tables, es: seq<Event>, i: int, dport: uint16)
    requires 0 <= i < |es| && es[i].MapEvent?
  {
    ComesBack(RunEvents(t, es[..i]), PacketOf(es[i], dport), es[i + 1..])
  }

  ghost predicate AllComeBack(t: Tables, es: seq<Event>, dport: uint16) {
    forall i :: 0 <= i < |es| && es[i].MapEvent? ==> ComesBackAt(t, es, i, dport)
  }

  predicate AllInPrefix(prefix: Ip6, es: seq<Event>) {
    forall i :: 0 <= i < |es| && es[i].MapEvent? ==> InPrefix(prefix, es[i].srv)
  }

  /** Packets under one key are all from one client and to one server. */
  predicate KeysKeptApart(cmp: Comparator, es: seq<Event>) {
    forall i, j :: 0 <= i < |es| && 0 <= j < |es| && ShareKey(cmp, es[i], es[j]) ==> es[i] == es[j]
  }

  predicate ShareKey(cmp: Comparator, e: Event, f: Event) {
    e.MapEvent? && f.MapEvent? && KeyOf(cmp, e.ip6p, e.srv) == KeyOf(cmp, f.ip6p, f.srv)
  }

  predicate SharePort(e: Event, f: Event) {
    e.MapEvent? && f.MapEvent? && e.ip6p.port == f.ip6p.port
  }

  /** Every entry was made by an event of the run. */
  lemma {:induction false} EntriesComeFromEvents(t: Tables, es: seq<Event>, k: (Ip6Port, Ip6)) returns (j: nat)
    requires k in RunEvents(t, es).map64 && k !in t.map64
    ensures j < |es| && es[j].MapEvent? && k == KeyOf(t.cmp, es[j].ip6p, es[j].srv)
    ensures var f := RunEvents(t, es).map64[k]; f.ip6p == es[j].ip6p && f.ip6srv == es[j].srv && f.ip4srv == Extract(es[j].srv)
    decreases |es|
  {
    var front, last := es[..|es| - 1], es[|es| - 1];
    RunLast(t, es);
    CmpStays(t, front);
    if k in RunEvents(t, front).map64 {
      j := EntriesComeFromEvents(t, front, k);
    } else {
      j := |es| - 1;
    }
  }

  lemma {:induction false} CmpStays(t: Tables, es: seq<Event>)
    ensures RunEvents(t, es).cmp == t.cmp && RunEvents(t, es).prefix == t.prefix
    decreases |es|
  {
    if es != [] {
      CmpStays(Happen(t, es[0]), es[1..]);
    }
  }

  /** A run around one of its events. */
  lemma RunAround(t: Tables, es: seq<Event>, i: nat)
    requires i < |es| && NewAddresses(t, es) && Inv(t)
    ensures var ti := RunEvents(t, es[..i]);
      && Inv(ti) && ti.cmp == t.cmp && ti.prefix == t.prefix
      && NewAddresses(t, es[..i]) && NewAddresses(Happen(ti, es[i]), es[i + 1..])
      && RunEvents(t, es) == RunEvents(Happen(ti, es[i]), es[i + 1..])
  {
    var ti := RunEvents(t, es[..i]);
    assert es == es[..i] + es[i..] && es[i..][0] == es[i] && es[i..][1..] == es[i + 1..];
    RunsAppend(t, es[..i], es[i..]);
    RunKeepsInv(t, es[..i]);
    CmpStays(t, es[..i]);
  }

  lemma ServedAt(t: Tables, es: seq<Event>, i: nat)
    requires i < |es| && es[i].MapEvent? && AllServed(t, es)
    ensures FlowFor(RunEvents(t, es[..i]), PacketOf(es[i], 0)).Some?
    decreases |es|
  {
    if i < |es| - 1 {
      assert es[..|es| - 1][..i] == es[..i];
      ServedAt(t, es[..|es| - 1], i);
    }
  }

  /** Both conditions together suffice for every packet. */
  lemma ApartComesBack(cmp: Comparator, prefix: Ip6, es: seq<Event>, i: nat, dport: uint16)
    requires NewAddresses(Empty(cmp, prefix), es) && AllInPrefix(prefix, es) && i < |es| && es[i].MapEvent?
    requires AllServed(Empty(cmp, prefix), es) && KeysKeptApart(cmp, es)
    ensures ComesBackAt(Empty(cmp, prefix), es, i, dport)
  {
    var t0, p := Empty(cmp, prefix), PacketOf(es[i], dport);
    EmptyInv(cmp, prefix);
    RunAround(t0, es, i);
    var ti, k := RunEvents(t0, es[..i]), KeyOf(cmp, p.src, p.dst);
    ServedAt(t0, es, i);
    NoFlowExactly(ti, p.src, p.dst);
    if k in ti.map64 {
      var j := EntriesComeFromEvents(t0, es[..i], k);
      assert es[..i][j] == es[j] && ShareKey(cmp, es[i], es[j]);
    }
    assert Outbound(ti, p).0 == Happen(ti, es[i]);
    assert |ti.map64| <= PORTS_PER_ADDRESS * |ti.mapPool|;
    RoundTripExactly(ti, p, es[i + 1..]);
  }

  /** What comes back has an entry of its own, for good. */
  lemma ComesBackHasEntry(t: Tables, es: seq<Event>, i: nat, dport: uint16)
    requires Inv(t) && NewAddresses(t, es) && AllInPrefix(t.prefix, es) && i < |es| && es[i].MapEvent?
    requires ComesBackAt(t, es, i, dport)
    ensures var k, end := KeyOf(t.cmp, es[i].ip6p, es[i].srv), RunEvents(t, es);
      k in end.map64 && end.map64[k].ip6p == es[i].ip6p && end.map64[k].ip4srv == Extract(es[i].srv)
    ensures FlowFor(RunEvents(t, es[..i]), PacketOf(es[i], dport)).Some?
  {
    RunAround(t, es, i);
    var ti, p := RunEvents(t, es[..i]), PacketOf(es[i], dport);
    assert Outbound(ti, p).0 == Happen(ti, es[i]);
    RoundTripExactly(ti, p, es[i + 1..]);
    NoFlowExactly(ti, p.src, p.dst);
    DoMappingKeepsInv(ti, p.src, p.dst);
    FlowsPersist(Happen(ti, es[i]), es[i + 1..]);
  }

  lemma {:induction false} ComeBackIsServed(t: Tables, es: seq<Event>, dport: uint16, n: nat)
    requires Inv(t) && NewAddresses(t, es) && AllInPrefix(t.prefix, es) && AllComeBack(t, es, dport) && n <= |es|
    ensures AllServed(t, es[..n])
    decreases n
  {
    if n > 0 {
      ComeBackIsServed(t, es, dport, n - 1);
      assert es[..n][..n - 1] == es[..n - 1];
      if es[n - 1].MapEvent? {
        assert ComesBackAt(t, es, n - 1, dport);
        ComesBackHasEntry(t, es, n - 1, dport);
      }
    }
  }

  /**
    In a run from empty tables the answers to all packets come back if and only if there are always
    enough pairs and packets that the tables put under one key are from one client and to one server.
    As written that is: no two of them share a client port and differ in client or server.
   */
  lemma AllComeBackExactly(cmp: Comparator, prefix: Ip6, es: seq<Event>, dport: uint16)
    requires NewAddresses(Empty(cmp, prefix), es) && AllInPrefix(prefix, es)
    ensures AllComeBack(Empty(cmp, prefix), es, dport) <==> EnoughPairs(cmp, es) && KeysKeptApart(cmp, es)
  {
    var t0 := Empty(cmp, prefix);
    EmptyInv(cmp, prefix);
    AllServedExactly(cmp, prefix, es);
    if EnoughPairs(cmp, es) && KeysKeptApart(cmp, es) {
      forall i | 0 <= i < |es| && es[i].MapEvent? ensures ComesBackAt(t0, es, i, dport) {
        ApartComesBack(cmp, prefix, es, i, dport);
      }
    }
    if AllComeBack(t0, es, dport) {
      ComeBackIsServed(t0, es, dport, |es|);
      assert es[..|es|] == es;
      forall i, j | 0 <= i < |es| && 0 <= j < |es| && ShareKey(cmp, es[i], es[j])
        ensures es[i] == es[j]
      {
        assert ComesBackAt(t0, es, i, dport) && ComesBackAt(t0, es, j, dport);
        ComesBackHasEntry(t0, es, i, dport);
        ComesBackHasEntry(t0, es, j, dport);
        EmbedExtract(prefix, 0, es[i].srv);
        EmbedExtract(prefix, 0, es[j].srv);
      }
    }
  }

  /** As written, keys are kept apart exactly if no two packets share a client port and differ otherwise. */
  lemma WrittenKeysApart(es: seq<Event>)
    ensures KeysKeptApart(AsWritten, es) <==>
      forall i, j :: 0 <= i < |es| && 0 <= j < |es| && SharePort(es[i], es[j]) ==> es[i] == es[j]
    ensures KeysKeptApart(Intended, es)
  {
    assert forall e, f :: ShareKey(AsWritten, e, f) <==> SharePort(e, f);
  }

  // ----- the object

  class StateManager {
    const cmp: Comparator
    var prefix: Ip6
    var pool: seq<Ip4Port>
    var mapPool: set<uint32>
    var map64: map<(Ip6Port, Ip6), Flow>
    var map46: map<(Ip4Port, uint32), Flow>

    constructor (cmp: Comparator, prefix: Ip6)
      ensures Value() == Empty(cmp, prefix)
    {
      this.cmp, this.prefix, pool, mapPool, map64, map46 := cmp, prefix, [], {}, map[], map[];
    }

    function Value(): Tables
      reads this
    {
      Tables(cmp, prefix, pool, mapPool, map64, map46)
    }

    /** state.cc:64-70 */
    method AddIPv4Pool(ip: uint32)
      modifies this`pool, this`mapPool
      ensures Value() == AddPool(old(Value()), ip)
    {
      var p: int := MIN_PORT;
      while p <= MAX_PORT
        invariant MIN_PORT <= p <= MAX_PORT + 1
        invariant pool == old(pool) + Ports(ip)[..p - MIN_PORT]
        invariant mapPool == old(mapPool)
      {
        pool := pool + [Ip4Port(ip, Htons(p))];
        p := p + 1;
      }
      assert Ports(ip)[..p - MIN_PORT] == Ports(ip);
      mapPool := mapPool + {ip};
    }

    /** state.cc:72-93; the caller holds no lock, and the body runs under smutex. */
    method DoMapping(ip6p: Ip6Port, srv: Ip6) returns (ret: Option<Flow>)
      modifies this`pool, this`map64, this`map46
      ensures Mapped(Value(), ret) == MapFlow(old(Value()), ip6p, srv)
    {
      var key := KeyOf(cmp, ip6p, srv);
      if key in map64 {
        ret := Some(map64[key]);
      } else if |pool| > 0 {
        var ip4p := pool[0];
        pool := pool[1..];
        var flow := Flow(ip6p, ip4p, srv, Extract(srv));
        map64 := map64[key := flow];
        map46 := map46[(ip4p, Extract(srv)) := flow];
        ret := Some(flow);
      } else {
        ret := None;
      }
    }

    /** state.cc:95-107 */
    method GetMapping6(ip6p: Ip6Port, srv: Ip6) returns (ret: Option<Flow>)
      ensures ret.Some? <==> KeyOf(cmp, ip6p, srv) in map64
      ensures ret.Some? ==> ret.value == map64[KeyOf(cmp, ip6p, srv)]
    {
      var key := KeyOf(cmp, ip6p, srv);
      ret := if key in map64 then Some(map64[key]) else None;
    }

    /** state.cc:109-121 */
    method GetMapping4(ip4p: Ip4Port, srv: uint32) returns (ret: Option<Flow>)
      ensures ret == GetMapping46(Value(), ip4p, srv)
    {
      ret := if (ip4p, srv) in map46 then Some(map46[(ip4p, srv)]) else None;
    }
  }
}
