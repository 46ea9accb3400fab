/** The 4-4 table of analysis mode (state.cc:123-146), keyed by (server end, client end). */
module Analysis44 {
  import opened Words
  import opened NatTables

  datatype Flow44 = Flow44(server: Ip4Port, client: Ip4Port)

  class Table44 {
    var map44: map<(Ip4Port, Ip4Port), Flow44>
    var flowCnt: nat

    constructor ()
      ensures map44 == map[] && flowCnt == 0 && Ok(map44)
    {
      map44, flowCnt := map[], 0;
    }

    /** dst and src are the ends of one packet. */
    method DoMapping44(dst: Ip4Port, src: Ip4Port) returns (flow: Flow44)
      requires Ok(map44) && flowCnt == |map44|
      modifies this
      ensures Ok(map44) && flowCnt == |map44|
      ensures map44 == After(old(map44), dst, src) && flow == Find(map44, dst, src)
    {
      var key1, key2 := (dst, src), (src, dst);
      if key1 in map44 {
        flow := map44[key1];
      } else if key2 in map44 {
        flow := map44[key2];
      } else {
        if Htons(src.port) == 80 && Htons(dst.port) != 80 {
          key1 := key2;
        }
        flowCnt := flowCnt + 1;
        flow := Flow44(key1.0, key1.1);
        map44 := map44[key1 := flow];
      }
    }
  }

  predicate HttpOnClientSide(k: (Ip4Port, Ip4Port)) {
    Htons(k.1.port) == 80 && Htons(k.0.port) != 80
  }

  /** A connection has one entry, under its own ends; if only one end has port 80, it is the server's. */
  ghost predicate Ok(m: map<(Ip4Port, Ip4Port), Flow44>) {
    forall k :: k in m ==> m[k] == Flow44(k.0, k.1) && !HttpOnClientSide(k) && ((k.1, k.0) in m ==> k.0 == k.1)
  }

  predicate Known(m: map<(Ip4Port, Ip4Port), Flow44>, a: Ip4Port, b: Ip4Port) {
    (a, b) in m || (b, a) in m
  }

  function Find(m: map<(Ip4Port, Ip4Port), Flow44>, a: Ip4Port, b: Ip4Port): Flow44
    requires Known(m, a, b)
  {
    if (a, b) in m then m[(a, b)] else m[(b, a)]
  }

  function After(m: map<(Ip4Port, Ip4Port), Flow44>, dst: Ip4Port, src: Ip4Port): (r: map<(Ip4Port, Ip4Port), Flow44>)
    ensures Known(r, dst, src)
  {
    if Known(m, dst, src) then m
    else
      var key := if HttpOnClientSide((dst, src)) then (src, dst) else (dst, src);
      m[key := Flow44(key.0, key.1)]
  }

  /** Of a new connection the destination of the first packet is the server, unless the source alone has port 80. */
  lemma FirstPacketDecides(m: map<(Ip4Port, Ip4Port), Flow44>, dst: Ip4Port, src: Ip4Port)
    requires !Known(m, dst, src)
    ensures Find(After(m, dst, src), dst, src) ==
      if Htons(src.port) == 80 && Htons(dst.port) != 80 then Flow44(src, dst) else Flow44(dst, src)
    ensures forall k :: k in m ==> k in After(m, dst, src) && After(m, dst, src)[k] == m[k]
  {
  }

  function AfterAll(m: map<(Ip4Port, Ip4Port), Flow44>, packets: seq<(Ip4Port, Ip4Port)>): map<(Ip4Port, Ip4Port),
                 Flow44>
    decreases |packets|
  {
    if packets == [] then m else AfterAll(After(m, packets[0].0, packets[0].1), packets[1..])
  }

  lemma {:induction false} AfterAllKeeps(m: map<(Ip4Port, Ip4Port), Flow44>, packets: seq<(Ip4Port, Ip4Port)>)
    requires Ok(m)
    ensures Ok(AfterAll(m, packets))
    ensures forall a, b :: Known(m, a, b) ==>
      Known(AfterAll(m, packets), a, b) && Find(AfterAll(m, packets), a, b) == Find(m, a, b)
    decreases |packets|
  {
    if packets != [] {
      AfterAllKeeps(After(m, packets[0].0, packets[0].1), packets[1..]);
    }
  }

  /**
    Both directions of a connection share one flow for ever, whichever was seen first, and if exactly
    one end has port 80 that end is the server.
   */
  lemma DirectionsShareOneFlow(m: map<(Ip4Port, Ip4Port), Flow44>, a: Ip4Port, b: Ip4Port, later: seq<(Ip4Port,
                 Ip4Port)>)
    requires Ok(m)
    ensures var m' := AfterAll(After(m, a, b), later);
      && Known(m', a, b) && Find(m', a, b) == Find(m', b, a) == Find(After(m, a, b), a, b)
      && (Find(m', a, b) == Flow44(a, b) || Find(m', a, b) == Flow44(b, a))
      && (Htons(a.port) == 80 && Htons(b.port) != 80 ==> Find(m', a, b).server == a)
  {
    AfterAllKeeps(After(m, a, b), later);
  }
}
