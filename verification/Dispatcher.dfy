/**
  The dispatcher and its workers (tun.h:18-52, tun.h:96-123) with NAT::begin's choice of a worker
  (nat.cc:161-165). Each step below is what one thread does between two locks. Flows are looked up
  as in NatTables, with the comparison of IPv6 addresses as it is written or as it was meant.
 */
module Dispatcher {
  import opened Words
  import NatTables

  const T: nat := 4
  const QMAX: nat := 10000

  /** A client's end, a server, and the port there that the client's packets go to. */
  datatype FlowId = FlowId(client: NatTables.Ip6Port, server: uint32, serverPort: uint16)

  /**
    From the client of a flow; from its server, found under the flow's key; or of no flow in the
    tables, which begin drops. portSum is port_t of packet.cc:107.
   */
  datatype Packet = FromClient(flow: FlowId, id: int) | ToClient(flow: FlowId, portSum: nat, id: int)
                  | Stray(portSum: nat, id: int)

  /** The worker that the ports of a client's packets select. */
  function Home(f: FlowId): nat {
    (Htons(f.client.port) + Htons(f.serverPort)) % T
  }

  function PortSum(p: Packet): nat {
    match p
    case FromClient(f, _) => Htons(f.client.port) + Htons(f.serverPort)
    case ToClient(_, portSum, _) => portSum
    case Stray(portSum, _) => portSum
  }

  predicate Of(p: Packet, f: FlowId) {
    !p.Stray? && p.flow == f
  }

  /** A packet and the worker it goes to. */
  datatype Item = Item(tid: nat, packet: Packet)

  type Key = (NatTables.Ip6Port, NatTables.Ip6)

  /** A flow in the tables: whose packet made it, and the worker that was chosen then. */
  datatype Entry = Entry(flow: FlowId, tid: nat)

  datatype State = State(
    cmp: NatTables.Comparator, prefix: NatTables.Ip6,
    waiting: Option<Item>,             // read by the dispatcher, not yet in a queue
    queues: seq<seq<Packet>>,          // q[T]
    hands: seq<Option<Packet>>,        // the packet a worker has popped and is translating
    entries: map<Key, Entry>,          // map64_
    sent: set<FlowId>,                 // flows of which a client's packet was sent
    // histories
    arrived: seq<Packet>, dispatched: seq<Item>, done: seq<Item>)

  function KeyFor(cmp: NatTables.Comparator, prefix: NatTables.Ip6, f: FlowId): Key {
    NatTables.KeyOf(cmp, f.client, NatTables.Embed(prefix, f.server))
  }

  datatype Step =
    | Arrive(packet: Packet)   // tun_handle: classify the packet
    | Push                     // the queue has room
    | Pop(worker: nat)
    | Translate(worker: nat)

  predicate WellFormed(s: State) {
    |s.queues| == T && |s.hands| == T
  }

  function Init(cmp: NatTables.Comparator, prefix: NatTables.Ip6): State {
    State(cmp, prefix, None, [[], [], [], []], [None, None, None, None], map[], {}, [], [], [])
  }

  /** tun.h:107-112: the worker of the flow that the tables give for the packet, else by the ports. */
  function Classify(s: State, p: Packet): nat {
    if !p.Stray? && KeyFor(s.cmp, s.prefix, p.flow) in s.entries then s.entries[KeyFor(s.cmp, s.prefix, p.flow)].tid
    else PortSum(p) % T
  }

  predicate Enabled(s: State, step: Step)
    requires WellFormed(s)
  {
    match step
    // a server answers only after a packet was sent to it; map46_ finds the flow if it was made for that server
    case Arrive(p) => s.waiting == None && (p.ToClient? ==>
      && p.flow in s.sent && KeyFor(s.cmp, s.prefix, p.flow) in s.entries
      && s.entries[KeyFor(s.cmp, s.prefix, p.flow)].flow.server == p.flow.server)
    case Push => s.waiting.Some? && s.waiting.value.tid < T && |s.queues[s.waiting.value.tid]| <= QMAX
    case Pop(w) => w < T && s.queues[w] != [] && s.hands[w] == None
    case Translate(w) => w < T && s.hands[w].Some?
  }

  /** begin: the flow of a client's packet is made if need be, and gets this worker. */
  function Begin(s: State, p: Packet, w: nat): State {
    if p.FromClient? then
      var k := KeyFor(s.cmp, s.prefix, p.flow);
      s.(entries := if k in s.entries then s.entries else s.entries[k := Entry(p.flow, w)], sent := s.sent + {p.flow})
    else s
  }

  function Apply(s: State, step: Step): State
    requires WellFormed(s) && Enabled(s, step)
  {
    match step
    case Arrive(p) => s.(waiting := Some(Item(Classify(s, p), p)), arrived := s.arrived + [p])
    case Push =>
      var i := s.waiting.value;
      s.(waiting := None, queues := s.queues[i.tid := s.queues[i.tid] + [i.packet]], dispatched := s.dispatched + [i])
    case Pop(w) =>
      s.(queues := s.queues[w := s.queues[w][1..]], hands := s.hands[w := Some(s.queues[w][0])])
    case Translate(w) =>
      var p := s.hands[w].value;
      Begin(s.(hands := s.hands[w := None], done := s.done + [Item(w, p)]), p, w)
  }

  // ----- histories by worker and by flow

  function OfWorker(items: seq<Item>, w: nat): seq<Packet> {
    if items == [] then []
    else OfWorker(items[..|items| - 1], w) + if items[|items| - 1].tid == w then [items[|items| - 1].packet] else []
  }

  function OfFlow(packets: seq<Packet>, f: FlowId): seq<Packet> {
    if packets == [] then []
    else OfFlow(packets[..|packets| - 1], f) + if Of(packets[|packets| - 1], f) then [packets[|packets| - 1]] else []
  }

  function Packets(items: seq<Item>): seq<Packet> {
    if items == [] then [] else Packets(items[..|items| - 1]) + [items[|items| - 1].packet]
  }

  function Held(h: Option<Packet>): seq<Packet> {
    if h == None then [] else [h.value]
  }

  function Waiting(w: Option<Item>): seq<Packet> {
    if w == None then [] else [w.value.packet]
  }

  lemma OfWorkerAppend(items: seq<Item>, i: Item, w: nat)
    ensures OfWorker(items + [i], w) == OfWorker(items, w) + if i.tid == w then [i.packet] else []
  {
    assert (items + [i])[..|items|] == items;
  }

  lemma OfFlowAppend(packets: seq<Packet>, p: Packet, f: FlowId)
    ensures OfFlow(packets + [p], f) == OfFlow(packets, f) + if Of(p, f) then [p] else []
  {
    assert (packets + [p])[..|packets|] == packets;
  }

  lemma PacketsAppend(items: seq<Item>, i: Item)
    ensures Packets(items + [i]) == Packets(items) + [i.packet]
  {
    assert (items + [i])[..|items|] == items;
  }

  // ----- the invariant

  /** Every chosen worker exists. */
  predicate TidsOk(s: State) {
    (s.waiting.Some? ==> s.waiting.value.tid < T) && forall k :: k in s.entries ==> s.entries[k].tid < T
  }

  /** What was pushed to a worker is what it has done, holds, and has queued, in this order. */
  predicate WorkerFifo(s: State, w: nat)
    requires WellFormed(s) && w < T
  {
    OfWorker(s.dispatched, w) == OfWorker(s.done, w) + (Held(s.hands[w]) + s.queues[w])
  }

  predicate Fifo(s: State)
    requires WellFormed(s)
  {
    && s.arrived == Packets(s.dispatched) + Waiting(s.waiting)
    && (forall w :: 0 <= w < T ==> WorkerFifo(s, w))
  }

  predicate Bounded(s: State)
    requires WellFormed(s)
  {
    forall w :: 0 <= w < T ==> |s.queues[w]| <= QMAX + 1
  }

  predicate Inv(s: State) {
    WellFormed(s) && TidsOk(s) && Fifo(s) && Bounded(s)
  }

  lemma InitInv(cmp: NatTables.Comparator, prefix: NatTables.Ip6)
    ensures Inv(Init(cmp, prefix))
  {
  }

  lemma ArriveKeepsInv(s: State, p: Packet)
    requires Inv(s) && Enabled(s, Arrive(p))
    ensures Inv(Apply(s, Arrive(p)))
  {
    var s' := Apply(s, Arrive(p));
    assert s'.arrived == Packets(s'.dispatched) + Waiting(s'.waiting);
    forall w | 0 <= w < T ensures WorkerFifo(s', w) {
      assert WorkerFifo(s, w);
    }
  }

  lemma PushKeepsInv(s: State)
    requires Inv(s) && Enabled(s, Push)
    ensures Inv(Apply(s, Push))
  {
    var s', i := Apply(s, Push), s.waiting.value;
    PacketsAppend(s.dispatched, i);
    assert s'.arrived == Packets(s'.dispatched) + Waiting(s'.waiting);
    forall w | 0 <= w < T ensures WorkerFifo(s', w) {
      assert WorkerFifo(s, w);
      OfWorkerAppend(s.dispatched, i, w);
    }
  }

  lemma PopKeepsInv(s: State, w: nat)
    requires Inv(s) && Enabled(s, Pop(w))
    ensures Inv(Apply(s, Pop(w)))
  {
    var s' := Apply(s, Pop(w));
    forall v | 0 <= v < T ensures WorkerFifo(s', v) {
      assert WorkerFifo(s, v);
      if v == w {
        assert s.queues[w] == [s.queues[w][0]] + s.queues[w][1..];
      }
    }
  }

  lemma TranslateKeepsInv(s: State, w: nat)
    requires Inv(s) && Enabled(s, Translate(w))
    ensures Inv(Apply(s, Translate(w)))
  {
    var s', p := Apply(s, Translate(w)), s.hands[w].value;
    forall v | 0 <= v < T ensures WorkerFifo(s', v) {
      assert WorkerFifo(s, v);
      OfWorkerAppend(s.done, Item(w, p), v);
      if v == w {
        assert [] + s.queues[w] == s.queues[w];
        Associates(OfWorker(s.done, w), [p], s.queues[w]);
      }
    }
  }

  lemma StepKeepsInv(s: State, step: Step)
    requires Inv(s) && Enabled(s, step)
    ensures Inv(Apply(s, step))
  {
    match step {
      case Arrive(p) => ArriveKeepsInv(s, p);
      case Push => PushKeepsInv(s);
      case Pop(w) => PopKeepsInv(s, w);
      case Translate(w) => TranslateKeepsInv(s, w);
    }
  }

  // ----- every run

  predicate Feasible(s: State, steps: seq<Step>)
    decreases |steps|
  {
    WellFormed(s) && (steps == [] || (Enabled(s, steps[0]) && Feasible(Apply(s, steps[0]), steps[1..])))
  }

  function After(s: State, steps: seq<Step>): State
    requires Feasible(s, steps)
    decreases |steps|
  {
    if steps == [] then s else After(Apply(s, steps[0]), steps[1..])
  }

  lemma {:induction false} RunKeepsInv(s: State, steps: seq<Step>)
    requires Inv(s) && Feasible(s, steps)
    ensures Inv(After(s, steps))
    decreases |steps|
  {
    if steps != [] {
      StepKeepsInv(s, steps[0]);
      RunKeepsInv(Apply(s, steps[0]), steps[1..]);
    }
  }

  lemma QueuesAreBounded(cmp: NatTables.Comparator, prefix: NatTables.Ip6, steps: seq<Step>, w: nat)
    requires Feasible(Init(cmp, prefix), steps) && w < T
    ensures var s := After(Init(cmp, prefix), steps); WellFormed(s) && |s.queues[w]| <= 10001
  {
    InitInv(cmp, prefix);
    RunKeepsInv(Init(cmp, prefix), steps);
  }

  /** A full queue never blocks for ever: its worker can take a step. */
  lemma FullQueueDrains(cmp: NatTables.Comparator, prefix: NatTables.Ip6, steps: seq<Step>)
    requires Feasible(Init(cmp, prefix), steps)
    ensures var s := After(Init(cmp, prefix), steps);
      WellFormed(s) && (s.waiting.Some? && !Enabled(s, Push) ==>
        var w := s.waiting.value.tid; Enabled(s, Pop(w)) || Enabled(s, Translate(w)))
  {
    InitInv(cmp, prefix);
    RunKeepsInv(Init(cmp, prefix), steps);
  }

  // ----- flows that the tables keep apart

  /** The flows of a run: those that share a key in the tables have the same worker by their ports. */
  predicate NoClash(cmp: NatTables.Comparator, prefix: NatTables.Ip6, flows: set<FlowId>) {
    forall f, g :: f in flows && g in flows && KeyFor(cmp, prefix, f) == KeyFor(cmp, prefix, g) ==> Home(f) == Home(g)
  }

  predicate InFlows(p: Packet, flows: set<FlowId>) {
    !p.Stray? ==> p.flow in flows
  }

  /** An item of a flow is at the flow's home. */
  predicate AtHome(i: Item, flows: set<FlowId>) {
    InFlows(i.packet, flows) && i.tid < T && (!i.packet.Stray? ==> i.tid == Home(i.packet.flow))
  }

  predicate ItemsAtHome(items: seq<Item>, flows: set<FlowId>) {
    forall i :: 0 <= i < |items| ==> AtHome(items[i], flows)
  }

  /** Every entry is under the key of the flow that made it, and names that flow's home. */
  predicate EntriesOk(s: State, flows: set<FlowId>) {
    forall k :: k in s.entries ==>
      var e := s.entries[k]; e.flow in flows && k == KeyFor(s.cmp, s.prefix, e.flow) && e.tid == Home(e.flow)
  }

  /** Packets of a worker's queue and hand are at home there. */
  predicate HeldAtHome(s: State, flows: set<FlowId>)
    requires WellFormed(s)
  {
    && (forall w, k :: 0 <= w < T && 0 <= k < |s.queues[w]| ==> AtHome(Item(w, s.queues[w][k]), flows))
    && (forall w :: 0 <= w < T && s.hands[w].Some? ==> AtHome(Item(w, s.hands[w].value), flows))
  }

  predicate HomeInv(s: State, flows: set<FlowId>) {
    && WellFormed(s) && NoClash(s.cmp, s.prefix, flows)
    && (s.waiting.Some? ==> AtHome(s.waiting.value, flows))
    && ItemsAtHome(s.dispatched, flows) && ItemsAtHome(s.done, flows) && EntriesOk(s, flows) && HeldAtHome(s, flows)
  }

  /** The packets that arrive in these steps are of the given flows, or of none. */
  predicate Within(steps: seq<Step>, flows: set<FlowId>) {
    forall i :: 0 <= i < |steps| && steps[i].Arrive? ==> InFlows(steps[i].packet, flows)
  }

  lemma StepKeepsHome(s: State, step: Step, flows: set<FlowId>)
    requires HomeInv(s, flows) && Enabled(s, step) && (step.Arrive? ==> InFlows(step.packet, flows))
    ensures HomeInv(Apply(s, step), flows)
  {
    match step {
      case Arrive(p) => {}
      case Push => PushKeepsHome(s, flows);
      case Pop(w) => {}
      case Translate(w) => TranslateKeepsHome(s, w, flows);
    }
  }

  lemma PushKeepsHome(s: State, flows: set<FlowId>)
    requires HomeInv(s, flows) && Enabled(s, Push)
    ensures HomeInv(Apply(s, Push), flows)
  {
    ItemsAppend(s.dispatched, s.waiting.value, flows);
  }

  lemma ItemsAppend(items: seq<Item>, i: Item, flows: set<FlowId>)
    requires ItemsAtHome(items, flows) && AtHome(i, flows)
    ensures ItemsAtHome(items + [i], flows)
  {
  }

  lemma TranslateKeepsHome(s: State, w: nat, flows: set<FlowId>)
    requires HomeInv(s, flows) && Enabled(s, Translate(w))
    ensures HomeInv(Apply(s, Translate(w)), flows)
  {
    assert AtHome(Item(w, s.hands[w].value), flows);
    ItemsAppend(s.done, Item(w, s.hands[w].value), flows);
  }

  lemma {:induction false} RunKeepsHome(s: State, steps: seq<Step>, flows: set<FlowId>)
    requires HomeInv(s, flows) && Feasible(s, steps) && Within(steps, flows)
    ensures HomeInv(After(s, steps), flows)
    decreases |steps|
  {
    if steps != [] {
      StepKeepsHome(s, steps[0], flows);
      assert forall i :: 0 <= i < |steps[1..]| ==> steps[1..][i] == steps[i + 1];
      RunKeepsHome(Apply(s, steps[0]), steps[1..], flows);
    }
  }

  /** All packets of a flow, in both directions, are translated by the one worker that is its home. */
  lemma FlowStaysWithOneWorker(cmp: NatTables.Comparator, prefix: NatTables.Ip6, flows: set<FlowId>, steps: seq<Step>)
    requires NoClash(cmp, prefix, flows) && Feasible(Init(cmp, prefix), steps) && Within(steps, flows)
    ensures ItemsAtHome(After(Init(cmp, prefix), steps).done, flows)
  {
    RunKeepsHome(Init(cmp, prefix), steps, flows);
  }

  lemma {:induction false} OfFlowConcat(a: seq<Packet>, b: seq<Packet>, f: FlowId)
    ensures Same(OfFlow(a + b, f), OfFlow(a, f) + OfFlow(b, f))
  {
    if b == [] {
      assert a + b == a && OfFlow(a, f) + [] == OfFlow(a, f);
    } else {
      var b', p := b[..|b| - 1], b[|b| - 1];
      assert a + b == (a + b') + [p];
      OfFlowConcat(a, b', f);
      OfFlowAppend(a + b', p, f);
      OfFlowAppend(b', p, f);
      assert b == b' + [p];
      Associates(OfFlow(a, f), OfFlow(b', f), if Of(p, f) then [p] else []);
    }
  }

  /** Of items that are at home, the packets of a flow are all at the flow's home. */
  lemma {:induction false} FlowIsAtHome(items: seq<Item>, f: FlowId, flows: set<FlowId>)
    requires ItemsAtHome(items, flows)
    ensures OfFlow(Packets(items), f) == OfFlow(OfWorker(items, Home(f)), f)
  {
    if items != [] {
      var rest, last := items[..|items| - 1], items[|items| - 1];
      FlowIsAtHome(rest, f, flows);
      assert items == rest + [last];
      PacketsAppend(rest, last);
      OfWorkerAppend(rest, last, Home(f));
      OfFlowAppend(Packets(rest), last.packet, f);
      OfFlowConcat(OfWorker(rest, Home(f)), [last.packet], f);
      OfFlowAppend([], last.packet, f);
      assert AtHome(last, flows);
      if last.tid != Home(f) {
        assert !Of(last.packet, f);
        assert OfWorker(items, Home(f)) == OfWorker(rest, Home(f));
      } else {
        assert [] + [last.packet] == [last.packet];
      }
    }
  }

  /** What is still on its way to a flow's home. */
  function Pending(s: State, f: FlowId): seq<Packet>
    requires WellFormed(s)
  {
    Held(s.hands[Home(f)]) + s.queues[Home(f)] + Waiting(s.waiting)
  }

  /**
    The packets of a flow are translated in the order in which they arrived, none lost and none
    twice: those translated, followed by those still on their way, are those that arrived.
   */
  lemma FlowIsProcessedInOrder(cmp: NatTables.Comparator, prefix: NatTables.Ip6, flows: set<FlowId>, steps: seq<Step>,
                               f: FlowId)
    requires NoClash(cmp, prefix, flows) && Feasible(Init(cmp, prefix), steps) && Within(steps, flows)
    ensures var s := After(Init(cmp, prefix), steps);
      WellFormed(s) && OfFlow(Packets(s.done), f) + OfFlow(Pending(s, f), f) == OfFlow(s.arrived, f)
  {
    InitInv(cmp, prefix);
    RunKeepsInv(Init(cmp, prefix), steps);
    RunKeepsHome(Init(cmp, prefix), steps, flows);
    var s := After(Init(cmp, prefix), steps);
    FlowIsAtHome(s.done, f, flows);
    FlowIsAtHome(s.dispatched, f, flows);
    assert WorkerFifo(s, Home(f));
    SameFlow(s.arrived, Packets(s.dispatched), OfWorker(s.dispatched, Home(f)), OfWorker(s.done, Home(f)),
             Held(s.hands[Home(f)]) + s.queues[Home(f)], Waiting(s.waiting), f);
  }

  lemma SameFlow(arrived: seq<Packet>, pushed: seq<Packet>, atHome: seq<Packet>, doneHere: seq<Packet>,
                 onHand: seq<Packet>, waiting: seq<Packet>, f: FlowId)
    requires Same(arrived, pushed + waiting) && OfFlow(pushed, f) == OfFlow(atHome, f) && Same(atHome, doneHere + onHand)
    ensures Same(OfFlow(arrived, f), OfFlow(doneHere, f) + OfFlow(onHand + waiting, f))
  {
    OfFlowConcat(pushed, waiting, f);
    OfFlowConcat(onHand, waiting, f);
    OfFlowConcat(doneHere, onHand, f);
    Associates(OfFlow(doneHere, f), OfFlow(onHand, f), OfFlow(waiting, f));
  }

  // ----- and flows that share a key

  lemma {:induction false} RunsAppend(s: State, a: seq<Step>, b: seq<Step>)
    requires Feasible(s, a) && Feasible(After(s, a), b)
    ensures Feasible(s, a + b) && After(s, a + b) == After(After(s, a), b)
    decreases |a|
  {
    if a == [] {
      assert a + b == b;
    } else {
      assert (a + b)[0] == a[0] && (a + b)[1..] == a[1..] + b;
      RunsAppend(Apply(s, a[0]), a[1..], b);
    }
  }

  lemma TwoSteps(s: State, a: Step, b: Step)
    requires WellFormed(s) && Enabled(s, a)
    requires WellFormed(Apply(s, a)) && Enabled(Apply(s, a), b) && WellFormed(Apply(Apply(s, a), b))
    ensures Feasible(s, [a, b]) && After(s, [a, b]) == Apply(Apply(s, a), b)
  {
    assert [a, b][1..] == [b] && [b][1..] == [];
    assert After(Apply(s, a), [b]) == After(Apply(Apply(s, a), b), []);
  }

  /** A packet is read and put into the queue of worker w. */
  function Queued(s: State, p: Packet, w: nat): State
    requires WellFormed(s) && w < T
  {
    s.(arrived := s.arrived + [p], dispatched := s.dispatched + [Item(w, p)], queues := s.queues[w := s.queues[w] + [p]])
  }

  lemma PacketIsQueued(s: State, p: Packet, w: nat) returns (steps: seq<Step>)
    requires WellFormed(s) && p.FromClient? && s.waiting == None && Classify(s, p) == w < T && |s.queues[w]| <= QMAX
    ensures steps == [Arrive(p), Push]
    ensures Feasible(s, steps) && After(s, steps) == Queued(s, p, w)
  {
    steps := [Arrive(p), Push];
    TwoSteps(s, Arrive(p), Push);
    assert s.waiting == Queued(s, p, w).waiting;
  }

  /** A worker takes and translates the only packet of its queue. */
  function Finished(s: State, p: Packet, w: nat): State
    requires WellFormed(s) && w < T
  {
    Begin(s.(queues := s.queues[w := []], done := s.done + [Item(w, p)]), p, w)
  }

  lemma PacketIsFinished(s: State, p: Packet, w: nat) returns (steps: seq<Step>)
    requires WellFormed(s) && w < T && s.queues[w] == [p] && s.hands[w] == None
    ensures steps == [Pop(w), Translate(w)]
    ensures Feasible(s, steps) && After(s, steps) == Finished(s, p, w)
  {
    steps := [Pop(w), Translate(w)];
    assert [p][1..] == [] && [p][0] == p;
    assert s.hands[w := Some(p)][w := None] == s.hands;
    TwoSteps(s, Pop(w), Translate(w));
  }

  /** The packet goes all the way. */
  lemma PacketTravels(s: State, p: Packet, w: nat) returns (steps: seq<Step>)
    requires WellFormed(s) && p.FromClient? && s.waiting == None && Classify(s, p) == w < T
    requires s.queues[w] == [] && s.hands[w] == None
    ensures steps == [Arrive(p), Push, Pop(w), Translate(w)]
    ensures Feasible(s, steps) && After(s, steps) == Finished(Queued(s, p, w), p, w)
  {
    var a := PacketIsQueued(s, p, w);
    assert [] + [p] == [p];
    var b := PacketIsFinished(Queued(s, p, w), p, w);
    steps := a + b;
    RunsAppend(s, a, b);
  }

  /** All packets of a flow that were translated went through one worker. */
  predicate OneWorker(s: State) {
    forall i, j :: 0 <= i < |s.done| && 0 <= j < |s.done| && SameFlowAs(s.done[i].packet, s.done[j].packet) ==>
      s.done[i].tid == s.done[j].tid
  }

  predicate SameFlowAs(p: Packet, q: Packet) {
    !p.Stray? && !q.Stray? && p.flow == q.flow
  }

  /** The packets of a flow that were translated are the first that arrived, in order. */
  predicate InArrivalOrder(s: State, f: FlowId) {
    OfFlow(Packets(s.done), f) <= OfFlow(s.arrived, f)
  }

  /**
    Two flows under one key whose ports select different workers. A first packet of f is queued for
    f's home; a packet of g is translated and makes the entry, with g's home; the second packet of f
    finds g's entry, goes to g's home, and overtakes the first.
   */
  lemma ClashSplitsFlow(cmp: NatTables.Comparator, prefix: NatTables.Ip6, f: FlowId, g: FlowId) returns (steps: seq<Step>)
    requires KeyFor(cmp, prefix, f) == KeyFor(cmp, prefix, g) && Home(f) != Home(g)
    ensures Within(steps, {f, g}) && Feasible(Init(cmp, prefix), steps)
    ensures var s := After(Init(cmp, prefix), steps);
      && s.arrived == [FromClient(f, 1), FromClient(g, 1), FromClient(f, 2)]
      && s.done == [Item(Home(g), FromClient(g, 1)), Item(Home(g), FromClient(f, 2)), Item(Home(f), FromClient(f, 1))]
  {
    var s0, a, b := Init(cmp, prefix), Home(f), Home(g);
    var f1, g1, f2 := FromClient(f, 1), FromClient(g, 1), FromClient(f, 2);
    var r1 := PacketIsQueued(s0, f1, a);
    var s1 := Queued(s0, f1, a);
    var r2 := PacketTravels(s1, g1, b);
    RunsAppend(s0, r1, r2);
    var r3 := Overtakes(Finished(Queued(s1, g1, b), g1, b), f1, f2, a, b);
    RunsAppend(s0, r1 + r2, r3);
    steps := (r1 + r2) + r3;
  }

  /** A packet q goes all the way through worker b while p waits in the queue of a; then p is translated. */
  lemma Overtakes(s: State, p: Packet, q: Packet, a: nat, b: nat) returns (steps: seq<Step>)
    requires WellFormed(s) && a < T && b < T && a != b && s.waiting == None && q.FromClient? && Classify(s, q) == b
    requires s.queues[a] == [p] && s.hands[a] == None && s.queues[b] == [] && s.hands[b] == None
    ensures steps == [Arrive(q), Push, Pop(b), Translate(b)] + [Pop(a), Translate(a)]
    ensures Feasible(s, steps)
    ensures After(s, steps).arrived == s.arrived + [q] && After(s, steps).done == s.done + [Item(b, q)] + [Item(a, p)]
  {
    var r1 := PacketTravels(s, q, b);
    var r2 := PacketIsFinished(Finished(Queued(s, q, b), q, b), p, a);
    RunsAppend(s, r1, r2);
    steps := r1 + r2;
  }

  /** The run is wrong in both respects. */
  lemma ClashIsSeen(cmp: NatTables.Comparator, prefix: NatTables.Ip6, f: FlowId, g: FlowId) returns (steps: seq<Step>)
    requires KeyFor(cmp, prefix, f) == KeyFor(cmp, prefix, g) && Home(f) != Home(g)
    ensures Within(steps, {f, g}) && Feasible(Init(cmp, prefix), steps)
    ensures var s := After(Init(cmp, prefix), steps); !OneWorker(s) && !InArrivalOrder(s, f)
  {
    steps := ClashSplitsFlow(cmp, prefix, f, g);
    var s := After(Init(cmp, prefix), steps);
    var f1, g1, f2 := FromClient(f, 1), FromClient(g, 1), FromClient(f, 2);
    assert SameFlowAs(s.done[1].packet, s.done[2].packet);
    OfFlowOfThree(f1, g1, f2, f);
    OfFlowOfThree(g1, f2, f1, f);
    PacketsOfThree(s.done[0], s.done[1], s.done[2]);
    assert OfFlow(Packets(s.done), f) == [f2, f1] && OfFlow(s.arrived, f) == [f1, f2];
    assert [f2, f1][0] == f2 && [f1, f2][0] == f1;
  }

  lemma OfFlowOfThree(a: Packet, b: Packet, c: Packet, f: FlowId)
    ensures OfFlow([a, b, c], f) == Only(a, f) + Only(b, f) + Only(c, f)
  {
    assert [a, b, c] == ([] + [a] + [b]) + [c];
    OfFlowAppend([] + [a] + [b], c, f);
    OfFlowAppend([] + [a], b, f);
    OfFlowAppend([], a, f);
    assert OfFlow([], f) + Only(a, f) == Only(a, f);
  }

  function Only(p: Packet, f: FlowId): seq<Packet> {
    if Of(p, f) then [p] else []
  }

  lemma PacketsOfThree(a: Item, b: Item, c: Item)
    ensures Packets([a, b, c]) == [a.packet, b.packet, c.packet]
  {
    assert [a, b, c] == ([] + [a] + [b]) + [c];
    PacketsAppend([] + [a] + [b], c);
    PacketsAppend([] + [a], b);
    PacketsAppend([], a);
    assert [] + [a.packet] + [b.packet] + [c.packet] == [a.packet, b.packet, c.packet];
  }

  /**
    The first packet of a flow goes to the worker numbered by the sum of its two ports, modulo 4; clients on
    consecutive ports go to consecutive workers.
   */
  lemma FirstPacketGoesByPorts(cmp: NatTables.Comparator, prefix: NatTables.Ip6, f: FlowId, id: int, port: nat, serverPort: nat)
    requires port < 0x1_0000 && serverPort < 0x1_0000 && f.client.port == Htons(port) && f.serverPort == Htons(serverPort)
    ensures var s := Init(cmp, prefix);
      && Enabled(s, Arrive(FromClient(f, id)))
      && Apply(s, Arrive(FromClient(f, id))).waiting == Some(Item((port + serverPort) % 4, FromClient(f, id)))
    ensures Home(f) == (port + serverPort) % 4
    ensures Apply(Init(cmp, prefix), Arrive(Stray(port + serverPort, id))).waiting
      == Some(Item((port + serverPort) % 4, Stray(port + serverPort, id)))
  {
    HtonsTwice(port);
    HtonsTwice(serverPort);
    GoesBySum(cmp, prefix, f, id, port + serverPort);
  }

  lemma GoesBySum(cmp: NatTables.Comparator, prefix: NatTables.Ip6, f: FlowId, id: int, sum: nat)
    requires sum == Htons(f.client.port) + Htons(f.serverPort)
    ensures Enabled(Init(cmp, prefix), Arrive(FromClient(f, id))) && Enabled(Init(cmp, prefix), Arrive(Stray(sum, id)))
    ensures Apply(Init(cmp, prefix), Arrive(FromClient(f, id))).waiting == Some(Item(sum % 4, FromClient(f, id)))
    ensures Apply(Init(cmp, prefix), Arrive(Stray(sum, id))).waiting == Some(Item(sum % 4, Stray(sum, id)))
    ensures Home(f) == sum % 4
  {
  }

  /** An entry once made is never changed: the first packet under a key that a worker translates decides for all. */
  lemma {:induction false} EntriesPersist(s: State, steps: seq<Step>)
    requires WellFormed(s) && Feasible(s, steps)
    ensures forall k :: k in s.entries ==> k in After(s, steps).entries && After(s, steps).entries[k] == s.entries[k]
    decreases |steps|
  {
    if steps != [] {
      EntriesPersist(Apply(s, steps[0]), steps[1..]);
    }
  }

  lemma FirstTranslatedDecides(s: State, w: nat)
    requires WellFormed(s) && Enabled(s, Translate(w)) && s.hands[w].value.FromClient?
    ensures var f := s.hands[w].value.flow;
      var k := KeyFor(s.cmp, s.prefix, f);
      k in Apply(s, Translate(w)).entries && (k !in s.entries ==> Apply(s, Translate(w)).entries[k] == Entry(f, w))
  {
  }

  /** In every run with these flows each flow stays with one worker. */
  ghost predicate AlwaysOneWorker(cmp: NatTables.Comparator, prefix: NatTables.Ip6, flows: set<FlowId>) {
    forall steps: seq<Step> :: Feasible(Init(cmp, prefix), steps) && Within(steps, flows) ==>
      OneWorker(After(Init(cmp, prefix), steps))
  }

  /** In every run with these flows each flow is processed in arrival order. */
  ghost predicate AlwaysInOrder(cmp: NatTables.Comparator, prefix: NatTables.Ip6, flows: set<FlowId>) {
    forall steps: seq<Step>, f: FlowId :: Feasible(Init(cmp, prefix), steps) && Within(steps, flows) ==>
      InArrivalOrder(After(Init(cmp, prefix), steps), f)
  }

  /** Flows keep their worker, and their order, in every run if and only if no two of them clash. */
  lemma AffinityExactly(cmp: NatTables.Comparator, prefix: NatTables.Ip6, flows: set<FlowId>)
    ensures AlwaysOneWorker(cmp, prefix, flows) <==> NoClash(cmp, prefix, flows)
    ensures AlwaysInOrder(cmp, prefix, flows) <==> NoClash(cmp, prefix, flows)
  {
    if NoClash(cmp, prefix, flows) {
      forall steps: seq<Step> | Feasible(Init(cmp, prefix), steps) && Within(steps, flows)
        ensures OneWorker(After(Init(cmp, prefix), steps))
      {
        FlowStaysWithOneWorker(cmp, prefix, flows, steps);
        AtHomeIsOneWorker(After(Init(cmp, prefix), steps), flows);
      }
      forall steps: seq<Step>, f: FlowId | Feasible(Init(cmp, prefix), steps) && Within(steps, flows)
        ensures InArrivalOrder(After(Init(cmp, prefix), steps), f)
      {
        FlowIsProcessedInOrder(cmp, prefix, flows, steps, f);
      }
    } else {
      var f, g :| f in flows && g in flows && KeyFor(cmp, prefix, f) == KeyFor(cmp, prefix, g) && Home(f) != Home(g);
      var steps := ClashIsSeen(cmp, prefix, f, g);
      assert Within(steps, flows);
    }
  }

  lemma AtHomeIsOneWorker(s: State, flows: set<FlowId>)
    requires ItemsAtHome(s.done, flows)
    ensures OneWorker(s)
  {
    forall i, j | 0 <= i < |s.done| && 0 <= j < |s.done| && SameFlowAs(s.done[i].packet, s.done[j].packet)
      ensures s.done[i].tid == s.done[j].tid
    {
      assert AtHome(s.done[i], flows) && AtHome(s.done[j], flows);
    }
  }

  /** With the comparison that was meant, flows clash only if a client uses two ports of a server. */
  lemma IntendedKeepsApart(prefix: NatTables.Ip6, flows: set<FlowId>)
    requires forall f, g :: f in flows && g in flows && f.client == g.client && f.server == g.server ==>
      f.serverPort == g.serverPort
    ensures NoClash(NatTables.Intended, prefix, flows)
  {
    forall f, g | f in flows && g in flows && KeyFor(NatTables.Intended, prefix, f) == KeyFor(NatTables.Intended, prefix, g)
      ensures Home(f) == Home(g)
    {
      NatTables.EmbedExtract(prefix, f.server, prefix);
      NatTables.EmbedExtract(prefix, g.server, prefix);
    }
  }

  /** With the comparison as written, flows clash as soon as their clients' port numbers are equal and their workers are not. */
  lemma WrittenClashesExactly(prefix: NatTables.Ip6, flows: set<FlowId>)
    ensures NoClash(NatTables.AsWritten, prefix, flows) <==>
      forall f, g :: f in flows && g in flows && f.client.port == g.client.port ==> Home(f) == Home(g)
  {
    forall f: FlowId, g: FlowId
      ensures KeyFor(NatTables.AsWritten, prefix, f) == KeyFor(NatTables.AsWritten, prefix, g)
         <==> f.client.port == g.client.port
    {
    }
  }
}
