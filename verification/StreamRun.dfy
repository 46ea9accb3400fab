/**
  Whole runs of a TCP connection through the gateway. Both directions may interleave freely; the
  theorems hold for each direction whose own segments arrive in order and without loss. SHIFT mode, in
  which cut bytes are carried on, has its own theorems in ShiftRun.
 */
module StreamRun {
  import opened Words
  import opened Operations
  import opened Splicing
  import opened ByteMachine
  import opened ByteLoop
  import opened Parsers
  import opened FlowRewrite
  import opened TcpRepair

  /** What the parser that answered knows of a declared length (parser.h:57-58), and whether it is the HTTP parser. */
  datatype Limit = Limit(http: bool, maxPos: int, maxLen: int)

  const NoLimit := Limit(false, -1, 0)

  /**
    A segment reaching the gateway, with the bytes that lie behind its payload in the buffer, the position
    that its parser gives the first byte of the payload, and the operations that the parser returns.
   */
  datatype Arrival = Arrival(dest: Dest, seqNo: uint32, ackNo: uint32, payload: string, stale: string,
                             pos: nat, ops: seq<Operation>, limit: Limit)

  function OffsetOf(c: Conn, a: Arrival): int {
    PacketOffset(c.initSeq.Get(a.dest), HeaderSeq(c, a.dest, a.seqNo))
  }

  predicate Untouched(c: Conn, a: Arrival) {
    c.ignored || a.payload == "" || a.ops == []
  }

  /** The rewriting loop stays inside the buffer. */
  predicate Acceptable(c: Conn, a: Arrival) {
    Untouched(c, a) || Runs(|a.payload + a.stale|, |a.payload|, Sort(a.ops), OffsetOf(c, a))
  }

  /** The rewritten payload with the parser's tail, before any cut. */
  function Text(c: Conn, a: Arrival): string
    requires Acceptable(c, a)
  {
    if Untouched(c, a) then a.payload
    else Rewritten(a.payload + a.stale, |a.payload|, Sort(a.ops), OffsetOf(c, a),
                   a.limit.maxPos, a.limit.maxLen, a.limit.http)
  }

  function Step(c: Conn, mode: Extra, a: Arrival): Sending
    requires Acceptable(c, a)
  {
    Forward(c, mode, a.dest, a.seqNo, a.ackNo, a.payload, a.ops != [], Text(c, a))
  }

  /** A buffer with room for all new data behind the payload makes every list of operations that fits acceptable. */
  lemma RoomIsAcceptable(c: Conn, a: Arrival)
    requires Fits(Sort(a.ops), OffsetOf(c, a), OffsetOf(c, a) + |a.payload|)
    requires TotalNew(Sort(a.ops)) <= |a.stale|
    ensures Acceptable(c, a)
  {
    RoomRuns(|a.payload + a.stale|, |a.payload|, Sort(a.ops), OffsetOf(c, a));
  }

  /**
    A step of a run is what Nat.Translate does to the packet unpacked from the segment; obuf has to have
    room for what is written to it.
   */
  method Deliver(nat64: Nat, flow: Flow, extra: Extra, a: Arrival, parser: Parser, headerLen: nat,
                 obuf: array<char>, ibuf: array<char>) returns (wires: seq<Wire>)
    requires Acceptable(ConnOf(flow), a)
    requires a.limit == Limit(parser.http, parser.maxPos, parser.maxLen)
    requires obuf != ibuf && ibuf[..] == a.payload + a.stale
    requires |a.payload| <= obuf.Length && obuf[..|a.payload|] == a.payload
    requires |Text(ConnOf(flow), a)| <= obuf.Length && |a.payload| + TotalDelta(Sort(a.ops)) <= obuf.Length
    requires |flow.trail.Get(a.dest)| <= obuf.Length
    requires extra == ShiftExtra && a.payload != "" && !flow.ignored ==> |Carry(flow.trailShift, a.seqNo)| <= |a.payload|
    modifies nat64, flow, parser`maxPos, obuf
    ensures Sending(ConnOf(flow), wires) == Step(old(ConnOf(flow)), extra, a)
  {
    assert ibuf[..|a.payload|] == a.payload;
    var pkt := new Packet(true, false, a.dest, headerLen, obuf, ibuf, |a.payload|, a.seqNo, a.ackNo);
    wires := nat64.Translate(pkt, flow, a.ops, parser, extra);
  }

  /** The operations are inside the packet, and the loop handles their layout. */
  predicate Fitting(c: Conn, a: Arrival) {
    Untouched(c, a) ||
    var off, n := OffsetOf(c, a), |a.payload|;
    Fits(Sort(a.ops), off, off + n) && Sweepable(Sort(a.ops), off + n)
  }

  /** Then the text is the splice, and from the moved limit on what the parser makes of it. */
  lemma TextIsSplice(c: Conn, a: Arrival)
    requires Acceptable(c, a) && Fitting(c, a) && !Untouched(c, a)
    ensures var ops, off := Sort(a.ops), OffsetOf(c, a);
      Same(Text(c, a), WithTail(Splice(a.payload, ops, off), Boundary(ops, off, a.limit.maxPos, a.limit.maxLen), a.limit.http))
  {
    WrittenIsSplice(a.payload + a.stale, |a.payload|, Sort(a.ops), OffsetOf(c, a));
    StartOfBuffer(a.payload, a.stale, |a.payload|);
    assert (a.payload + a.stale)[..|a.payload|] == a.payload;
  }

  // ----- runs

  predicate AllAcceptable(c: Conn, mode: Extra, run: seq<Arrival>)
    decreases |run|
  {
    run == [] || (Acceptable(c, run[0]) && AllAcceptable(Step(c, mode, run[0]).conn, mode, run[1..]))
  }

  function Final(c: Conn, mode: Extra, run: seq<Arrival>): Conn
    requires AllAcceptable(c, mode, run)
    decreases |run|
  {
    if run == [] then c else Final(Step(c, mode, run[0]).conn, mode, run[1..])
  }

  /** The segments sent in one direction, in the order in which they are sent. */
  function Wires(c: Conn, mode: Extra, run: seq<Arrival>, dest: Dest): seq<Wire>
    requires AllAcceptable(c, mode, run)
    decreases |run|
  {
    if run == [] then []
    else
      var s := Step(c, mode, run[0]);
      var rest := Wires(s.conn, mode, run[1..], dest);
      if run[0].dest == dest then s.wires + rest else rest
  }

  /** The rewritten payloads of one direction, one after the other. */
  function Stream(c: Conn, mode: Extra, run: seq<Arrival>, dest: Dest): string
    requires AllAcceptable(c, mode, run)
    decreases |run|
  {
    if run == [] then ""
    else
      var rest := Stream(Step(c, mode, run[0]).conn, mode, run[1..], dest);
      if run[0].dest == dest then Text(c, run[0]) + rest else rest
  }

  /**
    In one direction the segments follow each other from next on, without gap or repetition. The
    sender's position next is not reduced modulo 2^32; the sequence number is its remainder.
   */
  predicate InOrder(run: seq<Arrival>, dest: Dest, next: int) {
    run == [] ||
    if run[0].dest == dest then run[0].seqNo == Wrap(next) && InOrder(run[1..], dest, next + |run[0].payload|)
    else InOrder(run[1..], dest, next)
  }

  /** The payloads of one direction as they arrive. */
  function Payloads(run: seq<Arrival>, dest: Dest): string {
    if run == [] then ""
    else if run[0].dest == dest then run[0].payload + Payloads(run[1..], dest)
    else Payloads(run[1..], dest)
  }

  /** The sender's position after the run. */
  function NextAfter(run: seq<Arrival>, dest: Dest, next: int): int {
    if run == [] then next
    else NextAfter(run[1..], dest, if run[0].dest == dest then next + |run[0].payload| else next)
  }

  /** The sender's position behind a segment. */
  function Behind(a: Arrival, dest: Dest, next: int): int {
    if a.dest == dest then next + |a.payload| else next
  }

  predicate Cut(c: Conn, a: Arrival)
    requires Acceptable(c, a)
  {
    !Untouched(c, a) && CutOff(true, |a.payload|, |Text(c, a)|)
  }

  /** No packet of the direction is cut, or what is cut off is sent in a segment of its own. */
  predicate Kept(c: Conn, mode: Extra, run: seq<Arrival>, dest: Dest)
    requires AllAcceptable(c, mode, run)
    decreases |run|
  {
    run == [] || (
      && (run[0].dest == dest && Cut(c, run[0]) ==> mode == TcpExtra && dest == Client)
      && Kept(Step(c, mode, run[0]).conn, mode, run[1..], dest))
  }

  // ----- the receiver's view

  function Data(ws: seq<Wire>): string {
    if ws == [] then "" else ws[0].data + Data(ws[1..])
  }

  predicate Contiguous(ws: seq<Wire>, next: int) {
    ws == [] || (ws[0].seqNo == Wrap(next) && Contiguous(ws[1..], next + |ws[0].data|))
  }

  /** Put in sequence order the segments have no gap and no overlap, and carry the stream. */
  ghost predicate Reassembles(ws: seq<Wire>, base: int, stream: string) {
    exists arranged: seq<Wire> ::
      multiset(arranged) == multiset(ws) && Contiguous(arranged, base) && Data(arranged) == stream
  }

  function Arrange(ws: seq<Wire>): seq<Wire> {
    if |ws| == 2 then [ws[1], ws[0]] else ws
  }

  /** Outside SHIFT mode, in which cut bytes go on in later segments: nothing waits to be sent to the client. */
  predicate TrailSent(c: Conn, mode: Extra) {
    mode != ShiftExtra && (mode == TcpExtra ==> c.trail.client == "")
  }

  // ----- one step

  /** The packet of Forward with these arguments is cut. */
  predicate CutWith(c: Conn, payload: string, edited: bool, text: string) {
    !c.ignored && payload != "" && edited && CutOff(true, |payload|, |text|)
  }

  /** One packet: what is sent, and what becomes of the connection. */
  lemma ForwardStep(c: Conn, mode: Extra, dest: Dest, seqNo: uint32, ackNo: uint32, payload: string, edited: bool,
                 text: string)
    requires TrailSent(c, mode) && (c.ignored || payload == "" || !edited ==> text == payload)
    ensures var r, s, a := Forward(c, mode, dest, seqNo, ackNo, payload, edited, text),
                           HeaderSeq(c, dest, seqNo), HeaderAck(c, dest, ackNo);
      && TrailSent(r.conn, mode) && r.conn.ignored == c.ignored
      && r.conn.Offset(Other(dest)) == c.Offset(Other(dest))
      && if !CutWith(c, payload, edited, text) then
           && r.wires == [Wire(s, a, text)]
           && r.conn.Offset(dest) == c.Offset(dest) + |text| - |payload|
         else if mode == TcpExtra && dest == Client then
           && r.wires == [Wire(Wrap(s + |payload|), a, text[|payload|..]), Wire(s, a, text[..|payload|])]
           && r.conn.Offset(dest) == c.Offset(dest) + |text| - |payload|
         else
           && r.wires == [Wire(s, a, text[..|payload|])]
           && r.conn.Offset(dest) == c.Offset(dest)
  {
  }

  lemma StepKeepsTrailSent(c: Conn, mode: Extra, a: Arrival)
    requires Acceptable(c, a) && TrailSent(c, mode)
    ensures TrailSent(Step(c, mode, a).conn, mode)
    ensures Step(c, mode, a).conn.Offset(Other(a.dest)) == c.Offset(Other(a.dest))
    ensures Step(c, mode, a).conn.ignored == c.ignored
  {
    ForwardStep(c, mode, a.dest, a.seqNo, a.ackNo, a.payload, a.ops != [], Text(c, a));
  }

  /** A step that keeps its text moves the offset of its direction by the growth of the text. */
  lemma StepOffset(c: Conn, mode: Extra, a: Arrival)
    requires Acceptable(c, a) && TrailSent(c, mode)
    requires Cut(c, a) ==> mode == TcpExtra && a.dest == Client
    ensures Step(c, mode, a).conn.Offset(a.dest) == c.Offset(a.dest) + |Text(c, a)| - |a.payload|
  {
    ForwardStep(c, mode, a.dest, a.seqNo, a.ackNo, a.payload, a.ops != [], Text(c, a));
  }

  /** The segments a step sends, in sequence order: one with the whole text, or two with its parts. */
  lemma StepWires(c: Conn, mode: Extra, a: Arrival, next: int)
    requires Acceptable(c, a) && TrailSent(c, mode) && a.seqNo == Wrap(next)
    requires Cut(c, a) ==> mode == TcpExtra && a.dest == Client
    ensures var ws := Arrange(Step(c, mode, a).wires);
      Contiguous(ws, next + c.Offset(a.dest)) && Same(Data(ws), Text(c, a))
  {
    ForwardWires(c, mode, a.dest, a.seqNo, a.ackNo, a.payload, a.ops != [], Text(c, a), next);
  }

  lemma ForwardWires(c: Conn, mode: Extra, dest: Dest, seqNo: uint32, ackNo: uint32, payload: string, edited: bool,
                     text: string, next: int)
    requires TrailSent(c, mode) && (c.ignored || payload == "" || !edited ==> text == payload) && seqNo == Wrap(next)
    requires CutWith(c, payload, edited, text) ==> mode == TcpExtra && dest == Client
    ensures var ws := Arrange(Forward(c, mode, dest, seqNo, ackNo, payload, edited, text).wires);
      Contiguous(ws, next + c.Offset(dest)) && Same(Data(ws), text)
  {
    ForwardStep(c, mode, dest, seqNo, ackNo, payload, edited, text);
    var s, a, at, n := HeaderSeq(c, dest, seqNo), HeaderAck(c, dest, ackNo), next + c.Offset(dest), |payload|;
    WrapAdd(next, c.Offset(dest));
    if CutWith(c, payload, edited, text) {
      WrapAdd(at, n);
      TwoWires(Wire(Wrap(s + n), a, text[n..]), Wire(s, a, text[..n]), at, text, n);
    } else {
      OneWire(Wire(s, a, text), at);
    }
  }

  lemma OneWire(w: Wire, at: int)
    requires w.seqNo == Wrap(at)
    ensures Contiguous([w], at) && Same(Data([w]), w.data)
  {
    assert w.data + "" == w.data;
  }

  lemma TwoWires(trail: Wire, head: Wire, at: int, text: string, n: nat)
    requires n <= |text| && head.data == text[..n] && trail.data == text[n..]
    requires head.seqNo == Wrap(at) && trail.seqNo == Wrap(at + n)
    ensures Contiguous([head, trail], at) && Same(Data([head, trail]), text)
  {
    assert [head, trail][1..] == [trail];
    OneWire(trail, at + n);
    assert text[..n] + text[n..] == text;
  }

  /** A packet that is cut without its trail being sent loses bytes; no other does. */
  lemma StepLoss(c: Conn, mode: Extra, a: Arrival)
    requires Acceptable(c, a) && TrailSent(c, mode)
    ensures |Data(Step(c, mode, a).wires)| <= |Text(c, a)|
    ensures |Data(Step(c, mode, a).wires)| == |Text(c, a)| <==> (Cut(c, a) ==> mode == TcpExtra && a.dest == Client)
  {
    ForwardStep(c, mode, a.dest, a.seqNo, a.ackNo, a.payload, a.ops != [], Text(c, a));
    DataLength(Step(c, mode, a).wires);
  }

  lemma {:induction false} DataLength(ws: seq<Wire>)
    ensures |ws| == 1 ==> |Data(ws)| == |ws[0].data|
    ensures |ws| == 2 ==> |Data(ws)| == |ws[0].data| + |ws[1].data|
    decreases |ws|
  {
    if |ws| == 1 {
      assert ws[1..] == [];
    } else if |ws| == 2 {
      assert ws[1..] == [ws[1]];
      DataLength([ws[1]]);
    }
  }

  // ----- whole runs

  lemma {:induction false} ContiguousAppend(a: seq<Wire>, b: seq<Wire>, next: int)
    requires Contiguous(a, next) && Contiguous(b, next + |Data(a)|)
    ensures Contiguous(a + b, next)
  {
    if a == [] {
      assert a + b == b;
    } else {
      assert (a + b)[1..] == a[1..] + b;
      ContiguousAppend(a[1..], b, next + |a[0].data|);
    }
  }

  lemma {:induction false} DataAppend(a: seq<Wire>, b: seq<Wire>)
    ensures Same(Data(a + b), Data(a) + Data(b))
  {
    if a == [] {
      assert a + b == b;
      assert "" + Data(b) == Data(b);
    } else {
      assert (a + b)[1..] == a[1..] + b;
      DataAppend(a[1..], b);
      Associates(a[0].data, Data(a[1..]), Data(b));
    }
  }

  /** The segments of a direction in sequence order. */
  function Arranged(c: Conn, mode: Extra, run: seq<Arrival>, dest: Dest): seq<Wire>
    requires AllAcceptable(c, mode, run)
    decreases |run|
  {
    if run == [] then []
    else
      var s := Step(c, mode, run[0]);
      var rest := Arranged(s.conn, mode, run[1..], dest);
      if run[0].dest == dest then Arrange(s.wires) + rest else rest
  }

  lemma StepIsContiguous(c: Conn, mode: Extra, a: Arrival, next: int, base: int)
    requires Acceptable(c, a) && TrailSent(c, mode) && a.seqNo == Wrap(next) && base == next + c.Offset(a.dest)
    requires Cut(c, a) ==> mode == TcpExtra && a.dest == Client
    ensures var s := Step(c, mode, a);
      && Contiguous(Arrange(s.wires), base) && |Data(Arrange(s.wires))| == |Text(c, a)|
      && base + |Text(c, a)| == next + |a.payload| + s.conn.Offset(a.dest)
  {
    StepWires(c, mode, a, next);
    StepOffset(c, mode, a);
  }

  /** One step of a run: what it sends in the direction, in sequence order, and where the next one goes on. */
  lemma {:induction false} NextArranged(c: Conn, mode: Extra, run: seq<Arrival>, dest: Dest, next: int, base: int)
    returns (c': Conn, ws: seq<Wire>, at: int, base': int)
    requires AllAcceptable(c, mode, run) && InOrder(run, dest, next) && Kept(c, mode, run, dest) && TrailSent(c, mode)
    requires run != [] && base == next + c.Offset(dest)
    ensures AllAcceptable(c', mode, run[1..]) && InOrder(run[1..], dest, at) && Kept(c', mode, run[1..], dest)
    ensures TrailSent(c', mode) && base' == at + c'.Offset(dest) && Contiguous(ws, base) && base' == base + |Data(ws)|
    ensures Same(Arranged(c, mode, run, dest), ws + Arranged(c', mode, run[1..], dest))
  {
    c', at := Step(c, mode, run[0]).conn, Behind(run[0], dest, next);
    base' := at + c'.Offset(dest);
    StepKeepsTrailSent(c, mode, run[0]);
    if run[0].dest == dest {
      StepIsContiguous(c, mode, run[0], next, base);
      ws := Arrange(Step(c, mode, run[0]).wires);
    } else {
      ws := [];
      assert ws + Arranged(c', mode, run[1..], dest) == Arranged(c', mode, run[1..], dest);
    }
  }

  lemma {:induction false} ArrangedIsContiguous(c: Conn, mode: Extra, run: seq<Arrival>, dest: Dest, next: int,
                 base: int)
    requires AllAcceptable(c, mode, run) && InOrder(run, dest, next) && Kept(c, mode, run, dest) && TrailSent(c, mode)
    requires base == next + c.Offset(dest)
    ensures Contiguous(Arranged(c, mode, run, dest), base)
    decreases |run|
  {
    if run != [] {
      var c', ws, at, base' := NextArranged(c, mode, run, dest, next, base);
      ArrangedIsContiguous(c', mode, run[1..], dest, at, base');
      ContiguousAppend(ws, Arranged(c', mode, run[1..], dest), base);
    }
  }

  lemma {:induction false} ArrangedCarriesTheStream(c: Conn, mode: Extra, run: seq<Arrival>, dest: Dest, next: int)
    requires AllAcceptable(c, mode, run) && InOrder(run, dest, next) && Kept(c, mode, run, dest) && TrailSent(c, mode)
    ensures Same(Data(Arranged(c, mode, run, dest)), Stream(c, mode, run, dest))
    decreases |run|
  {
    if run != [] {
      var a, c' := run[0], Step(c, mode, run[0]).conn;
      StepKeepsTrailSent(c, mode, a);
      var rest := Arranged(c', mode, run[1..], dest);
      if a.dest == dest {
        StepWires(c, mode, a, next);
        ArrangedCarriesTheStream(c', mode, run[1..], dest, next + |a.payload|);
        DataAppend(Arrange(Step(c, mode, a).wires), rest);
      } else {
        ArrangedCarriesTheStream(c', mode, run[1..], dest, next);
      }
    }
  }

  lemma ArrangePermutes(ws: seq<Wire>)
    ensures multiset(Arrange(ws)) == multiset(ws)
  {
    if |ws| == 2 {
      assert ws == [ws[0], ws[1]];
    }
  }

  lemma {:induction false} ArrangedIsAPermutation(c: Conn, mode: Extra, run: seq<Arrival>, dest: Dest)
    requires AllAcceptable(c, mode, run)
    ensures multiset(Arranged(c, mode, run, dest)) == multiset(Wires(c, mode, run, dest))
    decreases |run|
  {
    if run != [] {
      ArrangePermutes(Step(c, mode, run[0]).wires);
      ArrangedIsAPermutation(Step(c, mode, run[0]).conn, mode, run[1..], dest);
    }
  }

  /** The gateway's own position stays at the sender's plus the offset. */
  lemma {:induction false} OffsetTracksGrowth(c: Conn, mode: Extra, run: seq<Arrival>, dest: Dest, next: int)
    requires AllAcceptable(c, mode, run) && Kept(c, mode, run, dest) && TrailSent(c, mode)
    ensures NextAfter(run, dest, next) + Final(c, mode, run).Offset(dest)
         == next + c.Offset(dest) + |Stream(c, mode, run, dest)|
    decreases |run|
  {
    if run != [] {
      var a, c' := run[0], Step(c, mode, run[0]).conn;
      StepKeepsTrailSent(c, mode, a);
      if a.dest == dest {
        StepOffset(c, mode, a);
        OffsetTracksGrowth(c', mode, run[1..], dest, next + |a.payload|);
      } else {
        OffsetTracksGrowth(c', mode, run[1..], dest, next);
      }
    }
  }

  /**
    Stream preservation: what is sent in a direction, reassembled by sequence number, is exactly the
    rewritten payloads one after the other, and the next byte continues where the offset says.
   */
  lemma StreamPreserved(c: Conn, mode: Extra, run: seq<Arrival>, dest: Dest, next: int, base: int)
    requires AllAcceptable(c, mode, run) && InOrder(run, dest, next) && Kept(c, mode, run, dest) && TrailSent(c, mode)
    requires base == next + c.Offset(dest)
    ensures Reassembles(Wires(c, mode, run, dest), base, Stream(c, mode, run, dest))
    ensures base + |Stream(c, mode, run, dest)| == NextAfter(run, dest, next) + Final(c, mode, run).Offset(dest)
  {
    WiresReassemble(c, mode, run, dest, next, base);
    OffsetTracksGrowth(c, mode, run, dest, next);
  }

  lemma WiresReassemble(c: Conn, mode: Extra, run: seq<Arrival>, dest: Dest, next: int, base: int)
    requires AllAcceptable(c, mode, run) && InOrder(run, dest, next) && Kept(c, mode, run, dest) && TrailSent(c, mode)
    requires base == next + c.Offset(dest)
    ensures Reassembles(Wires(c, mode, run, dest), base, Stream(c, mode, run, dest))
  {
    ArrangedIsContiguous(c, mode, run, dest, next, base);
    ArrangedCarriesTheStream(c, mode, run, dest, next);
    ArrangedIsAPermutation(c, mode, run, dest);
  }

  /** In TCP mode nothing sent to the client is ever lost, whatever the edits. */
  lemma {:induction false} TcpModeKeepsClientStream(c: Conn, run: seq<Arrival>)
    requires AllAcceptable(c, TcpExtra, run)
    ensures Kept(c, TcpExtra, run, Client)
    decreases |run|
  {
    if run != [] {
      TcpModeKeepsClientStream(Step(c, TcpExtra, run[0]).conn, run[1..]);
    }
  }

  /** Outside SHIFT mode bytes are lost in a direction exactly when a packet is cut and its trail is not sent. */
  lemma {:induction false} BytesKeptExactly(c: Conn, mode: Extra, run: seq<Arrival>, dest: Dest)
    requires AllAcceptable(c, mode, run) && TrailSent(c, mode)
    ensures |Data(Wires(c, mode, run, dest))| <= |Stream(c, mode, run, dest)|
    ensures |Data(Wires(c, mode, run, dest))| == |Stream(c, mode, run, dest)| <==> Kept(c, mode, run, dest)
    decreases |run|
  {
    if run != [] {
      var s := Step(c, mode, run[0]);
      StepKeepsTrailSent(c, mode, run[0]);
      BytesKeptExactly(s.conn, mode, run[1..], dest);
      if run[0].dest == dest {
        StepLoss(c, mode, run[0]);
        DataAppend(s.wires, Wires(s.conn, mode, run[1..], dest));
      }
    }
  }

  // ----- acknowledgements

  /** An acknowledgement of everything sent in a direction reaches the sender as its own next sequence number. */
  lemma AckOfEverythingIsExact(c: Conn, mode: Extra, run: seq<Arrival>, dest: Dest, next: int)
    requires AllAcceptable(c, mode, run) && Kept(c, mode, run, dest) && TrailSent(c, mode)
    ensures var seen := Wrap(next + c.Offset(dest) + |Stream(c, mode, run, dest)|);
      HeaderAck(Final(c, mode, run), Other(dest), seen) == Wrap(NextAfter(run, dest, next))
  {
    OffsetTracksGrowth(c, mode, run, dest, next);
    WrapAdd(next + c.Offset(dest) + |Stream(c, mode, run, dest)|, -Final(c, mode, run).Offset(dest));
    assert Other(Other(dest)) == dest;
  }

  lemma {:induction false} RunSplits(c: Conn, mode: Extra, r1: seq<Arrival>, r2: seq<Arrival>, dest: Dest)
    requires AllAcceptable(c, mode, r1 + r2) && Kept(c, mode, r1 + r2, dest) && TrailSent(c, mode)
    ensures AllAcceptable(c, mode, r1) && Kept(c, mode, r1, dest)
    ensures var c1 := Final(c, mode, r1);
      && TrailSent(c1, mode) && AllAcceptable(c1, mode, r2) && Kept(c1, mode, r2, dest)
      && Final(c, mode, r1 + r2) == Final(c1, mode, r2)
    decreases |r1|
  {
    if r1 == [] {
      assert r1 + r2 == r2;
    } else {
      assert (r1 + r2)[0] == r1[0] && (r1 + r2)[1..] == r1[1..] + r2;
      StepKeepsTrailSent(c, mode, r1[0]);
      RunSplits(Step(c, mode, r1[0]).conn, mode, r1[1..], r2, dest);
    }
  }

  lemma {:induction false} NextIsPayloads(run: seq<Arrival>, dest: Dest, next: int)
    ensures NextAfter(run, dest, next) == next + |Payloads(run, dest)|
    decreases |run|
  {
    if run != [] {
      NextIsPayloads(run[1..], dest, if run[0].dest == dest then next + |run[0].payload| else next);
    }
  }

  /**
    A delayed acknowledgement: after r1, with the connection c1, the receiver has seen everything up to
    a point; its acknowledgement of that point, translated only after r2, reaches the sender as the
    sender's own number of the point if and only if the edits of r2 have not changed the length,
    modulo 2^32. (RunSplits: c2 is the connection after r1 + r2.)
   */
  lemma AckOfEarlierPoint(c: Conn, mode: Extra, r1: seq<Arrival>, c1: Conn, r2: seq<Arrival>, c2: Conn, dest: Dest, next: int)
    requires AllAcceptable(c, mode, r1) && Kept(c, mode, r1, dest) && TrailSent(c, mode) && c1 == Final(c, mode, r1)
    requires AllAcceptable(c1, mode, r2) && Kept(c1, mode, r2, dest) && TrailSent(c1, mode) && c2 == Final(c1, mode, r2)
    ensures var seen, growth := Wrap(next + c.Offset(dest) + |Stream(c, mode, r1, dest)|),
                                |Stream(c1, mode, r2, dest)| - |Payloads(r2, dest)|;
      HeaderAck(c2, Other(dest), seen) == Wrap(NextAfter(r1, dest, next)) <==> Wrap(growth) == 0
  {
    GrowthAfter(c, mode, r1, r2, dest, next);
    AckAfterGrowth(c2, dest, NextAfter(r1, dest, next), c1.Offset(dest),
                   |Stream(c1, mode, r2, dest)| - |Payloads(r2, dest)|);
  }

  lemma GrowthAfter(c: Conn, mode: Extra, r1: seq<Arrival>, r2: seq<Arrival>, dest: Dest, next: int)
    requires AllAcceptable(c, mode, r1) && Kept(c, mode, r1, dest) && TrailSent(c, mode)
    requires var c1 := Final(c, mode, r1); AllAcceptable(c1, mode, r2) && Kept(c1, mode, r2, dest) && TrailSent(c1, mode)
    ensures var c1 := Final(c, mode, r1);
      && NextAfter(r1, dest, next) + c1.Offset(dest) == next + c.Offset(dest) + |Stream(c, mode, r1, dest)|
      && Final(c1, mode, r2).Offset(dest) == c1.Offset(dest) + |Stream(c1, mode, r2, dest)| - |Payloads(r2, dest)|
  {
    OffsetTracksGrowth(c, mode, r1, dest, next);
    OffsetTracksGrowth(Final(c, mode, r1), mode, r2, dest, 0);
    NextIsPayloads(r2, dest, 0);
  }

  lemma AckAfterGrowth(now: Conn, dest: Dest, at: int, offset: int, growth: int)
    requires now.Offset(dest) == offset + growth
    ensures HeaderAck(now, Other(dest), Wrap(at + offset)) == Wrap(at) <==> Wrap(growth) == 0
  {
    assert Other(Other(dest)) == dest;
    AckDistance(at, offset, growth);
  }

  lemma AckDistance(at: int, offset: int, growth: int)
    ensures Wrap(Wrap(at + offset) - (offset + growth)) == Wrap(at) <==> Wrap(growth) == 0
  {
    WrapAdd(at + offset, -(offset + growth));
    assert at + offset + -(offset + growth) == at + -growth;
    EqualWraps(at, -growth);
    OppositeWraps(growth);
  }

  const Fresh := Conn(0, 0, false, PerDest(None, None), PerDest("", ""), map[])

  /** The acknowledgement of a first segment, delayed until a second one has grown by a byte, is one too low. */
  lemma DelayedAckIsWrong(a: Arrival, b: Arrival)
    requires a == Arrival(Client, 1000, 0, "ab", "", 0, [], NoLimit)
    requires b == Arrival(Client, 1002, 0, "cd", "", 0, [Operation(0, 0, "X", false)], NoLimit)
    ensures AllAcceptable(Fresh, TcpExtra, [a]) && AllAcceptable(Fresh, TcpExtra, [a, b])
    ensures HeaderAck(Final(Fresh, TcpExtra, [a]), Server, 1002) == 1002
    ensures HeaderAck(Final(Fresh, TcpExtra, [a, b]), Server, 1002) == 1001
  {
    InsertOne(b, "cd");
    InsertOneStep(b, "cd");
    OneStep(Fresh, b);
    UneditedFirst(Fresh, a, b);
    OneStep(Fresh, a);
    var before, after := Final(Fresh, TcpExtra, [a]), Final(Fresh, TcpExtra, [a, b]);
    assert before == Fresh && after == Conn(0, 1, false, PerDest(Some(1002), None), PerDest("", ""), map[]);
  }

  lemma OneStep(c: Conn, a: Arrival)
    requires Acceptable(c, a)
    ensures AllAcceptable(c, TcpExtra, [a]) && Final(c, TcpExtra, [a]) == Step(c, TcpExtra, a).conn
  {
    assert [a][1..] == [];
  }

  lemma UneditedFirst(c: Conn, a: Arrival, b: Arrival)
    requires a.ops == [] && c.trail == PerDest("", "") && AllAcceptable(c, TcpExtra, [b])
    ensures Acceptable(c, a) && Step(c, TcpExtra, a).conn == c
    ensures AllAcceptable(c, TcpExtra, [a, b]) && Final(c, TcpExtra, [a, b]) == Final(c, TcpExtra, [b])
  {
    assert [a, b][1..] == [b];
    assert Step(c, TcpExtra, a).conn == c;
  }

  /** A first segment that grows by one byte at its start. */
  lemma InsertOne(a: Arrival, payload: string)
    requires a.dest == Client && a.payload == payload && |payload| > 0 && a.stale == ""
    requires a.ops == [Operation(0, 0, "X", false)] && a.limit == NoLimit
    ensures Acceptable(Fresh, a) && Same(Text(Fresh, a), "X" + payload)
  {
    var ops := a.ops;
    InsertOneFits(ops, |payload|);
    assert payload + "" == payload;
    WiderBounds(|payload|, |payload + ""|, Begin(ops), 0, |payload| + 1);
    TextIsSplice(Fresh, a);
    InsertOneText(payload, ops);
  }

  lemma InsertOneFits(ops: seq<Operation>, n: nat)
    requires ops == [Operation(0, 0, "X", false)]
    ensures Sort(ops) == ops && TotalDelta(ops) == 1 && Fits(ops, 0, n) && Runs(n, n, ops, 0) && Sweepable(ops, n)
  {
    assert ops[1..] == [];
    SortOfSorted(ops);
    SeparatedRun(n, ops, 0);
    SeparatedIsSweepable(ops, n);
  }

  lemma InsertOneText(payload: string, ops: seq<Operation>)
    requires ops == [Operation(0, 0, "X", false)]
    ensures Fits(ops, 0, |payload|) && Same(Splice(payload, ops, 0), "X" + payload)
  {
    assert ops[1..] == [];
    assert ReplaceOne(payload, 0, 0, "X") == "X" + payload;
  }

  lemma InsertOneStep(a: Arrival, payload: string)
    requires a.dest == Client && a.payload == payload && 0 < |payload| <= MSS && a.ops != []
    requires Acceptable(Fresh, a) && Same(Text(Fresh, a), "X" + payload)
    ensures Step(Fresh, TcpExtra, a).conn == Conn(0, 1, false, PerDest(Some(a.seqNo), None), PerDest("", ""), map[])
  {
  }

  /** A full segment that grows by a byte: outside TCP mode and SHIFT mode the byte is not sent. */
  lemma CutBytesAreLost(mode: Extra, payload: string)
    requires |payload| == MSS + 1 && (mode == NoExtra || mode == IpExtra)
    ensures var a := Arrival(Client, 1000, 0, payload, "", 0, [Operation(0, 0, "X", false)], NoLimit);
      && AllAcceptable(Fresh, mode, [a]) && |Stream(Fresh, mode, [a], Client)| == MSS + 2
      && |Data(Wires(Fresh, mode, [a], Client))| == MSS + 1
  {
    var a := Arrival(Client, 1000, 0, payload, "", 0, [Operation(0, 0, "X", false)], NoLimit);
    assert [a][1..] == [];
    InsertOne(a, payload);
    StepLoss(Fresh, mode, a);
    ForwardStep(Fresh, mode, Client, 1000, 0, payload, true, Text(Fresh, a));
    DataLength(Step(Fresh, mode, a).wires);
  }
}
