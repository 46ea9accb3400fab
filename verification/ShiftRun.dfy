/**
  Whole runs of a TCP connection in SHIFT mode (nat.cc:258-260, flow.cc:190-194, flow.cc:206-218). What
  is cut off a packet is carried to the next segment, which takes it over and holds back as many bytes.
  The carried bytes of both directions are in one table, under the sequence number of the next segment.
 */
module ShiftRun {
  import opened Words
  import opened Operations
  import opened Splicing
  import opened ByteMachine
  import opened ByteLoop
  import opened FlowRewrite
  import opened TcpRepair
  import opened StreamRun

  predicate Edits(a: Arrival) {
    a.payload != "" && a.ops != []
  }

  /** The sender's number of the segment that follows. */
  function Following(a: Arrival): uint32 {
    Wrap(a.seqNo + |a.payload|)
  }

  // ----- one segment

  /** What is sent of an unedited packet, and what is held back in exchange for what is carried to it. */
  function PassedOn(carry: string, payload: string): string {
    (carry + payload)[..|payload|]
  }

  function HeldBack(carry: string, payload: string): string {
    (carry + payload)[|payload|..]
  }

  lemma DelayedStep(line: map<uint32, string>, seqNo: uint32, next: uint32, payload: string, carry: string)
    requires carry == Carry(line, seqNo) && next != seqNo && Carry(line, next) == ""
    ensures var d := ShiftStep(line, seqNo, next, payload);
      Same(d.out, PassedOn(carry, payload)) && Same(Carry(d.line, next), HeldBack(carry, payload))
  {
    if carry == "" {
      assert PassedOn(carry, payload) == payload && HeldBack(carry, payload) == "";
    }
  }

  /** The text goes out in one segment, cut if need be; what is cut off is carried instead of what was held back. */
  lemma ForwardShifted(c: Conn, dest: Dest, seqNo: uint32, ackNo: uint32, payload: string, edited: bool, text: string,
                       next: uint32, d: Delayed)
    requires !c.ignored && payload != "" && next == Wrap(seqNo + |payload|) && d == ShiftStep(c.line, seqNo, next, payload)
    ensures var r, s, ack := Forward(c, ShiftExtra, dest, seqNo, ackNo, payload, edited, text),
                             HeaderSeq(c, dest, seqNo), HeaderAck(c, dest, ackNo);
      && !r.conn.ignored && r.conn.Offset(Other(dest)) == c.Offset(Other(dest))
      && if !edited then
           r.wires == [Wire(s, ack, d.out)] && r.conn.line == d.line && r.conn.Offset(dest) == c.Offset(dest)
         else if CutOff(true, |payload|, |text|) then
           && r.wires == [Wire(s, ack, text[..|payload|])] && r.conn.line == d.line[next := text[|payload|..]]
           && r.conn.Offset(dest) == c.Offset(dest)
         else
           && r.wires == [Wire(s, ack, text)] && r.conn.line == d.line
           && r.conn.Offset(dest) == c.Offset(dest) + |text| - |payload|
  {
  }

  /** What a packet sends, what is carried on behind it, and how far it moves the offset. */
  datatype Passage = Passage(out: string, carried: string, growth: int)

  function PassageOf(c: Conn, a: Arrival): Passage
    requires Acceptable(c, a)
  {
    var carry, text, n := Carry(c.line, a.seqNo), Text(c, a), |a.payload|;
    if a.ops == [] then Passage(PassedOn(carry, a.payload), HeldBack(carry, a.payload), 0)
    else if CutOff(true, n, |text|) then Passage(text[..n], text[n..], 0)
    else Passage(text, HeldBack(carry, a.payload), |text| - n)
  }

  lemma ShiftedStep(c: Conn, a: Arrival)
    requires Acceptable(c, a) && !c.ignored && a.payload != ""
    requires Carry(c.line, Following(a)) == "" && Following(a) != a.seqNo
    ensures var r, p := Step(c, ShiftExtra, a), PassageOf(c, a);
      && r.wires == [Wire(HeaderSeq(c, a.dest, a.seqNo), HeaderAck(c, a.dest, a.ackNo), p.out)]
      && Carry(r.conn.line, Following(a)) == p.carried
      && r.conn.Offset(a.dest) == c.Offset(a.dest) + p.growth
      && !r.conn.ignored && r.conn.Offset(Other(a.dest)) == c.Offset(Other(a.dest))
  {
    DelayedStep(c.line, a.seqNo, Following(a), a.payload, Carry(c.line, a.seqNo));
    ForwardShifted(c, a.dest, a.seqNo, a.ackNo, a.payload, a.ops != [], Text(c, a), Following(a),
                   ShiftStep(c.line, a.seqNo, Following(a), a.payload));
  }

  /** A packet without payload changes nothing. */
  lemma EmptyStep(c: Conn, a: Arrival)
    requires Acceptable(c, a) && a.payload == ""
    ensures Step(c, ShiftExtra, a) == Sending(c, [Wire(HeaderSeq(c, a.dest, a.seqNo), HeaderAck(c, a.dest, a.ackNo), "")])
  {
  }

  // ----- runs

  /** What is carried to the number. */
  function CarryTo(c: Conn, next: int): string {
    Carry(c.line, Wrap(next))
  }

  /**
    The segments of the direction are in order, nothing is carried to a number before its time, and the
    other direction does not change what is carried to the next segment.
   */
  predicate Undisturbed(c: Conn, run: seq<Arrival>, dest: Dest, next: int)
    requires AllAcceptable(c, ShiftExtra, run)
    decreases |run|
  {
    run == [] ||
    var a, c' := run[0], Step(c, ShiftExtra, run[0]).conn;
    && (if a.dest == dest then FindsItsOwn(c, a, next) else CarryTo(c', next) == CarryTo(c, next))
    && Undisturbed(c', run[1..], dest, Behind(a, dest, next))
  }

  predicate FindsItsOwn(c: Conn, a: Arrival, next: int) {
    && a.seqNo == Wrap(next)
    && (a.payload != "" ==> Following(a) != a.seqNo && Carry(c.line, Following(a)) == "")
  }

  /** The segments of each step start where those of the one before ended. */
  predicate InPlace(c: Conn, mode: Extra, run: seq<Arrival>, dest: Dest, base: int)
    requires AllAcceptable(c, mode, run)
    decreases |run|
  {
    run == [] ||
    var s := Step(c, mode, run[0]);
    if run[0].dest == dest then
      Contiguous(s.wires, base) && InPlace(s.conn, mode, run[1..], dest, base + |Data(s.wires)|)
    else InPlace(s.conn, mode, run[1..], dest, base)
  }

  /** What the first segment of a run sends in the direction. */
  function WiresOf(c: Conn, mode: Extra, a: Arrival, dest: Dest): seq<Wire>
    requires Acceptable(c, a)
  {
    if a.dest == dest then Step(c, mode, a).wires else []
  }

  lemma NextWires(c: Conn, mode: Extra, run: seq<Arrival>, dest: Dest) returns (c': Conn, ws: seq<Wire>)
    requires AllAcceptable(c, mode, run) && run != []
    ensures Same(c', Step(c, mode, run[0]).conn) && AllAcceptable(c', mode, run[1..])
    ensures Same(ws, WiresOf(c, mode, run[0], dest))
    ensures Same(Wires(c, mode, run, dest), ws + Wires(c', mode, run[1..], dest))
  {
    c' := Step(c, mode, run[0]).conn;
    ws := WiresOf(c, mode, run[0], dest);
    assert [] + Wires(c', mode, run[1..], dest) == Wires(c', mode, run[1..], dest);
  }

  lemma PlaceUnfolds(c: Conn, mode: Extra, run: seq<Arrival>, dest: Dest, base: int, c': Conn, ws: seq<Wire>, at: int)
    requires AllAcceptable(c, mode, run) && run != [] && Same(c', Step(c, mode, run[0]).conn)
    requires AllAcceptable(c', mode, run[1..]) && Same(ws, WiresOf(c, mode, run[0], dest)) && at == base + |Data(ws)|
    ensures InPlace(c, mode, run, dest, base) <==> Contiguous(ws, base) && InPlace(c', mode, run[1..], dest, at)
  {
  }

  lemma NextPlace(c: Conn, mode: Extra, run: seq<Arrival>, dest: Dest, base: int)
    returns (c': Conn, ws: seq<Wire>, at: int)
    requires AllAcceptable(c, mode, run) && InPlace(c, mode, run, dest, base) && run != []
    ensures AllAcceptable(c', mode, run[1..]) && InPlace(c', mode, run[1..], dest, at)
    ensures Contiguous(ws, base) && at == base + |Data(ws)|
    ensures Same(Wires(c, mode, run, dest), ws + Wires(c', mode, run[1..], dest))
  {
    c', ws := NextWires(c, mode, run, dest);
    at := base + |Data(ws)|;
    PlaceUnfolds(c, mode, run, dest, base, c', ws, at);
  }

  lemma {:induction false} InPlaceIsContiguous(c: Conn, mode: Extra, run: seq<Arrival>, dest: Dest, base: int)
    requires AllAcceptable(c, mode, run) && InPlace(c, mode, run, dest, base)
    ensures Contiguous(Wires(c, mode, run, dest), base)
    decreases |run|
  {
    if run != [] {
      var c', ws, at := NextPlace(c, mode, run, dest, base);
      InPlaceIsContiguous(c', mode, run[1..], dest, at);
      ContiguousAppend(ws, Wires(c', mode, run[1..], dest), base);
    }
  }

  /** The text of a segment, as far as it is one of the direction. */
  function TextOf(c: Conn, a: Arrival, dest: Dest): string
    requires Acceptable(c, a)
  {
    if a.dest == dest then Text(c, a) else ""
  }

  /** Each packet sends, and carries on, what was carried to it and its text. */
  ghost predicate Conserved(c: Conn, mode: Extra, run: seq<Arrival>, dest: Dest, next: int)
    requires AllAcceptable(c, mode, run)
    decreases |run|
  {
    run == [] ||
    var c', at := Step(c, mode, run[0]).conn, Behind(run[0], dest, next);
    && ConservedBy(WiresOf(c, mode, run[0], dest), CarryTo(c', at), CarryTo(c, next), TextOf(c, run[0], dest))
    && Conserved(c', mode, run[1..], dest, at)
  }

  ghost predicate ConservedBy(ws: seq<Wire>, carried: string, carry: string, text: string) {
    Same(Data(ws) + carried, carry + text)
  }

  /** The bytes of a packet in front of the rest. */
  lemma ConservedInFront(carry: string, text: string, out: string, carried: string, data: string, end: string, texts: string)
    requires Same(out + carried, carry + text) && Same(data + end, carried + texts)
    ensures Same((out + data) + end, carry + (text + texts))
  {
    Associates(out, data, end);
    Associates(out, carried, texts);
    Associates(carry, text, texts);
  }

  lemma NextConserved(c: Conn, mode: Extra, run: seq<Arrival>, dest: Dest, next: int)
    returns (c': Conn, ws: seq<Wire>, at: int, carried: string, text: string)
    requires AllAcceptable(c, mode, run) && Conserved(c, mode, run, dest, next) && run != []
    ensures AllAcceptable(c', mode, run[1..]) && Conserved(c', mode, run[1..], dest, at) && carried == CarryTo(c', at)
    ensures ConservedBy(ws, carried, CarryTo(c, next), text)
    ensures Same(Wires(c, mode, run, dest), ws + Wires(c', mode, run[1..], dest))
    ensures Same(Stream(c, mode, run, dest), text + Stream(c', mode, run[1..], dest))
    ensures Final(c, mode, run) == Final(c', mode, run[1..]) && NextAfter(run, dest, next) == NextAfter(run[1..], dest, at)
  {
    c', ws := NextWires(c, mode, run, dest);
    at := Behind(run[0], dest, next);
    carried, text := CarryTo(c', at), TextOf(c, run[0], dest);
    EmptyIsNeutral(Stream(c', mode, run[1..], dest));
  }

  lemma {:induction false} ConservedStream(c: Conn, mode: Extra, run: seq<Arrival>, dest: Dest, next: int, end: string)
    requires AllAcceptable(c, mode, run) && Conserved(c, mode, run, dest, next)
    requires Same(end, CarryTo(Final(c, mode, run), NextAfter(run, dest, next)))
    ensures Same(Data(Wires(c, mode, run, dest)) + end, CarryTo(c, next) + Stream(c, mode, run, dest))
    decreases |run|
  {
    if run == [] {
      EmptyIsNeutral(end);
    } else {
      var c', ws, at, carried, text := NextConserved(c, mode, run, dest, next);
      var rest := Wires(c', mode, run[1..], dest);
      ConservedStream(c', mode, run[1..], dest, at, end);
      DataAppend(ws, rest);
      ConservedInFront(CarryTo(c, next), text, Data(ws), carried, Data(rest), end, Stream(c', mode, run[1..], dest));
    }
  }

  /** The other direction's offset is left alone, and the flow is not ignored from then on. */
  lemma StepLeaves(c: Conn, a: Arrival)
    requires Acceptable(c, a) && !c.ignored
    ensures var c' := Step(c, ShiftExtra, a).conn; !c'.ignored && c'.Offset(Other(a.dest)) == c.Offset(Other(a.dest))
  {
    if a.payload == "" {
      EmptyStep(c, a);
    } else {
      ForwardShifted(c, a.dest, a.seqNo, a.ackNo, a.payload, a.ops != [], Text(c, a), Following(a),
                     ShiftStep(c.line, a.seqNo, Following(a), a.payload));
    }
  }

  /** One segment, from the offset on, which moves by as much as the text grows. */
  lemma OwnWires(c: Conn, a: Arrival, next: int, base: int, n: nat)
    requires Acceptable(c, a) && !c.ignored && FindsItsOwn(c, a, next) && base == next + c.Offset(a.dest) && n == |a.payload|
    ensures var s := Step(c, ShiftExtra, a);
      Contiguous(s.wires, base) && base + |Data(s.wires)| == next + n + s.conn.Offset(a.dest)
  {
    WrapAdd(next, c.Offset(a.dest));
    var w := Wire(HeaderSeq(c, a.dest, a.seqNo), HeaderAck(c, a.dest, a.ackNo), if n == 0 then "" else PassageOf(c, a).out);
    OneWire(w, base);
    if n == 0 {
      EmptyStep(c, a);
    } else {
      ShiftedStep(c, a);
      PassageLength(c, a);
    }
  }

  lemma PassageLength(c: Conn, a: Arrival)
    requires Acceptable(c, a)
    ensures |PassageOf(c, a).out| == |a.payload| + PassageOf(c, a).growth
  {
  }

  /** The packet sends and carries on what was carried to it and its text. */
  ghost predicate Conserves(c: Conn, a: Arrival)
    requires Acceptable(c, a)
  {
    Same(PassageOf(c, a).out + PassageOf(c, a).carried, Carry(c.line, a.seqNo) + Text(c, a))
  }

  lemma OwnPassage(c: Conn, a: Arrival, next: int, n: nat)
    requires Acceptable(c, a) && !c.ignored && FindsItsOwn(c, a, next) && n == |a.payload| > 0
    ensures Same(Data(Step(c, ShiftExtra, a).wires), PassageOf(c, a).out)
    ensures Same(CarryTo(Step(c, ShiftExtra, a).conn, next + n), PassageOf(c, a).carried)
  {
    var w := Wire(HeaderSeq(c, a.dest, a.seqNo), HeaderAck(c, a.dest, a.ackNo), PassageOf(c, a).out);
    OneWire(w, w.seqNo);
    ShiftedStep(c, a);
    WrapAdd(next, n);
  }

  lemma EmptyPassage(c: Conn, a: Arrival)
    requires Acceptable(c, a) && a.payload == ""
    ensures Data(Step(c, ShiftExtra, a).wires) == "" && Step(c, ShiftExtra, a).conn == c && Text(c, a) == ""
  {
    EmptyStep(c, a);
  }

  lemma OwnConserves(c: Conn, a: Arrival, next: int, n: nat)
    requires Acceptable(c, a) && !c.ignored && FindsItsOwn(c, a, next) && n == |a.payload|
    requires n == 0 || Conserves(c, a)
    ensures ConservedBy(Step(c, ShiftExtra, a).wires, CarryTo(Step(c, ShiftExtra, a).conn, next + n), CarryTo(c, next), Text(c, a))
  {
    if n == 0 {
      EmptyPassage(c, a);
      EmptyIsNeutral(CarryTo(c, next));
    } else {
      OwnPassage(c, a, next, n);
    }
  }

  /** Behind its first segment a run is undisturbed, from where that one ends. */
  lemma NextStep(c: Conn, run: seq<Arrival>, dest: Dest, next: int) returns (c': Conn, at: int)
    requires AllAcceptable(c, ShiftExtra, run) && Undisturbed(c, run, dest, next) && !c.ignored && run != []
    ensures Same(c', Step(c, ShiftExtra, run[0]).conn) && AllAcceptable(c', ShiftExtra, run[1..]) && !c'.ignored
    ensures at == Behind(run[0], dest, next) && Undisturbed(c', run[1..], dest, at)
  {
    StepLeaves(c, run[0]);
    c' := Step(c, ShiftExtra, run[0]).conn;
    at := Behind(run[0], dest, next);
  }

  lemma {:induction false} ShiftedInPlace(c: Conn, run: seq<Arrival>, dest: Dest, next: int, base: int)
    requires AllAcceptable(c, ShiftExtra, run) && Undisturbed(c, run, dest, next) && !c.ignored && base == next + c.Offset(dest)
    ensures InPlace(c, ShiftExtra, run, dest, base)
    decreases |run|
  {
    if run != [] {
      var c', at := NextStep(c, run, dest, next);
      var base' := at + c'.Offset(dest);
      ShiftedInPlace(c', run[1..], dest, at, base');
      StepInPlace(c, run, dest, next, base, c', at, base');
    }
  }

  lemma NextWiresInPlace(c: Conn, a: Arrival, dest: Dest, next: int, base: int, c': Conn, at: int)
    returns (ws: seq<Wire>)
    requires Acceptable(c, a) && !c.ignored && (a.dest == dest ==> FindsItsOwn(c, a, next)) && base == next + c.Offset(dest)
    requires Same(c', Step(c, ShiftExtra, a).conn) && at == Behind(a, dest, next)
    ensures Same(ws, WiresOf(c, ShiftExtra, a, dest)) && Contiguous(ws, base) && at + c'.Offset(dest) == base + |Data(ws)|
  {
    ws := WiresOf(c, ShiftExtra, a, dest);
    if a.dest == dest {
      OwnWires(c, a, next, base, |a.payload|);
    } else {
      StepLeaves(c, a);
    }
  }

  /** The first segment of a run in front of the others. */
  lemma StepInPlace(c: Conn, run: seq<Arrival>, dest: Dest, next: int, base: int, c': Conn, at: int, base': int)
    requires AllAcceptable(c, ShiftExtra, run) && Undisturbed(c, run, dest, next) && !c.ignored && run != []
    requires base == next + c.Offset(dest) && base' == at + c'.Offset(dest) && Same(c', Step(c, ShiftExtra, run[0]).conn)
    requires at == Behind(run[0], dest, next)
    requires AllAcceptable(c', ShiftExtra, run[1..]) && InPlace(c', ShiftExtra, run[1..], dest, base')
    ensures InPlace(c, ShiftExtra, run, dest, base)
  {
    var ws := NextWiresInPlace(c, run[0], dest, next, base, c', at);
    PlaceUnfolds(c, ShiftExtra, run, dest, base, c', ws, base');
  }

  /** No packet of the direction is shorter than what is carried to it, and none to which something is carried is edited. */
  predicate Passable(c: Conn, run: seq<Arrival>, dest: Dest)
    requires AllAcceptable(c, ShiftExtra, run)
    decreases |run|
  {
    run == [] || (
      && (run[0].dest == dest && run[0].payload != "" ==> LetThrough(c, run[0]))
      && Passable(Step(c, ShiftExtra, run[0]).conn, run[1..], dest))
  }

  predicate LetThrough(c: Conn, a: Arrival) {
    |Carry(c.line, a.seqNo)| <= |a.payload| && (a.ops == [] || Carry(c.line, a.seqNo) == "")
  }

  lemma LetThroughConserves(c: Conn, a: Arrival)
    requires Acceptable(c, a) && !c.ignored && a.payload != "" && LetThrough(c, a)
    ensures Conserves(c, a)
  {
    var carry, text, n := Carry(c.line, a.seqNo), Text(c, a), |a.payload|;
    if a.ops == [] {
      Halves(carry + a.payload, n);
    } else {
      EmptyIsNeutral(text);
      assert HeldBack("", a.payload) == "";
      if CutOff(true, n, |text|) {
        Halves(text, n);
      }
    }
  }

  lemma StepConserves(c: Conn, a: Arrival, dest: Dest, next: int, c': Conn, at: int)
    requires Acceptable(c, a) && !c.ignored && Same(c', Step(c, ShiftExtra, a).conn) && at == Behind(a, dest, next)
    requires if a.dest == dest then FindsItsOwn(c, a, next) && (a.payload != "" ==> LetThrough(c, a))
             else CarryTo(c', next) == CarryTo(c, next)
    ensures ConservedBy(WiresOf(c, ShiftExtra, a, dest), CarryTo(c', at), CarryTo(c, next), TextOf(c, a, dest))
  {
    if a.dest == dest {
      if a.payload != "" {
        LetThroughConserves(c, a);
      }
      OwnConserves(c, a, next, |a.payload|);
    } else {
      EmptyIsNeutral(CarryTo(c, next));
    }
  }

  lemma ConservedFolds(c: Conn, mode: Extra, run: seq<Arrival>, dest: Dest, next: int, c': Conn, at: int)
    requires AllAcceptable(c, mode, run) && run != [] && Same(c', Step(c, mode, run[0]).conn) && at == Behind(run[0], dest, next)
    requires AllAcceptable(c', mode, run[1..]) && Conserved(c', mode, run[1..], dest, at)
    requires ConservedBy(WiresOf(c, mode, run[0], dest), CarryTo(c', at), CarryTo(c, next), TextOf(c, run[0], dest))
    ensures Conserved(c, mode, run, dest, next)
  {
  }

  lemma {:induction false} ShiftedIsConserved(c: Conn, run: seq<Arrival>, dest: Dest, next: int)
    requires AllAcceptable(c, ShiftExtra, run) && Undisturbed(c, run, dest, next) && !c.ignored && Passable(c, run, dest)
    ensures Conserved(c, ShiftExtra, run, dest, next)
    decreases |run|
  {
    if run != [] {
      var c', at := NextStep(c, run, dest, next);
      ShiftedIsConserved(c', run[1..], dest, at);
      StepConserves(c, run[0], dest, next, c', at);
      ConservedFolds(c, ShiftExtra, run, dest, next, c', at);
    }
  }

  /**
    SHIFT mode delivers the rewritten stream but for what is still carried: in the order in which they
    are sent the segments of a direction have no gap and no overlap, and their bytes, followed by what is
    carried on at the end, are what was carried in front and the rewritten stream.
   */
  lemma ShiftedStream(c: Conn, run: seq<Arrival>, dest: Dest, next: int, base: int, end: string)
    requires AllAcceptable(c, ShiftExtra, run) && Undisturbed(c, run, dest, next) && !c.ignored && Passable(c, run, dest)
    requires base == next + c.Offset(dest) && Same(end, CarryTo(Final(c, ShiftExtra, run), NextAfter(run, dest, next)))
    ensures Contiguous(Wires(c, ShiftExtra, run, dest), base)
    ensures Same(Data(Wires(c, ShiftExtra, run, dest)) + end, CarryTo(c, next) + Stream(c, ShiftExtra, run, dest))
  {
    ShiftedInPlace(c, run, dest, next, base);
    InPlaceIsContiguous(c, ShiftExtra, run, dest, base);
    ShiftedIsConserved(c, run, dest, next);
    ConservedStream(c, ShiftExtra, run, dest, next, end);
  }

  // ----- when a run is undisturbed

  /** Of the numbers from next up to the end of the next total bytes, only next itself has something carried to it. */
  ghost predicate Clear(line: map<uint32, string>, next: int, total: nat) {
    total < TWO_32 && forall k: uint32 :: Carry(line, k) != "" ==> k == Wrap(next) || total < Wrap(k - next)
  }

  /** Only the entry under the key may differ. */
  ghost predicate SameBut(line: map<uint32, string>, line': map<uint32, string>, key: uint32) {
    forall k: uint32 :: k != key ==> Carry(line', k) == Carry(line, k)
  }

  lemma FurtherAway(k: uint32, next: int, n: nat, total: nat)
    requires 0 < n <= total < TWO_32
    ensures Wrap(next + n) != Wrap(next) && Wrap(Wrap(next + n) - next) == n
    ensures k == Wrap(next) || total < Wrap(k - next) ==> total - n < Wrap(k - (next + n))
  {
    WrapAdd(next + n, -next);
    WrapAdd(k - next, -(n as int));
    if k == Wrap(next) {
      WrapAdd(next, -next);
    }
  }

  lemma ClearBehind(line: map<uint32, string>, line': map<uint32, string>, next: int, n: nat, total: nat, at: int)
    requires Clear(line, next, total) && 0 < n <= total && at == next + n && SameBut(line, line', Wrap(at))
    ensures Clear(line', at, total - n)
  {
    forall k: uint32 | Carry(line', k) != "" ensures k == Wrap(at) || total - n < Wrap(k - at) {
      FurtherAway(k, next, n, total);
    }
  }

  lemma NothingThere(line: map<uint32, string>, next: int, n: nat, total: nat)
    requires Clear(line, next, total) && 0 < n <= total
    ensures Wrap(next + n) != Wrap(next) && Carry(line, Wrap(next + n)) == ""
  {
    FurtherAway(Wrap(next + n), next, n, total);
  }

  lemma ClearBeside(line: map<uint32, string>, line': map<uint32, string>, next: int, total: nat, key: uint32)
    requires Clear(line, next, total) && SameBut(line, line', key) && total < Wrap(key - next)
    ensures Clear(line', next, total) && Carry(line', Wrap(next)) == Carry(line, Wrap(next))
  {
    WrapAdd(next, -next);
  }

  lemma DelayedOthers(line: map<uint32, string>, seqNo: uint32, next: uint32, payload: string, k: uint32)
    requires k != next
    ensures Carry(ShiftStep(line, seqNo, next, payload).line, k) == Carry(line, k)
  {
  }

  /** A segment changes nothing but the entry of the following one. */
  lemma StepIsSameBut(c: Conn, a: Arrival)
    requires Acceptable(c, a) && !c.ignored
    ensures if a.payload == "" then Step(c, ShiftExtra, a).conn == c
            else SameBut(c.line, Step(c, ShiftExtra, a).conn.line, Following(a))
  {
    if a.payload == "" {
      EmptyStep(c, a);
    } else {
      var next := Following(a);
      var d := ShiftStep(c.line, a.seqNo, next, a.payload);
      ForwardShifted(c, a.dest, a.seqNo, a.ackNo, a.payload, a.ops != [], Text(c, a), next, d);
      forall k: uint32 | k != next ensures Carry(Step(c, ShiftExtra, a).conn.line, k) == Carry(c.line, k) {
        DelayedOthers(c.line, a.seqNo, next, a.payload, k);
      }
    }
  }

  /** What the other direction carries on is not under a number that is still to come in this direction. */
  predicate OutOfWay(run: seq<Arrival>, dest: Dest, next: int) {
    run == [] || (
      && (run[0].dest != dest && run[0].payload != "" ==> |Payloads(run, dest)| < Wrap(Following(run[0]) - next))
      && OutOfWay(run[1..], dest, Behind(run[0], dest, next)))
  }

  lemma ClearGoesOn(line: map<uint32, string>, line': map<uint32, string>, next: int, n: nat, key: uint32,
                    total: nat, rest: nat, at: int)
    requires Clear(line, next, total) && total == n + rest && key == Wrap(next + n) && at == next + n
    requires n > 0 ==> SameBut(line, line', key)
    requires n == 0 ==> Same(line', line)
    ensures Clear(line', at, rest) && (n > 0 ==> key != Wrap(next) && Carry(line, key) == "")
  {
    if n > 0 {
      NothingThere(line, next, n, total);
      ClearBehind(line, line', next, n, total, at);
    }
  }

  lemma OwnEntries(c: Conn, a: Arrival, next: int, n: nat, total: nat, c': Conn, at: int, rest: nat)
    requires Acceptable(c, a) && !c.ignored && Same(c', Step(c, ShiftExtra, a).conn) && at == next + n && n == |a.payload|
    requires Clear(c.line, next, total) && a.seqNo == Wrap(next) && total == n + rest
    ensures Clear(c'.line, at, rest) && FindsItsOwn(c, a, next)
  {
    StepIsSameBut(c, a);
    WrapAdd(next, n);
    ClearGoesOn(c.line, c'.line, next, n, Following(a), total, rest, at);
  }

  lemma OtherEntries(c: Conn, a: Arrival, dest: Dest, next: int, total: nat, c': Conn)
    requires Acceptable(c, a) && !c.ignored && Same(c', Step(c, ShiftExtra, a).conn)
    requires Clear(c.line, next, total) && (a.payload != "" ==> total < Wrap(Following(a) - next))
    ensures Clear(c'.line, next, total) && CarryTo(c', next) == CarryTo(c, next)
  {
    StepIsSameBut(c, a);
    if a.payload != "" {
      ClearBeside(c.line, c'.line, next, total, Following(a));
    }
  }

  lemma NextInOrder(run: seq<Arrival>, dest: Dest, next: int, at: int)
    requires run != [] && InOrder(run, dest, next) && OutOfWay(run, dest, next) && at == Behind(run[0], dest, next)
    ensures InOrder(run[1..], dest, at) && OutOfWay(run[1..], dest, at)
    ensures |Payloads(run, dest)| == at - next + |Payloads(run[1..], dest)|
  {
  }

  lemma NextClear(c: Conn, run: seq<Arrival>, dest: Dest, next: int) returns (c': Conn, at: int)
    requires AllAcceptable(c, ShiftExtra, run) && !c.ignored && run != [] && InOrder(run, dest, next)
    requires OutOfWay(run, dest, next) && Clear(c.line, next, |Payloads(run, dest)|)
    ensures Same(c', Step(c, ShiftExtra, run[0]).conn) && AllAcceptable(c', ShiftExtra, run[1..]) && !c'.ignored
    ensures at == Behind(run[0], dest, next) && Clear(c'.line, at, |Payloads(run[1..], dest)|)
    ensures if run[0].dest == dest then FindsItsOwn(c, run[0], next) else CarryTo(c', next) == CarryTo(c, next)
  {
    c', at := Step(c, ShiftExtra, run[0]).conn, Behind(run[0], dest, next);
    StepLeaves(c, run[0]);
    NextInOrder(run, dest, next, at);
    if run[0].dest == dest {
      OwnEntries(c, run[0], next, |run[0].payload|, |Payloads(run, dest)|, c', at, |Payloads(run[1..], dest)|);
    } else {
      OtherEntries(c, run[0], dest, next, |Payloads(run, dest)|, c');
    }
  }

  lemma UndisturbedFolds(c: Conn, run: seq<Arrival>, dest: Dest, next: int, c': Conn, at: int)
    requires AllAcceptable(c, ShiftExtra, run) && run != [] && Same(c', Step(c, ShiftExtra, run[0]).conn)
    requires AllAcceptable(c', ShiftExtra, run[1..]) && Undisturbed(c', run[1..], dest, at) && at == Behind(run[0], dest, next)
    requires if run[0].dest == dest then FindsItsOwn(c, run[0], next) else CarryTo(c', next) == CarryTo(c, next)
    ensures Undisturbed(c, run, dest, next)
  {
  }

  /**
    A run is undisturbed if its direction is in order, spans less than the sequence space, starts with
    no other bytes carried to its numbers, and the other direction carries none there.
   */
  lemma {:induction false} ApartIsUndisturbed(c: Conn, run: seq<Arrival>, dest: Dest, next: int)
    requires AllAcceptable(c, ShiftExtra, run) && !c.ignored && InOrder(run, dest, next)
    requires OutOfWay(run, dest, next) && Clear(c.line, next, |Payloads(run, dest)|)
    ensures Undisturbed(c, run, dest, next)
    decreases |run|
  {
    if run != [] {
      var c', at := NextClear(c, run, dest, next);
      NextInOrder(run, dest, next, at);
      ApartIsUndisturbed(c', run[1..], dest, at);
      UndisturbedFolds(c, run, dest, next, c', at);
    }
  }

  // ----- edits behind a cut

  /** With this payload instead, the packet sends and carries on what was carried to it and its text. */
  ghost predicate ConservesWith(c: Conn, a: Arrival, payload: string) {
    Acceptable(c, a.(payload := payload)) && Conserves(c, a.(payload := payload))
  }

  lemma AcceptableByLength(c: Conn, a: Arrival, payload: string)
    requires Acceptable(c, a) && |payload| == |a.payload|
    ensures Acceptable(c, a.(payload := payload))
  {
    assert |payload + a.stale| == |a.payload + a.stale|;
  }

  /** What is held back cannot replace what was carried if it lacks one of its bytes. */
  lemma OtherBytes(text: string, held: string, carry: string)
    requires carry != "" && carry[0] !in held
    ensures text + held != carry + text
  {
    var x := carry[0];
    assert multiset(text + held) == multiset(text) + multiset(held) && multiset(held)[x] == 0;
    assert multiset(carry + text) == multiset(carry) + multiset(text) && multiset(carry)[x] > 0;
    assert multiset(text + held)[x] < multiset(carry + text)[x];
  }

  lemma CarriedIsLost(c: Conn, a: Arrival, carry: string, held: string)
    requires Acceptable(c, a) && !Untouched(c, a) && carry == Carry(c.line, a.seqNo) != ""
    requires held == HeldBack(carry, a.payload) && carry[0] !in held
    ensures !Conserves(c, a)
  {
    var text := Text(c, a);
    if CutOff(true, |a.payload|, |text|) {
      assert |text[..|a.payload|] + text[|a.payload|..]| < |carry + text|;
    } else {
      OtherBytes(text, held, carry);
    }
  }

  /**
    An edited packet keeps every byte, whatever its payload, if and only if nothing is carried to it: the
    edit is applied to the packet as it came in, without the carried bytes.
   */
  lemma EditWhileCarryingExactly(c: Conn, a: Arrival)
    requires Acceptable(c, a) && !Untouched(c, a) && |Carry(c.line, a.seqNo)| <= |a.payload|
    ensures (forall payload: string :: |payload| == |a.payload| ==> ConservesWith(c, a, payload))
       <==> Carry(c.line, a.seqNo) == ""
  {
    var carry, n := Carry(c.line, a.seqNo), |a.payload|;
    if carry == "" {
      forall payload: string | |payload| == n ensures ConservesWith(c, a, payload) {
        AcceptableByLength(c, a, payload);
        LetThroughConserves(c, a.(payload := payload));
      }
    } else {
      var other := if carry[0] == 'A' then 'B' else 'A';
      var payload := seq(n, _ => other);
      AcceptableByLength(c, a, payload);
      forall k | 0 <= k < |carry| ensures HeldBack(carry, payload)[k] == other {
        assert (carry + payload)[n..][k] == payload[n + k - |carry|];
      }
      CarriedIsLost(c, a.(payload := payload), carry, HeldBack(carry, payload));
      assert !ConservesWith(c, a, payload);
    }
  }

  /** No packet of the direction to which something is carried is cut, and none is shorter than that. */
  predicate NeverCutAgain(c: Conn, run: seq<Arrival>, dest: Dest)
    requires AllAcceptable(c, ShiftExtra, run)
    decreases |run|
  {
    run == [] || (
      && (run[0].dest == dest ==> !CutAgain(c, run[0]))
      && NeverCutAgain(Step(c, ShiftExtra, run[0]).conn, run[1..], dest))
  }

  predicate CutAgain(c: Conn, a: Arrival)
    requires Acceptable(c, a)
  {
    Cut(c, a) && Carry(c.line, a.seqNo) != ""
  }

  /** No packet of the direction is shorter than what is carried to it. */
  predicate LongEnough(c: Conn, run: seq<Arrival>, dest: Dest)
    requires AllAcceptable(c, ShiftExtra, run)
    decreases |run|
  {
    run == [] || (
      && (run[0].dest == dest && run[0].payload != "" ==> |Carry(c.line, run[0].seqNo)| <= |run[0].payload|)
      && LongEnough(Step(c, ShiftExtra, run[0]).conn, run[1..], dest))
  }

  /** The bytes sent and carried on are no more than those carried and those of the text, and as many if nothing is cut. */
  predicate LengthsBy(sent: int, carried: int, carry: int, text: int, cut: bool) {
    sent + carried <= carry + text && (sent + carried == carry + text <==> !cut)
  }

  lemma PassageLengths(c: Conn, a: Arrival, carry: nat)
    requires Acceptable(c, a) && !c.ignored && a.payload != "" && carry == |Carry(c.line, a.seqNo)| <= |a.payload|
    ensures LengthsBy(|PassageOf(c, a).out|, |PassageOf(c, a).carried|, carry, |Text(c, a)|, CutAgain(c, a))
  {
  }

  lemma OwnLengths(c: Conn, a: Arrival, next: int, n: nat)
    requires Acceptable(c, a) && !c.ignored && FindsItsOwn(c, a, next) && n == |a.payload|
    requires n > 0 ==> |Carry(c.line, a.seqNo)| <= n
    ensures LengthsBy(|Data(Step(c, ShiftExtra, a).wires)|, |CarryTo(Step(c, ShiftExtra, a).conn, next + n)|,
                      |CarryTo(c, next)|, |Text(c, a)|, CutAgain(c, a))
  {
    if n == 0 {
      EmptyPassage(c, a);
    } else {
      OwnPassage(c, a, next, n);
      PassageLengths(c, a, |Carry(c.line, a.seqNo)|);
    }
  }

  lemma StepLengths(c: Conn, a: Arrival, dest: Dest, next: int, c': Conn, at: int)
    requires Acceptable(c, a) && !c.ignored && Same(c', Step(c, ShiftExtra, a).conn) && at == Behind(a, dest, next)
    requires if a.dest == dest then FindsItsOwn(c, a, next) && (a.payload != "" ==> |Carry(c.line, a.seqNo)| <= |a.payload|)
             else CarryTo(c', next) == CarryTo(c, next)
    ensures LengthsBy(|Data(WiresOf(c, ShiftExtra, a, dest))|, |CarryTo(c', at)|, |CarryTo(c, next)|, |TextOf(c, a, dest)|,
                      a.dest == dest && CutAgain(c, a))
  {
    if a.dest == dest {
      OwnLengths(c, a, next, |a.payload|);
    }
  }

  lemma NextLengths(c: Conn, run: seq<Arrival>, dest: Dest, next: int)
    returns (c': Conn, at: int, sent: nat, texts: nat, cut: bool)
    requires AllAcceptable(c, ShiftExtra, run) && Undisturbed(c, run, dest, next) && !c.ignored && LongEnough(c, run, dest)
    requires run != []
    ensures AllAcceptable(c', ShiftExtra, run[1..]) && Undisturbed(c', run[1..], dest, at) && !c'.ignored
    ensures LongEnough(c', run[1..], dest) && (NeverCutAgain(c, run, dest) <==> !cut && NeverCutAgain(c', run[1..], dest))
    ensures |Data(Wires(c, ShiftExtra, run, dest))| == sent + |Data(Wires(c', ShiftExtra, run[1..], dest))|
    ensures |Stream(c, ShiftExtra, run, dest)| == texts + |Stream(c', ShiftExtra, run[1..], dest)|
    ensures LengthsBy(sent, |CarryTo(c', at)|, |CarryTo(c, next)|, texts, cut)
    ensures Final(c, ShiftExtra, run) == Final(c', ShiftExtra, run[1..]) && NextAfter(run, dest, next) == NextAfter(run[1..], dest, at)
  {
    c', at := NextStep(c, run, dest, next);
    var ws;
    c', ws := NextWires(c, ShiftExtra, run, dest);
    DataAppend(ws, Wires(c', ShiftExtra, run[1..], dest));
    sent, texts, cut := |Data(ws)|, |TextOf(c, run[0], dest)|, run[0].dest == dest && CutAgain(c, run[0]);
    StepLengths(c, run[0], dest, next, c', at);
  }

  /** In SHIFT mode bytes are lost in a direction exactly when a packet is cut to which something is carried. */
  lemma {:induction false} ShiftedBytesKeptExactly(c: Conn, run: seq<Arrival>, dest: Dest, next: int, end: string)
    requires AllAcceptable(c, ShiftExtra, run) && Undisturbed(c, run, dest, next) && !c.ignored && LongEnough(c, run, dest)
    requires Same(end, CarryTo(Final(c, ShiftExtra, run), NextAfter(run, dest, next)))
    ensures LengthsBy(|Data(Wires(c, ShiftExtra, run, dest))|, |end|, |CarryTo(c, next)|, |Stream(c, ShiftExtra, run, dest)|,
                      !NeverCutAgain(c, run, dest))
    decreases |run|
  {
    if run != [] {
      var c', at, sent, texts, cut := NextLengths(c, run, dest, next);
      ShiftedBytesKeptExactly(c', run[1..], dest, at, end);
    }
  }

  // ----- inputs

  /** A full segment that grows by a byte: its last byte is carried to the number 2401. */
  lemma CutIsCarried(a: Arrival, payload: string)
    requires |payload| == MSS + 1 && a == Arrival(Client, 1000, 0, payload, "", 0, [Operation(0, 0, "X", false)], NoLimit)
    ensures Acceptable(Fresh, a)
    ensures var r := Step(Fresh, ShiftExtra, a);
      && r.conn == Conn(0, 0, false, PerDest(Some(1000), None), PerDest("", ""), map[1000 := "", 2401 := [payload[MSS]]])
      && r.wires == [Wire(1000, 0, "X" + payload[..MSS])]
  {
    InsertOne(a, payload);
    var text := "X" + payload;
    assert text[..MSS + 1] == "X" + payload[..MSS] && text[MSS + 1..] == [payload[MSS]];
  }

  /** The other direction happens to use the number: its segment takes over the byte that is not its own. */
  lemma ShiftMixesDirections(a: Arrival, payload: string, b: Arrival)
    requires |payload| == MSS + 1 && a == Arrival(Client, 1000, 0, payload, "", 0, [Operation(0, 0, "X", false)], NoLimit)
    requires b == Arrival(Server, 2401, 0, "q", "", 0, [], NoLimit)
    ensures Acceptable(Fresh, a) && Acceptable(Step(Fresh, ShiftExtra, a).conn, b)
    ensures Step(Step(Fresh, ShiftExtra, a).conn, ShiftExtra, b).wires == [Wire(2401, 0, [payload[MSS]])]
  {
    CutIsCarried(a, payload);
    assert ([payload[MSS]] + "q")[..1] == [payload[MSS]];
  }

  /**
    An edited packet behind the cut one: the carried byte is never sent, and the packet's last byte is
    sent by it and carried on as well.
   */
  lemma EditBehindCutLosesByte(a: Arrival, payload: string, b: Arrival)
    requires |payload| == MSS + 1 && a == Arrival(Client, 1000, 0, payload, "", 0, [Operation(0, 0, "X", false)], NoLimit)
    requires b == Arrival(Client, 2401, 0, "cd", "", 1401, [Operation(1401, 1402, "Y", false)], NoLimit)
    ensures Acceptable(Fresh, a) && Acceptable(Step(Fresh, ShiftExtra, a).conn, b)
    ensures var c := Step(Fresh, ShiftExtra, a).conn;
      && Carry(c.line, 2401) == [payload[MSS]]
      && Step(c, ShiftExtra, b).wires == [Wire(2401, 0, "Yd")] && Carry(Step(c, ShiftExtra, b).conn.line, 2403) == "d"
  {
    CutIsCarried(a, payload);
    var c := Step(Fresh, ShiftExtra, a).conn;
    FirstReplaced(c, b, b.ops);
    EditedWhileCarrying(c, b, [payload[MSS]]);
  }

  lemma EditedWhileCarrying(c: Conn, b: Arrival, carry: string)
    requires !c.ignored && c.offsetS2C == 0 && c.offsetC2S == 0 && c.line == map[1000 := "", 2401 := carry] && |carry| == 1
    requires b.dest == Client && b.seqNo == 2401 && b.ackNo == 0 && b.payload == "cd" && b.ops != []
    requires Acceptable(c, b) && Text(c, b) == "Yd"
    ensures Step(c, ShiftExtra, b).wires == [Wire(2401, 0, "Yd")] && Carry(Step(c, ShiftExtra, b).conn.line, 2403) == "d"
  {
    var d := ShiftStep(c.line, 2401, 2403, "cd");
    DelayedStep(c.line, 2401, 2403, "cd", carry);
    assert HeldBack(carry, "cd") == "d";
    ForwardShifted(c, Client, 2401, 0, "cd", true, "Yd", 2403, d);
  }

  lemma FirstReplaced(c: Conn, b: Arrival, ops: seq<Operation>)
    requires !c.ignored && c.initSeq.client == Some(1000) && c.offsetS2C == 0 && ops == [Operation(1401, 1402, "Y", false)]
    requires b == Arrival(Client, 2401, 0, "cd", "", 1401, ops, NoLimit)
    ensures Acceptable(c, b) && Text(c, b) == "Yd"
  {
    SortOfSorted(ops);
    assert ops[1..] == [] && OffsetOf(c, b) == 1401 && Separated(ops);
    SeparatedRun(2, ops, 1401);
    SeparatedIsSweepable(ops, 1403);
    assert "cd" + "" == "cd";
    TextIsSplice(c, b);
    assert ReplaceOne("cd", 0, 1, "Y") == "Yd";
  }
}
