/**
  The stateful communicator (communicator.cc, parser.cc:30-37): the packet thread and the parser
  thread pass data_ and ops to and fro over two pipes. Each step below is one pipe operation of one
  thread, with the computation up to it; the parser's own work is arbitrary.
 */
module HandOff {
  import opened Operations

  datatype Command = AddData | MoreData | Quit

  /** Where the packet thread is in Parser::process and addData. */
  datatype PacketAt = Idle | InitRead | WriteAdd | ReadAnswer | Took(answer: int)

  /** Where the parser thread is. Leaving: about to write QUIT in run(); Closing: about to close the pipe. */
  datatype ParserAt = NotStarted | Parsing | ReadData | Leaving | Closing | Gone

  /** What process returned for a chunk. */
  datatype Returned = Returned(answer: int, ops: seq<Operation>)

  datatype State = State(
    packet: PacketAt, parser: ParserAt,
    running: bool, end: bool, closed: bool,
    fdData: seq<Command>, fdAns: seq<Command>,
    data: string, ops: seq<Operation>, endPos: int, totalLen: nat,
    // histories
    submitted: seq<string>, delivered: seq<string>, emitted: seq<Operation>, returned: seq<Returned>)

  const Init: State :=
    State(Idle, NotStarted, false, false, false, [], [], "", [], -1, 0, [], [], [], [])

  datatype Step =
    | Submit(chunk: string)   // process and addData up to the first blocking call
    | ReadInit                // init: the first answer, whatever it is
    | WriteAddData
    | ReadAns
    | Take                    // process: note the answer and take the operations
    | Emit(op: Operation)     // the parser adds an operation
    | SetEnd(pos: int)        // the parser calls setLengthEnd
    | AskForData              // getIStream: refuse past the end, otherwise ask
    | Read                    // getIStream: the command arrives, data_ is read
    | Finish                  // the parser returns or throws
    | WriteQuit
    | Close

  /** getIStream refuses more data: communicator.cc:70-72. */
  predicate PastEnd(s: State) {
    s.endPos > 0 && s.endPos <= s.totalLen
  }

  /** A step can be taken; a read blocks while its pipe is empty and not closed. */
  predicate Enabled(s: State, step: Step) {
    match step
    case Submit(_) => s.packet == Idle && !s.end
    case ReadInit => s.packet == InitRead && (s.fdAns != [] || s.closed)
    case WriteAddData => s.packet == WriteAdd
    case ReadAns => s.packet == ReadAnswer && (s.fdAns != [] || s.closed)
    case Take => s.packet.Took?
    case Emit(_) => s.parser == Parsing
    case SetEnd(_) => s.parser == Parsing
    case AskForData => s.parser == Parsing
    case Read => s.parser == ReadData && s.fdData != []
    case Finish => s.parser == Parsing
    case WriteQuit => s.parser == Leaving
    case Close => s.parser == Closing
  }

  function Tail(pipe: seq<Command>): seq<Command> {
    if pipe == [] then [] else pipe[1..]
  }

  function Apply(s: State, step: Step): State
    requires Enabled(s, step)
  {
    match step
    case Submit(chunk) =>
      var s1 := s.(data := chunk, submitted := s.submitted + [chunk]);
      if s.running then s1.(packet := WriteAdd)
      else s1.(running := true, parser := Parsing, packet := InitRead)
    case ReadInit => s.(fdAns := Tail(s.fdAns), packet := WriteAdd)
    case WriteAddData => s.(fdData := s.fdData + [AddData], packet := ReadAnswer)
    case ReadAns =>
      s.(fdAns := Tail(s.fdAns), packet := Took(if s.fdAns == [] || s.fdAns[0] == Quit then -1 else 0))
    case Take =>
      s.(end := s.end || s.packet.answer < 0, ops := [], packet := Idle,
         returned := s.returned + [Returned(s.packet.answer, s.ops)])
    case Emit(op) => s.(ops := s.ops + [op], emitted := s.emitted + [op])
    case SetEnd(pos) => s.(endPos := pos)
    case AskForData =>
      if PastEnd(s) then s.(fdAns := s.fdAns + [Quit], parser := Leaving)
      else s.(fdAns := s.fdAns + [MoreData], parser := ReadData)
    case Read =>
      if s.fdData[0] == AddData then
        s.(fdData := s.fdData[1..], totalLen := s.totalLen + |s.data|, delivered := s.delivered + [s.data],
           parser := Parsing)
      else s.(fdData := s.fdData[1..], parser := Leaving)
    case Finish => s.(parser := Leaving)
    case WriteQuit => s.(fdAns := s.fdAns + [Quit], parser := Closing)
    case Close => s.(closed := true, parser := Gone)
  }

  // ----- the invariant

  predicate ParserLeft(s: State) {
    s.parser == Leaving || s.parser == Closing || s.parser == Gone
  }

  /** Nothing but QUIT is ever left in the answer pipe by a parser that is leaving. */
  predicate OnlyQuits(pipe: seq<Command>) {
    forall i :: 0 <= i < |pipe| ==> pipe[i] == Quit
  }

  /** The parser waits for the command, and nothing is under way. */
  predicate AtRest(s: State) {
    s.parser == ReadData && s.fdAns == [] && s.fdData == []
  }

  /** The parser is leaving; whoever reads its answers finds QUIT or, later, a closed pipe. */
  predicate Ending(s: State) {
    ParserLeft(s) && OnlyQuits(s.fdAns)
  }

  /** The parser has the data, or has just answered for it. */
  predicate Working(s: State) {
    && s.fdData == []
    && (|| (s.parser == Parsing && s.fdAns == [])
        || (s.parser == ReadData && s.fdAns == [MoreData])
        || Ending(s))
  }

  predicate PhaseOk(s: State) {
    match s.packet
    case Idle =>
      if !s.running then s.parser == NotStarted && s.fdAns == [] && s.fdData == [] && s.submitted == []
      else if s.end then Ending(s)
      else AtRest(s)
    case InitRead => s.running && Working(s)
    case WriteAdd => s.running && (AtRest(s) || (Ending(s) && s.fdData == []))
    case ReadAnswer => s.running && (
      || (s.parser == ReadData && s.fdAns == [] && s.fdData == [AddData])
      || Working(s)
      || (Ending(s) && s.fdData == [AddData]))
    case Took(answer) => s.running && (if answer < 0 then Ending(s) else AtRest(s))
  }

  /** The chunk in data_ is the last one submitted and has not been read by the parser yet. */
  predicate Unread(s: State) {
    s.submitted != [] && s.delivered == s.submitted[..|s.submitted| - 1] && s.data == s.submitted[|s.submitted| - 1]
  }

  predicate DeliveryOk(s: State) {
    match s.packet
    case Idle => s.delivered == s.submitted || (s.end && Unread(s))
    case InitRead => Unread(s)
    case WriteAdd => Unread(s)
    case ReadAnswer => if s.fdData == [AddData] then Unread(s) else s.delivered == s.submitted
    case Took(answer) => s.delivered == s.submitted || (answer < 0 && Unread(s))
  }

  function SumLen(chunks: seq<string>): nat {
    if chunks == [] then 0 else SumLen(chunks[..|chunks| - 1]) + |chunks[|chunks| - 1]|
  }

  function OpsReturned(returned: seq<Returned>): seq<Operation> {
    if returned == [] then [] else OpsReturned(returned[..|returned| - 1]) + returned[|returned| - 1].ops
  }

  predicate CountsOk(s: State) {
    && s.totalLen == SumLen(s.delivered)
    && (s.parser == ReadData ==> !PastEnd(s))
    && (s.closed <==> s.parser == Gone)
    && (s.parser == NotStarted ==> s.packet == Idle)
    && OpsReturned(s.returned) + s.ops == s.emitted
    && |s.returned| == |s.submitted| - (if s.packet == Idle then 0 else 1)
    && (s.end ==> s.packet == Idle && s.returned != [] && s.returned[|s.returned| - 1].answer < 0)
    && (forall i :: 0 <= i < |s.returned| && (!s.end || i < |s.returned| - 1) ==> s.returned[i].answer == 0)
    && (s.packet.Took? ==> s.packet.answer == 0 || s.packet.answer == -1)
  }

  predicate Inv(s: State) {
    PhaseOk(s) && DeliveryOk(s) && CountsOk(s)
  }

  lemma InitInv()
    ensures Inv(Init)
  {
  }

  lemma SumLenAppend(chunks: seq<string>, chunk: string)
    ensures SumLen(chunks + [chunk]) == SumLen(chunks) + |chunk|
  {
    assert (chunks + [chunk])[..|chunks|] == chunks;
  }

  lemma OpsReturnedAppend(returned: seq<Returned>, r: Returned)
    ensures OpsReturned(returned + [r]) == OpsReturned(returned) + r.ops
  {
    assert (returned + [r])[..|returned|] == returned;
  }

  lemma PacketStepKeepsInv(s: State, step: Step)
    requires Inv(s) && Enabled(s, step)
    requires IsPacketStep(step)
    ensures Inv(Apply(s, step))
  {
    match step
    case Submit(chunk) => SubmitKeepsInv(s, chunk);
    case ReadInit => PipeStepKeepsInv(s, step);
    case WriteAddData => PipeStepKeepsInv(s, step);
    case ReadAns => PipeStepKeepsInv(s, step);
    case Take => TakeKeepsInv(s);
  }

  lemma SubmitKeepsInv(s: State, chunk: string)
    requires Inv(s) && Enabled(s, Submit(chunk))
    ensures Inv(Apply(s, Submit(chunk)))
  {
    assert (s.submitted + [chunk])[..|s.submitted|] == s.submitted;
  }

  lemma PipeStepKeepsInv(s: State, step: Step)
    requires Inv(s) && Enabled(s, step) && (step.ReadInit? || step.WriteAddData? || step.ReadAns?)
    ensures Inv(Apply(s, step))
  {
  }

  lemma TakeKeepsInv(s: State)
    requires Inv(s) && Enabled(s, Take)
    ensures Inv(Apply(s, Take))
  {
    var r := Returned(s.packet.answer, s.ops);
    OpsReturnedAppend(s.returned, r);
    assert OpsReturned(s.returned + [r]) + [] == s.emitted;
  }

  lemma ParserWorkKeepsInv(s: State, step: Step)
    requires Inv(s) && Enabled(s, step) && (step.Emit? || step.SetEnd? || step.Finish?)
    ensures Inv(Apply(s, step))
  {
    if step.Emit? {
      var op := step.op;
      assert OpsReturned(s.returned) + (s.ops + [op]) == (OpsReturned(s.returned) + s.ops) + [op];
    }
  }

  lemma AskKeepsInv(s: State)
    requires Inv(s) && Enabled(s, AskForData)
    ensures Inv(Apply(s, AskForData))
  {
    assert s.fdAns + [MoreData] == [MoreData] && s.fdAns + [Quit] == [Quit];
  }

  lemma ReadKeepsInv(s: State)
    requires Inv(s) && Enabled(s, Read)
    ensures Inv(Apply(s, Read))
  {
    if s.fdData[0] == AddData {
      ReadDataKeepsInv(s);
    }
  }

  lemma {:induction false} ReadDataKeepsInv(s: State)
    requires Inv(s) && Enabled(s, Read) && s.fdData[0] == AddData
    ensures Inv(Apply(s, Read))
  {
    ReadDataKeepsPhase(s);
    ReadDataKeepsCounts(s);
  }

  lemma {:induction false} ReadDataKeepsPhase(s: State)
    requires Inv(s) && Enabled(s, Read) && s.fdData[0] == AddData
    ensures PhaseOk(Apply(s, Read)) && DeliveryOk(Apply(s, Read))
  {
    ReadDataDelivers(s);
  }

  lemma {:induction false} ReadDataKeepsCounts(s: State)
    requires CountsOk(s) && Enabled(s, Read) && s.fdData[0] == AddData
    ensures CountsOk(Apply(s, Read))
  {
    ReadDataAddsLength(s);
  }

  lemma {:induction false} ReadDataAddsLength(s: State)
    requires s.totalLen == SumLen(s.delivered) && Enabled(s, Read) && s.fdData[0] == AddData
    ensures Apply(s, Read).totalLen == SumLen(Apply(s, Read).delivered)
  {
    SumLenAppend(s.delivered, s.data);
  }

  lemma {:induction false} ReadDataDelivers(s: State)
    requires Inv(s) && Enabled(s, Read) && s.fdData[0] == AddData
    ensures s.packet == ReadAnswer && Apply(s, Read).fdData == []
    ensures Apply(s, Read).delivered == s.submitted
  {
    LastArrives(s.submitted, s.delivered, s.data);
  }

  lemma LastArrives(submitted: seq<string>, delivered: seq<string>, data: string)
    requires submitted != [] && delivered == submitted[..|submitted| - 1] && data == submitted[|submitted| - 1]
    ensures delivered + [data] == submitted
  {
  }

  lemma LeavingKeepsInv(s: State, step: Step)
    requires Inv(s) && Enabled(s, step) && (step.WriteQuit? || step.Close?)
    ensures Inv(Apply(s, step))
  {
  }

  predicate IsPacketStep(step: Step) {
    step.Submit? || step.ReadInit? || step.WriteAddData? || step.ReadAns? || step.Take?
  }

  lemma StepKeepsInv(s: State, step: Step)
    requires Inv(s) && Enabled(s, step)
    ensures Inv(Apply(s, step))
  {
    if IsPacketStep(step) {
      PacketStepKeepsInv(s, step);
    } else if step.AskForData? {
      AskKeepsInv(s);
    } else if step.Read? {
      ReadKeepsInv(s);
    } else if step.WriteQuit? || step.Close? {
      LeavingKeepsInv(s, step);
    } else {
      ParserWorkKeepsInv(s, step);
    }
  }

  // ----- every run

  predicate Feasible(s: State, steps: seq<Step>)
    decreases |steps|
  {
    steps == [] || (Enabled(s, steps[0]) && Feasible(Apply(s, steps[0]), steps[1..]))
  }

  function After(s: State, steps: seq<Step>): State
    requires Feasible(s, steps)
    decreases |steps|
  {
    if steps == [] then s else After(Apply(s, steps[0]), steps[1..])
  }

  lemma {:induction false} RunKeepsInv(s: State, steps: seq<Step>)
    requires Inv(s) && Feasible(s, steps)
    ensures Inv(After(s, steps))
    decreases |steps|
  {
    if steps != [] {
      StepKeepsInv(s, steps[0]);
      RunKeepsInv(Apply(s, steps[0]), steps[1..]);
    }
  }

  /** The packet thread's next step touches data_ or ops. */
  predicate PacketOwns(s: State) {
    (s.packet == Idle && !s.end) || s.packet.Took?
  }

  /** A step that the parser thread can take now touches data_, ops or the limits. */
  predicate ParserOwns(s: State) {
    s.parser == Parsing || (s.parser == ReadData && s.fdData != [])
  }

  /** In no reachable state do both threads own the shared data. */
  lemma NeverBothOwn(steps: seq<Step>)
    requires Feasible(Init, steps)
    ensures !(PacketOwns(After(Init, steps)) && ParserOwns(After(Init, steps)))
  {
    InitInv();
    RunKeepsInv(Init, steps);
  }

  /**
    The parser has received exactly the submitted chunks, once and in order, but for the last one
    while it is on its way or when the parser left without reading it; every chunk for which process
    reported success is among them. total_len counts the bytes received.
   */
  lemma ChunksArriveOnceInOrder(steps: seq<Step>)
    requires Feasible(Init, steps)
    ensures var s := After(Init, steps);
      && (s.delivered == s.submitted || (s.submitted != [] && s.delivered == s.submitted[..|s.submitted| - 1]))
      && s.totalLen == SumLen(s.delivered)
      && |s.returned| <= |s.submitted|
      && (s.end ==> ParserLeft(s))
      && (forall i :: 0 <= i < |s.returned| && s.returned[i].answer == 0 ==>
            i < |s.delivered| && s.delivered[i] == s.submitted[i])
  {
    InitInv();
    RunKeepsInv(Init, steps);
  }

  /** Every operation the parser emits is returned by process exactly once and in order, or still waits in ops. */
  lemma OperationsAreReturnedOnce(steps: seq<Step>)
    requires Feasible(Init, steps)
    ensures OpsReturned(After(Init, steps).returned) + After(Init, steps).ops == After(Init, steps).emitted
  {
    InitInv();
    RunKeepsInv(Init, steps);
  }

  /** The end that the parser sets last, or the one before if it sets none. */
  function LastEnd(steps: seq<Step>, before: int): int {
    if steps == [] then before else LastEnd(steps[1..], if steps[0].SetEnd? then steps[0].pos else before)
  }

  lemma {:induction false} EndPosIsLastEnd(s: State, steps: seq<Step>)
    requires Feasible(s, steps)
    ensures After(s, steps).endPos == LastEnd(steps, s.endPos)
    decreases |steps|
  {
    if steps != [] {
      EndPosIsLastEnd(Apply(s, steps[0]), steps[1..]);
    }
  }

  /** A chunk is handed to the parser only if it has set no end, or has received fewer bytes than the last one it has set. */
  lemma NothingDeliveredPastEnd(steps: seq<Step>, step: Step)
    requires Feasible(Init, steps) && Enabled(After(Init, steps), step)
    ensures var s, end := After(Init, steps), LastEnd(steps, -1);
      Apply(s, step).delivered != s.delivered ==> end <= 0 || SumLen(s.delivered) < end
  {
    InitInv();
    RunKeepsInv(Init, steps);
    EndPosIsLastEnd(Init, steps);
  }

  /** A parser that asks for more data is refused if and only if it has received all the bytes up to the end it has set. */
  lemma RefusedExactly(steps: seq<Step>)
    requires Feasible(Init, steps) && Enabled(After(Init, steps), AskForData)
    ensures var s, s', end := After(Init, steps), Apply(After(Init, steps), AskForData), LastEnd(steps, -1);
      if 0 < end <= SumLen(s.delivered) then s'.fdAns == s.fdAns + [Quit] && s'.parser == Leaving
      else s'.fdAns == s.fdAns + [MoreData] && s'.parser == ReadData
  {
    InitInv();
    RunKeepsInv(Init, steps);
    EndPosIsLastEnd(Init, steps);
  }

  /** How often the packet thread tells the parser that there is a chunk. */
  function Announced(steps: seq<Step>): nat {
    if steps == [] then 0 else (if steps[0].WriteAddData? then 1 else 0) + Announced(steps[1..])
  }

  function StillToAnnounce(s: State): nat {
    if s.packet == InitRead || s.packet == WriteAdd then 1 else 0
  }

  /** Every chunk submitted is announced once, whatever the parser's first answer, or is about to be. */
  lemma {:induction false} EveryChunkIsAnnounced(s: State, steps: seq<Step>)
    requires Feasible(s, steps)
    ensures Announced(steps) + StillToAnnounce(After(s, steps)) + |s.submitted| == |After(s, steps).submitted| + StillToAnnounce(s)
    decreases |steps|
  {
    if steps != [] {
      EveryChunkIsAnnounced(Apply(s, steps[0]), steps[1..]);
    }
  }

  /** A parser that has left has written QUIT before it closed its end. */
  lemma {:induction false} QuitBeforeClosed(s: State, steps: seq<Step>)
    requires Feasible(s, steps) && s.parser != Closing && s.parser != Gone
    ensures After(s, steps).parser == Closing || After(s, steps).parser == Gone ==>
      exists i :: 0 <= i < |steps| && steps[i].WriteQuit?
    decreases |steps|
  {
    if steps != [] && !steps[0].WriteQuit? {
      QuitBeforeClosed(Apply(s, steps[0]), steps[1..]);
      forall i | 0 <= i < |steps[1..]| && steps[1..][i].WriteQuit? ensures steps[i + 1].WriteQuit? {
        assert steps[1..][i] == steps[i + 1];
      }
    }
  }

  /** While the packet thread waits, it can read an answer, or the parser thread can take a step. */
  lemma WaitingAlwaysMoves(steps: seq<Step>)
    requires Feasible(Init, steps)
    ensures var s := After(Init, steps);
      s.packet == InitRead || s.packet == ReadAnswer ==>
        || Enabled(s, ReadInit) || Enabled(s, ReadAns)
        || Enabled(s, Finish) || Enabled(s, Read) || Enabled(s, WriteQuit) || Enabled(s, Close)
  {
    InitInv();
    RunKeepsInv(Init, steps);
  }

  /** Once process has reported the end, it stays at the end, and nothing that happens later is submitted. */
  lemma EndIsFinal(s: State, steps: seq<Step>)
    requires Inv(s) && s.end && Feasible(s, steps)
    ensures After(s, steps).end && After(s, steps).submitted == s.submitted && After(s, steps).returned == s.returned
    decreases |steps|
  {
    if steps != [] {
      StepKeepsInv(s, steps[0]);
      EndIsFinal(Apply(s, steps[0]), steps[1..]);
    }
  }
}
