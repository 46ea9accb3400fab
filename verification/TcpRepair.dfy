/**
  Sequence-number repair (nat.cc): doApp for TCP and UDP packets, doExtraTCP, and the sends at the
  end of translate. `Forward` is the pure step the methods are proved against; the run theorems in
  StreamRun are about `Forward`.
 */
module TcpRepair {
  import opened Words
  import opened Operations
  import opened ByteLoop
  import opened Parsers
  import opened Buffers
  import opened FlowRewrite

  /** The fields of a flow that repair a TCP connection. */
  datatype Conn = Conn(offsetC2S: int, offsetS2C: int, ignored: bool,
                       initSeq: PerDest<Option<uint32>>, trail: PerDest<string>, line: map<uint32, string>) {
    function Offset(dest: Dest): int {
      if dest == Server then offsetC2S else offsetS2C
    }

    function AddOffset(dest: Dest, delta: int): Conn {
      if dest == Server then this.(offsetC2S := offsetC2S + delta) else this.(offsetS2C := offsetS2C + delta)
    }
  }

  function ConnOf(flow: Flow): Conn
    reads flow
  {
    Conn(flow.offsetC2S, flow.offsetS2C, flow.ignored, flow.initSeq, flow.trail, flow.trailShift)
  }

  function Other(dest: Dest): Dest {
    if dest == Client then Server else Client
  }

  /** One segment put on the wire. */
  datatype Wire = Wire(seqNo: uint32, ackNo: uint32, data: string)

  datatype Sending = Sending(conn: Conn, wires: seq<Wire>)

  // ----- the pure step

  /** nat.cc:246-252 */
  function HeaderSeq(c: Conn, dest: Dest, seqNo: uint32): uint32 {
    Wrap(seqNo + c.Offset(dest))
  }

  function HeaderAck(c: Conn, dest: Dest, ackNo: uint32): uint32 {
    Wrap(ackNo - c.Offset(Other(dest)))
  }

  datatype Edited = Edited(conn: Conn, payload: string)

  /** nat.cc:258-260: in SHIFT mode a TCP segment takes over what is carried to it and holds back as much. */
  function Shifted(c: Conn, mode: Extra, tcp: bool, cur: uint32, next: uint32, payload: string): Edited {
    if mode == ShiftExtra && tcp then
      var d := ShiftStep(c.line, cur, next, payload);
      Edited(c.(line := d.line), d.out)
    else Edited(c, payload)
  }

  /**
    nat.cc:327-328 with Flow::modify: text is the rewritten payload before it is cut, n the old length,
    next the number under which SHIFT mode carries on what is cut off.
   */
  function AfterModify(c: Conn, mode: Extra, tcp: bool, dest: Dest, seqNo: uint32, next: uint32, n: nat, text: string): Edited
  {
    var c1 := if tcp then c.(initSeq := c.initSeq.Set(dest, InitAfter(c.initSeq.Get(dest), seqNo))) else c;
    if CutOff(tcp, n, |text|) then
      Edited(if mode == ShiftExtra then c1.(line := c1.line[next := text[n..]])
             else c1.(trail := c1.trail.Set(dest, text[n..])), text[..n])
    else Edited(c1.AddOffset(dest, |text| - n), text)
  }

  /** nat.cc:116-132: towards the client in TCP mode the trail goes out first, in a segment of its own. */
  function Send(c: Conn, mode: Extra, dest: Dest, seqNo: uint32, ackNo: uint32, payload: string): Sending {
    var trail := c.trail.Get(dest);
    if mode == TcpExtra && dest == Client && payload != "" && !c.ignored && trail != "" then
      Sending(c.(trail := c.trail.Set(dest, "")).AddOffset(dest, |trail|),
              [Wire(Wrap(seqNo + |payload|), ackNo, trail), Wire(seqNo, ackNo, payload)])
    else Sending(c, [Wire(seqNo, ackNo, payload)])
  }

  /**
    The flow and the payload after doApp. edited says whether the parser returned operations; seqNo is
    the number in the header, cur and next are the sender's numbers of this segment and the next.
   */
  function Applied(c: Conn, mode: Extra, tcp: bool, dest: Dest, seqNo: uint32, cur: uint32, next: uint32, payload: string,
                   edited: bool, text: string): Edited
  {
    if payload == "" || c.ignored then Edited(c, payload)
    else
      var shifted := Shifted(c, mode, tcp, cur, next, payload);
      if edited then AfterModify(shifted.conn, mode, tcp, dest, seqNo, next, |payload|, text) else shifted
  }

  /** A TCP packet through doApp and out. */
  function Forward(c: Conn, mode: Extra, dest: Dest, seqNo: uint32, ackNo: uint32, payload: string,
                   edited: bool, text: string): Sending
  {
    var s, a := HeaderSeq(c, dest, seqNo), HeaderAck(c, dest, ackNo);
    var e := Applied(c, mode, true, dest, s, seqNo, Wrap(seqNo + |payload|), payload, edited, text);
    Send(e.conn, mode, dest, s, a, e.payload)
  }

  lemma ForwardIs(c: Conn, mode: Extra, dest: Dest, seqNo: uint32, ackNo: uint32, payload: string,
                  edited: bool, text: string, e: Edited, cap: nat)
    requires e == Applied(c, mode, true, dest, HeaderSeq(c, dest, seqNo), seqNo, Wrap(seqNo + |payload|), payload, edited, text)
    requires |c.trail.Get(dest)| <= cap && |text| <= cap
    ensures |e.conn.trail.Get(dest)| <= cap
    ensures Forward(c, mode, dest, seqNo, ackNo, payload, edited, text)
      == Send(e.conn, mode, dest, HeaderSeq(c, dest, seqNo), HeaderAck(c, dest, ackNo), e.payload)
  {
  }

  /** A UDP packet leaves with the whole rewritten text, however long; nothing waits for a later packet. */
  lemma UdpIsNeverCut(c: Conn, mode: Extra, dest: Dest, seqNo: uint32, cur: uint32, next: uint32, payload: string, text: string)
    requires payload != "" && !c.ignored
    ensures Applied(c, mode, false, dest, seqNo, cur, next, payload, true, text)
      == Edited(c.AddOffset(dest, |text| - |payload|), text)
  {
  }

  /** So does a TCP packet of up to 1400 bytes; a longer one that grows is cut to its old length. */
  lemma OnlyFullPacketsAreCut(c: Conn, mode: Extra, dest: Dest, seqNo: uint32, cur: uint32, next: uint32, payload: string,
                              text: string)
    requires payload != "" && !c.ignored
    ensures var e := Applied(c, mode, true, dest, seqNo, cur, next, payload, true, text);
      if |payload| > 1400 && |text| > |payload| then e.payload == text[..|payload|] && e.conn.Offset(dest) == c.Offset(dest)
      else e.payload == text && e.conn.Offset(dest) == c.Offset(dest) + |text| - |payload| && e.conn.trail == c.trail
  {
  }

  /** Without a payload, in an ignored flow, or without operations a packet is passed on as it is outside SHIFT mode. */
  lemma PassedOnUnchanged(c: Conn, mode: Extra, dest: Dest, seqNo: uint32, ackNo: uint32, payload: string, edited: bool,
                          text: string)
    requires payload == "" || c.ignored || (!edited && mode != ShiftExtra)
    requires mode == TcpExtra && dest == Client ==> c.trail.client == ""
    ensures Forward(c, mode, dest, seqNo, ackNo, payload, edited, text)
      == Sending(c, [Wire(HeaderSeq(c, dest, seqNo), HeaderAck(c, dest, ackNo), payload)])
  {
  }

  // ----- the protocol loop of doApp

  /** What a configured protocol's parser answers for the packet; no parser if the direction is "none". */
  datatype Offer = Offer(name: string, transport: string, parser: Parser?, ops: seq<Operation>, correct: bool) {
    predicate Tried(tcp: bool, udp: bool) {
      !(transport == "tcp" && !tcp) && !(transport == "udp" && !udp) && parser != null
    }

    predicate Edits(tcp: bool, udp: bool) {
      Tried(tcp, udp) && ops != []
    }
  }

  /** The protocols that recognised the text without wanting to change it. */
  function Guesses(offers: seq<Offer>, tcp: bool, udp: bool): seq<string> {
    if offers == [] then []
    else (if offers[0].Tried(tcp, udp) && offers[0].ops == [] && offers[0].correct then [offers[0].name] else [])
         + Guesses(offers[1..], tcp, udp)
  }

  lemma {:induction false} GuessesOfPrefix(offers: seq<Offer>, tcp: bool, udp: bool, i: nat)
    requires i < |offers|
    ensures Guesses(offers[..i + 1], tcp, udp) == Guesses(offers[..i], tcp, udp) + Guesses([offers[i]], tcp, udp)
  {
    if i == 0 {
      assert offers[..1] == [offers[0]];
    } else {
      GuessesOfPrefix(offers[1..], tcp, udp, i - 1);
      assert offers[1..][..i] == offers[..i + 1][1..] && offers[1..][..i - 1] == offers[..i][1..];
    }
  }

  /** What the loop remembers of the guesses: the last one, and how many there are. */
  predicate Guessed(g: seq<string>, guess: string, count: int) {
    count == |g| && (g != [] ==> guess == g[|g| - 1])
  }

  lemma NextGuess(offers: seq<Offer>, tcp: bool, udp: bool, i: nat, guess: string, count: int)
    requires i < |offers| && Guessed(Guesses(offers[..i], tcp, udp), guess, count)
    ensures var o, next := offers[i], Guesses(offers[..i + 1], tcp, udp);
      if o.Tried(tcp, udp) && o.ops == [] && o.correct then Guessed(next, o.name, count + 1)
      else Guessed(next, guess, count)
  {
    GuessesOfPrefix(offers, tcp, udp, i);
    assert [offers[i]][1..] == [] && Guesses([], tcp, udp) == [];
  }

  /** The parser tells that it knows the protocol, without wanting to change anything. */
  predicate Recognises(o: Offer, tcp: bool, udp: bool) {
    o.parser != null && o.ops == [] && o.correct && (o.transport == "tcp" ==> tcp) && (o.transport == "udp" ==> udp)
  }

  /** There is one guess if and only if one protocol alone recognises the text, and it is that one. */
  lemma {:induction false} LoneGuess(offers: seq<Offer>, tcp: bool, udp: bool, k: nat)
    requires k < |offers| && Recognises(offers[k], tcp, udp)
    ensures Guesses(offers, tcp, udp) != []
    ensures (forall j :: 0 <= j < |offers| && j != k ==> !Recognises(offers[j], tcp, udp)) ==>
      Guesses(offers, tcp, udp) == [offers[k].name]
    ensures (exists j :: 0 <= j < |offers| && j != k && Recognises(offers[j], tcp, udp)) ==> |Guesses(offers, tcp, udp)| >= 2
    decreases |offers|
  {
    var rest := offers[1..];
    if k > 0 {
      LoneGuess(rest, tcp, udp, k - 1);
      if Recognises(offers[0], tcp, udp) {
        assert |Guesses(offers, tcp, udp)| == 1 + |Guesses(rest, tcp, udp)|;
      }
      forall j | 0 <= j < |offers| && j != k && Recognises(offers[j], tcp, udp) ensures |Guesses(offers, tcp, udp)| >= 2 {
        assert j > 0 ==> rest[j - 1] == offers[j] && j - 1 != k - 1;
      }
    } else if exists j :: 0 < j < |offers| && Recognises(offers[j], tcp, udp) {
      var j :| 0 < j < |offers| && Recognises(offers[j], tcp, udp);
      assert rest[j - 1] == offers[j];
      LoneGuess(rest, tcp, udp, j - 1);
    } else {
      NoGuess(rest, tcp, udp);
    }
  }

  lemma {:induction false} NoGuess(offers: seq<Offer>, tcp: bool, udp: bool)
    requires forall j :: 0 <= j < |offers| ==> !Recognises(offers[j], tcp, udp)
    ensures Guesses(offers, tcp, udp) == []
    decreases |offers|
  {
    if offers != [] {
      forall j | 0 <= j < |offers[1..]| ensures !Recognises(offers[1..][j], tcp, udp) {
        assert offers[1..][j] == offers[j + 1];
      }
      NoGuess(offers[1..], tcp, udp);
    }
  }

  predicate Chosen(o: Offer, ops: seq<Operation>, parser: Parser?) {
    parser == o.parser && ops == if o.parser == null then [] else o.ops
  }

  predicate FirstNamed(offers: seq<Offer>, name: string, k: int) {
    0 <= k < |offers| && offers[k].name == name && forall j :: 0 <= j < k ==> offers[j].name != name
  }

  predicate FirstToEdit(offers: seq<Offer>, tcp: bool, udp: bool, k: int) {
    0 <= k < |offers| && offers[k].Edits(tcp, udp) && forall j :: 0 <= j < k ==> !offers[j].Edits(tcp, udp)
  }

  /**
    nat.cc:277-319. The first protocol whose parser edits wins and is remembered; if none edits, a
    single protocol that recognised the text is remembered. A remembered protocol is not left again: its
    parser alone answers.
   */
  method ChooseOperations(flow: Flow, tcp: bool, udp: bool, offers: seq<Offer>)
    returns (ops: seq<Operation>, parser: Parser?)
    modifies flow`protocol
    ensures ops != [] ==> parser != null
    ensures old(flow.protocol) == "" ==> (
      ops == [] <==> forall k :: 0 <= k < |offers| && offers[k].parser != null && offers[k].ops != [] ==>
        (offers[k].transport == "tcp" && !tcp) || (offers[k].transport == "udp" && !udp))
    ensures old(flow.protocol) != "" ==> flow.protocol == old(flow.protocol)
    ensures old(flow.protocol) != "" ==>
      if exists k :: FirstNamed(offers, flow.protocol, k) then
        exists k :: FirstNamed(offers, flow.protocol, k) && Chosen(offers[k], ops, parser)
      else ops == [] && parser == null
    ensures old(flow.protocol) == "" ==>
      if exists k :: FirstToEdit(offers, tcp, udp, k) then
        exists k :: FirstToEdit(offers, tcp, udp, k) && Chosen(offers[k], ops, parser) && flow.protocol == offers[k].name
      else
        var g := Guesses(offers, tcp, udp);
        ops == [] && flow.protocol == if |g| == 1 then g[0] else ""
  {
    if flow.protocol == "" {
      ops, parser := TryAll(flow, tcp, udp, offers);
    } else {
      ops, parser := AskRemembered(flow, offers);
    }
  }

  /** nat.cc:283-309, nat.cc:316-319: all protocols are tried until one edits. */
  method TryAll(flow: Flow, tcp: bool, udp: bool, offers: seq<Offer>) returns (ops: seq<Operation>, parser: Parser?)
    requires flow.protocol == ""
    modifies flow`protocol
    ensures ops != [] ==> parser != null
    ensures ops == [] <==> forall k :: 0 <= k < |offers| && offers[k].parser != null && offers[k].ops != [] ==>
      (offers[k].transport == "tcp" && !tcp) || (offers[k].transport == "udp" && !udp)
    ensures if exists k :: FirstToEdit(offers, tcp, udp, k) then
        exists k :: FirstToEdit(offers, tcp, udp, k) && Chosen(offers[k], ops, parser) && flow.protocol == offers[k].name
      else
        var g := Guesses(offers, tcp, udp);
        ops == [] && flow.protocol == if |g| == 1 then g[0] else ""
  {
    ops, parser := [], null;
    var guess, count, i := "", 0, 0;
    while i < |offers|
      invariant 0 <= i <= |offers| && ops == [] && flow.protocol == ""
      invariant forall j :: 0 <= j < i ==> !offers[j].Edits(tcp, udp)
      invariant Guessed(Guesses(offers[..i], tcp, udp), guess, count)
    {
      var o := offers[i];
      NextGuess(offers, tcp, udp, i, guess, count);
      if !(o.transport == "tcp" && !tcp) && !(o.transport == "udp" && !udp) {
        parser := o.parser;
        if parser != null {
          ops := o.ops;
          if |ops| > 0 {
            assert FirstToEdit(offers, tcp, udp, i);
            flow.protocol := o.name;
            return;
          } else if o.correct {
            guess, count := o.name, count + 1;
          }
        }
      }
      i := i + 1;
    }
    assert offers[..i] == offers;
    if count == 1 {
      flow.protocol := guess;
    }
  }

  /** nat.cc:310-315: only the remembered protocol's parser is asked. */
  method AskRemembered(flow: Flow, offers: seq<Offer>) returns (ops: seq<Operation>, parser: Parser?)
    ensures ops != [] ==> parser != null
    ensures if exists k :: FirstNamed(offers, flow.protocol, k) then
        exists k :: FirstNamed(offers, flow.protocol, k) && Chosen(offers[k], ops, parser)
      else ops == [] && parser == null
  {
    ops, parser := [], null;
    var i := 0;
    while i < |offers| && offers[i].name != flow.protocol
      invariant 0 <= i <= |offers| && forall j :: 0 <= j < i ==> offers[j].name != flow.protocol
    {
      i := i + 1;
    }
    if i < |offers| {
      assert FirstNamed(offers, flow.protocol, i);
      parser := offers[i].parser;
      if parser != null {
        ops := offers[i].ops;
      }
    }
  }

  // ----- the methods

  /** The sequence number doApp has written by the time the payload is rewritten. */
  ghost function AppSeq(flow: Flow, pkt: Packet): uint32
    reads flow, pkt
  {
    if pkt.tcp then HeaderSeq(ConnOf(flow), pkt.dest, pkt.seqNo) else pkt.seqNo
  }

  ghost function AppOffset(flow: Flow, pkt: Packet): int
    reads flow, pkt
  {
    if pkt.tcp then PacketOffset(flow.initSeq.Get(pkt.dest), AppSeq(flow, pkt)) else 0
  }

  /** At the offset the flow computes for the packet, the loop stays inside the input buffer. */
  ghost predicate EditsRun(flow: Flow, pkt: Packet, ops: seq<Operation>)
    reads flow, pkt
  {
    pkt.Valid() && Runs(pkt.ibuf.Length, pkt.PayloadLen(), Sort(ops), AppOffset(flow, pkt))
  }

  ghost function AppText(flow: Flow, pkt: Packet, ops: seq<Operation>, parser: Parser): string
    reads flow, pkt, pkt.ibuf, parser
    requires EditsRun(flow, pkt, ops)
  {
    Rewritten(pkt.ibuf[..], pkt.PayloadLen(), Sort(ops), AppOffset(flow, pkt), parser.maxPos, parser.maxLen, parser.http)
  }

  /** Where operations are applied, the loop can run and the result fits into the output buffer. */
  ghost predicate CanApply(flow: Flow, pkt: Packet, ops: seq<Operation>, parser: Parser)
    reads flow, pkt, pkt.ibuf, parser
  {
    pkt.Valid() && (Applies(flow, pkt, ops) ==>
      && EditsRun(flow, pkt, ops)
      && |AppText(flow, pkt, ops, parser)| <= pkt.obuf.Length
      && pkt.PayloadLen() + TotalDelta(Sort(ops)) <= pkt.obuf.Length)
  }

  /** In SHIFT mode a segment is not shorter than what is carried to it. */
  ghost predicate CanShift(flow: Flow, pkt: Packet, extra: Extra)
    reads flow, pkt
  {
    extra == ShiftExtra && pkt.tcp && pkt.PayloadLen() > 0 && !flow.ignored ==>
      |Carry(flow.trailShift, pkt.curSeq)| <= pkt.PayloadLen()
  }

  ghost predicate Applies(flow: Flow, pkt: Packet, ops: seq<Operation>)
    reads flow, pkt
  {
    ops != [] && pkt.PayloadLen() > 0 && !flow.ignored
  }

  class Nat {
    var extTcpFlow: Flow?
    var modified: bool

    constructor ()
      ensures extTcpFlow == null && !modified
    {
      extTcpFlow, modified := null, false;
    }

    /** nat.cc:242-253 */
    method RewriteHeader(pkt: Packet, flow: Flow)
      requires pkt.tcp
      modifies pkt`seqNo, pkt`ackNo
      ensures pkt.seqNo == HeaderSeq(ConnOf(flow), pkt.dest, old(pkt.seqNo))
      ensures pkt.ackNo == HeaderAck(ConnOf(flow), pkt.dest, old(pkt.ackNo))
    {
      var offsetC2S, offsetS2C := flow.Offset(Server), flow.Offset(Client);
      if pkt.dest == Server {
        pkt.seqNo := Wrap(pkt.seqNo + offsetC2S);
        pkt.ackNo := Wrap(pkt.ackNo - offsetS2C);
      } else {
        pkt.ackNo := Wrap(pkt.ackNo - offsetC2S);
        pkt.seqNo := Wrap(pkt.seqNo + offsetS2C);
      }
    }

    /**
      nat.cc:220-331 outside analysis mode; ops and parser are what ChooseOperations returns for the
      packet's text, which in SHIFT mode is the shifted one.
     */
    method DoApp(pkt: Packet, flow: Flow, ops: seq<Operation>, parser: Parser, extra: Extra)
      requires CanApply(flow, pkt, ops, parser) && CanShift(flow, pkt, extra) && (pkt.tcp || pkt.udp)
      modifies this, pkt`seqNo, pkt`ackNo, pkt`transportLen, pkt.obuf, parser`maxPos
      modifies flow`offsetC2S, flow`offsetS2C, flow`trail, flow`trailShift, flow`initSeq, flow`segments
      ensures pkt.Valid() && extTcpFlow == flow
      ensures pkt.tcp ==> pkt.seqNo == HeaderSeq(old(ConnOf(flow)), pkt.dest, old(pkt.seqNo))
      ensures pkt.tcp ==> pkt.ackNo == HeaderAck(old(ConnOf(flow)), pkt.dest, old(pkt.ackNo))
      ensures Edited(ConnOf(flow), pkt.Payload()) == Applied(old(ConnOf(flow)), extra, pkt.tcp, pkt.dest,
        old(AppSeq(flow, pkt)), pkt.curSeq, pkt.nextSeq, old(pkt.Payload()), ops != [],
        if old(Applies(flow, pkt, ops)) then old(AppText(flow, pkt, ops, parser)) else "")
      ensures old(Applies(flow, pkt, ops)) && (!pkt.tcp || old(pkt.PayloadLen()) <= 1400) ==>
        pkt.Payload() == old(AppText(flow, pkt, ops, parser)) && flow.trail == old(flow.trail)
      ensures !old(Applies(flow, pkt, ops)) && (!pkt.tcp || extra != ShiftExtra) ==>
        pkt.Payload() == old(pkt.Payload()) && ConnOf(flow) == old(ConnOf(flow))
      ensures modified == (old(modified) || old(Applies(flow, pkt, ops)))
      ensures flow.segments ==
        if pkt.tcp && old(pkt.PayloadLen()) > 0 && !flow.ignored then
          old(flow.segments).Set(pkt.dest, Counted(old(flow.segments).Get(pkt.dest),
            Segment(pkt.ibufSeq, Wrap(old(pkt.PayloadLen())))))
        else old(flow.segments)
    {
      extTcpFlow := flow;
      if pkt.tcp {
        RewriteHeader(pkt, flow);
      }
      if pkt.PayloadLen() <= 0 || flow.ignored {
        return;
      }
      if pkt.tcp {
        TakeOver(pkt, flow, extra);
      }
      if |ops| > 0 {
        assert flow.OffsetFor(pkt) == old(AppOffset(flow, pkt));
        assert flow.NewText(pkt, ops, parser) == old(AppText(flow, pkt, ops, parser));
        ApplyEdits(pkt, flow, ops, parser, extra);
      }
    }

    /** nat.cc:258-274: the delay line of SHIFT mode, and the record of segments. */
    method TakeOver(pkt: Packet, flow: Flow, extra: Extra)
      requires pkt.Valid() && pkt.tcp
      requires extra == ShiftExtra ==> |Carry(flow.trailShift, pkt.curSeq)| <= pkt.PayloadLen()
      modifies pkt.obuf, flow`trailShift, flow`segments
      ensures Edited(ConnOf(flow), pkt.Payload()) ==
        Shifted(old(ConnOf(flow)), extra, true, pkt.curSeq, pkt.nextSeq, old(pkt.Payload()))
      ensures flow.segments == old(flow.segments).Set(pkt.dest, Counted(old(flow.segments).Get(pkt.dest),
        Segment(pkt.ibufSeq, Wrap(pkt.PayloadLen()))))
    {
      flow.Shift(pkt, extra);
      flow.Count(pkt);
    }

    /** nat.cc:324-329, on a packet whose header is already rewritten. */
    method ApplyEdits(pkt: Packet, flow: Flow, ops: seq<Operation>, parser: Parser, extra: Extra)
      requires pkt.Valid() && (pkt.tcp || pkt.udp) && ops != []
      requires flow.Ready(pkt, ops) && flow.Room(pkt, ops, parser)
      modifies this`modified, pkt`transportLen, pkt.obuf, parser`maxPos
      modifies flow`offsetC2S, flow`offsetS2C, flow`trail, flow`trailShift, flow`initSeq
      ensures pkt.Valid() && modified
      ensures Edited(ConnOf(flow), pkt.Payload()) == AfterModify(old(ConnOf(flow)), extra, pkt.tcp, pkt.dest,
        pkt.seqNo, pkt.nextSeq, old(pkt.PayloadLen()), old(flow.NewText(pkt, ops, parser)))
    {
      modified := true;
      var delta := flow.Modify(pkt, ops, parser, extra);
      flow.AddOffset(pkt.dest, delta);
    }

    /** nat.cc:45-70 */
    method DoExtraTcp(pkt: Packet) returns (done: bool)
      requires pkt.Valid()
      requires extTcpFlow != null ==> |extTcpFlow.trail.Get(pkt.dest)| <= pkt.obuf.Length
      modifies pkt`seqNo, pkt`transportLen, pkt.obuf
      modifies (if extTcpFlow == null then {} else {extTcpFlow})`trail
      modifies (if extTcpFlow == null then {} else {extTcpFlow})`offsetC2S
      modifies (if extTcpFlow == null then {} else {extTcpFlow})`offsetS2C
      ensures pkt.Valid() && extTcpFlow == old(extTcpFlow)
      ensures done <==>
        && extTcpFlow != null && pkt.tcp && old(pkt.PayloadLen()) > 0
        && !old(extTcpFlow.ignored) && old(extTcpFlow.trail.Get(pkt.dest)) != ""
      ensures done ==>
        var c, trail := old(ConnOf(extTcpFlow)), old(extTcpFlow.trail.Get(pkt.dest));
        && pkt.Payload() == trail && pkt.seqNo == Wrap(old(pkt.seqNo) + old(pkt.PayloadLen()))
        && ConnOf(extTcpFlow) == c.(trail := c.trail.Set(pkt.dest, "")).AddOffset(pkt.dest, |trail|)
      ensures !done && extTcpFlow != null ==> ConnOf(extTcpFlow) == old(ConnOf(extTcpFlow))
      ensures !done ==> pkt.Payload() == old(pkt.Payload()) && pkt.seqNo == old(pkt.seqNo)
    {
      var len, hl := pkt.transportLen, pkt.headerLen;
      if extTcpFlow == null || !pkt.tcp {
        return false;
      }
      if len <= hl || extTcpFlow.ignored {
        return false;
      }
      var trail := extTcpFlow.trail.Get(pkt.dest);
      var newLen := |trail|;
      if newLen > 0 {
        CopyInto(pkt.obuf, 0, trail);
        pkt.transportLen := newLen + hl;
        pkt.seqNo := Wrap(pkt.seqNo + len - hl);
        extTcpFlow.AddOffset(pkt.dest, newLen);
        extTcpFlow.trail := extTcpFlow.trail.Set(pkt.dest, "");
        assert pkt.obuf[..newLen] == trail;
        return true;
      }
      return false;
    }

    /** A TCP packet through doApp and the sends of nat.cc:113-133. */
    method Translate(pkt: Packet, flow: Flow, ops: seq<Operation>, parser: Parser, extra: Extra)
      returns (wires: seq<Wire>)
      requires CanApply(flow, pkt, ops, parser) && CanShift(flow, pkt, extra) && pkt.tcp
      requires pkt.curSeq == pkt.seqNo && pkt.nextSeq == Wrap(pkt.seqNo + pkt.PayloadLen())
      requires |flow.trail.Get(pkt.dest)| <= pkt.obuf.Length
      modifies this, pkt`seqNo, pkt`ackNo, pkt`transportLen, pkt.obuf, parser`maxPos
      modifies flow`offsetC2S, flow`offsetS2C, flow`trail, flow`trailShift, flow`initSeq, flow`segments
      ensures modified == old(Applies(flow, pkt, ops))
      ensures flow.segments ==
        if old(pkt.PayloadLen()) > 0 && !flow.ignored then
          old(flow.segments).Set(pkt.dest, Counted(old(flow.segments).Get(pkt.dest),
            Segment(pkt.ibufSeq, Wrap(old(pkt.PayloadLen())))))
        else old(flow.segments)
      ensures Sending(ConnOf(flow), wires) == Forward(old(ConnOf(flow)), extra, pkt.dest, old(pkt.seqNo), old(pkt.ackNo),
        old(pkt.Payload()), ops != [],
        if old(Applies(flow, pkt, ops)) then old(AppText(flow, pkt, ops, parser)) else "")
    {
      ghost var text := if Applies(flow, pkt, ops) then AppText(flow, pkt, ops, parser) else "";
      AppFirst(pkt, flow, ops, parser, extra, text);
      wires := SendSegments(pkt, flow, extra);
    }

    /** nat.cc:93-103: doApp, with the flag of the packet before it reset. */
    method AppFirst(pkt: Packet, flow: Flow, ops: seq<Operation>, parser: Parser, extra: Extra, ghost text: string)
      requires CanApply(flow, pkt, ops, parser) && CanShift(flow, pkt, extra) && pkt.tcp
      requires pkt.curSeq == pkt.seqNo && pkt.nextSeq == Wrap(pkt.seqNo + pkt.PayloadLen())
      requires |flow.trail.Get(pkt.dest)| <= pkt.obuf.Length
      requires text == if Applies(flow, pkt, ops) then AppText(flow, pkt, ops, parser) else ""
      modifies this, pkt`seqNo, pkt`ackNo, pkt`transportLen, pkt.obuf, parser`maxPos
      modifies flow`offsetC2S, flow`offsetS2C, flow`trail, flow`trailShift, flow`initSeq, flow`segments
      ensures modified == old(Applies(flow, pkt, ops))
      ensures flow.segments ==
        if old(pkt.PayloadLen()) > 0 && !flow.ignored then
          old(flow.segments).Set(pkt.dest, Counted(old(flow.segments).Get(pkt.dest),
            Segment(pkt.ibufSeq, Wrap(old(pkt.PayloadLen())))))
        else old(flow.segments)
      ensures pkt.Valid() && extTcpFlow == flow && |flow.trail.Get(pkt.dest)| <= pkt.obuf.Length
      ensures Send(ConnOf(flow), extra, pkt.dest, pkt.seqNo, pkt.ackNo, pkt.Payload())
        == Forward(old(ConnOf(flow)), extra, pkt.dest, old(pkt.seqNo), old(pkt.ackNo), old(pkt.Payload()), ops != [], text)
    {
      ghost var c, payload := ConnOf(flow), pkt.Payload();
      modified := false;
      DoApp(pkt, flow, ops, parser, extra);
      ForwardIs(c, extra, pkt.dest, pkt.curSeq, old(pkt.ackNo), payload, ops != [], text,
                Edited(ConnOf(flow), pkt.Payload()), pkt.obuf.Length);
    }

    /** nat.cc:113-133: the segments of a packet that doApp has passed. */
    method SendSegments(pkt: Packet, flow: Flow, extra: Extra) returns (wires: seq<Wire>)
      requires pkt.Valid() && pkt.tcp && extTcpFlow == flow && |flow.trail.Get(pkt.dest)| <= pkt.obuf.Length
      modifies pkt`seqNo, pkt`transportLen, pkt.obuf, flow`trail, flow`offsetC2S, flow`offsetS2C
      ensures Sending(ConnOf(flow), wires) ==
        Send(old(ConnOf(flow)), extra, pkt.dest, old(pkt.seqNo), pkt.ackNo, old(pkt.Payload()))
    {
      wires := [];
      var sent := Wire(pkt.seqNo, pkt.ackNo, pkt.obuf[..pkt.PayloadLen()]);
      if pkt.dest == Client && extra == TcpExtra {
        var done := DoExtraTcp(pkt);
        if done {
          wires := wires + [Wire(pkt.seqNo, pkt.ackNo, pkt.obuf[..pkt.PayloadLen()])];
        }
      }
      wires := wires + [sent];
    }
  }
}
