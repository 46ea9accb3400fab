/**
  Where in the stream the gateway believes a packet to be (flow.cc:80-94, flow.cc:118-122,
  flow.cc:220-242), and what follows for edits spread over several packets.
 */
module StreamPositions {
  import opened Words
  import opened Operations
  import opened Splicing
  import opened ByteMachine
  import opened ByteLoop
  import opened FlowRewrite
  import opened TcpRepair
  import opened Parsers
  import opened StreamRun

  /**
    The packet offset is the distance from the first edited segment in the sender's own numbers if
    and only if the flow's offset is what it was when init_seq was recorded.
   */
  lemma PacketOffsetExactly(seqThen: uint32, offsetThen: int, seqNow: uint32, offsetNow: int)
    ensures PacketOffset(Some(Wrap(seqThen + offsetThen)), Wrap(seqNow + offsetNow)) == AsInt32(Wrap(seqNow - seqThen))
       <==> Wrap(offsetNow - offsetThen) == 0
  {
    DifferenceOfWraps(seqNow + offsetNow, seqThen + offsetThen);
    EqualWraps(seqNow - seqThen, offsetNow - offsetThen);
  }

  /** The packet offset is the one distance from init_seq, modulo 2^32, that a signed 32-bit number can hold. */
  lemma OffsetIsSignedDistance(first: uint32, seqNo: uint32)
    ensures var off := PacketOffset(Some(first), seqNo); -0x8000_0000 <= off < 0x8000_0000 && Wrap(first + off) == seqNo
  {
    DistanceWraps(first, seqNo, Wrap(seqNo - first));
  }

  lemma DistanceWraps(first: uint32, seqNo: uint32, u: uint32)
    requires u == Wrap(seqNo - first)
    ensures Wrap(first + AsInt32(u)) == seqNo
  {
    var f: int, d: int := first, seqNo - first;
    assert AsInt32(u) == d || AsInt32(u) == d + TWO_32 || AsInt32(u) == d - TWO_32;
  }

  lemma DifferenceOfWraps(a: int, b: int)
    ensures Wrap(Wrap(a) as int - Wrap(b) as int) == Wrap(a - b)
  {
  }

  /** An edit that grows the stream makes the next edit land on the wrong byte. */
  lemma OffsetAfterGrowthIsWrong(a: Arrival, b: Arrival)
    requires a == Arrival(Client, 1000, 0, "ab", "", 0, [Operation(0, 0, "X", false)], NoLimit)
    requires b == Arrival(Client, 1002, 0, "cd", "", 2, [Operation(3, 4, "Y", false)], NoLimit)
    ensures Acceptable(Fresh, a) && Acceptable(Step(Fresh, TcpExtra, a).conn, b)
    ensures Text(Step(Fresh, TcpExtra, a).conn, b) == "Yd" && Fits(b.ops, 2, 4) && Splice("cd", b.ops, 2) == "cY"
  {
    InsertOne(a, "ab");
    InsertOneStep(a, "ab");
    ReplaceSecond(Step(Fresh, TcpExtra, a).conn, b, b.ops);
  }

  lemma ReplaceSecond(c: Conn, b: Arrival, ops: seq<Operation>)
    requires c == Conn(0, 1, false, PerDest(Some(1000), None), PerDest("", ""), map[])
    requires b == Arrival(Client, 1002, 0, "cd", "", 2, ops, NoLimit) && ops == [Operation(3, 4, "Y", false)]
    ensures Acceptable(c, b) && Text(c, b) == "Yd" && Fits(ops, 2, 4) && Splice("cd", ops, 2) == "cY"
  {
    SortOfSorted(ops);
    assert ops[1..] == [] && OffsetOf(c, b) == 3 && Separated(ops);
    SeparatedRun(2, ops, 3);
    SeparatedIsSweepable(ops, 5);
    assert "cd" + "" == "cd";
    TextIsSplice(c, b);
    assert ReplaceOne("cd", 0, 1, "Y") == "Yd" && ReplaceOne("cd", 1, 2, "Y") == "cY";
  }

  function SumLens(segs: seq<Segment>): nat {
    if segs == [] then 0 else segs[|segs| - 1].len as int + SumLens(segs[..|segs| - 1])
  }

  /** The segments of a packet sequence that Flow::count records. */
  function Recorded(packets: seq<Segment>): seq<Segment> {
    if packets == [] then [] else Counted(Recorded(packets[..|packets| - 1]), packets[|packets| - 1])
  }

  /** Each segment starts where the one before it ends. */
  predicate Chained(segs: seq<Segment>) {
    |segs| <= 1 || (Chained(segs[..|segs| - 1]) && segs[|segs| - 1].seqNo == segs[|segs| - 2].Next())
  }

  lemma {:induction false} RecordedIsChained(packets: seq<Segment>)
    ensures Chained(Recorded(packets))
  {
    if packets != [] {
      var before, s := Recorded(packets[..|packets| - 1]), packets[|packets| - 1];
      RecordedIsChained(packets[..|packets| - 1]);
      assert (before + [s])[..|before|] == before;
    }
  }

  /** Of segments in order and without loss every one is recorded. */
  lemma {:induction false} InOrderAllRecorded(packets: seq<Segment>)
    requires Chained(packets)
    ensures Recorded(packets) == packets
  {
    if packets != [] {
      var front := packets[..|packets| - 1];
      InOrderAllRecorded(front);
      assert packets == front + [packets[|packets| - 1]];
    }
  }

  /** A segment is recorded if and only if it is the first one or starts where the last one recorded ends. */
  lemma RecordedExactly(packets: seq<Segment>, s: Segment)
    ensures var before, after := Recorded(packets), Recorded(packets + [s]);
      if before == [] || s.seqNo == Wrap(before[|before| - 1].seqNo + before[|before| - 1].len) then after == before + [s]
      else after == before
  {
    assert (packets + [s])[..|packets|] == packets;
  }

  /** Counted from the first segment, the last one starts at the sum of the lengths before it. */
  lemma {:induction false} ChainPosition(segs: seq<Segment>)
    requires Chained(segs) && segs != []
    ensures segs[|segs| - 1].seqNo == Wrap(segs[0].seqNo + SumLens(segs[..|segs| - 1]))
  {
    var before := segs[..|segs| - 1];
    if |segs| > 1 {
      ChainPosition(before);
      var last, sum: int := before[|before| - 1], SumLens(before[..|before| - 1]);
      NextOfWrapped(last, segs[0].seqNo, sum);
    }
  }

  lemma NextOfWrapped(s: Segment, first: int, sum: int)
    requires s.seqNo == Wrap(first + sum)
    ensures s.Next() == Wrap(first + (s.len as int + sum))
  {
    WrapAdd(first + sum, s.len as int);
  }

  lemma {:induction false} ChainPrefix(segs: seq<Segment>, k: nat)
    requires Chained(segs) && k <= |segs|
    ensures Chained(segs[..k])
    decreases |segs|
  {
    if k < |segs| && |segs| > 1 {
      ChainPrefix(segs[..|segs| - 1], k);
      assert segs[..|segs| - 1][..k] == segs[..k];
    } else if k == |segs| {
      assert segs[..k] == segs;
    }
  }

  /** For recorded segments the packet offset is the sum of the earlier lengths, if the first one set init_seq. */
  lemma RecordedOffsets(packets: seq<Segment>, k: nat)
    requires k < |Recorded(packets)|
    ensures var segs := Recorded(packets);
      PacketOffset(Some(segs[0].seqNo), segs[k].seqNo) == AsInt32(Wrap(SumLens(segs[..k])))
  {
    var segs := Recorded(packets);
    RecordedIsChained(packets);
    ChainPrefix(segs, k + 1);
    ChainPosition(segs[..k + 1]);
    assert segs[..k + 1][..k] == segs[..k];
    DistanceFromFirst(segs[0].seqNo, SumLens(segs[..k]));
  }

  lemma DistanceFromFirst(first: uint32, sum: nat)
    ensures PacketOffset(Some(first), Wrap(first + sum)) == AsInt32(Wrap(sum))
  {
    var f: int := first;
    WrapAdd(f + sum, -f);
    assert f + sum + -f == sum;
  }

  // ----- where the parser counts from

  predicate Edited(a: Arrival) {
    a.payload != "" && a.ops != []
  }

  /** An edited packet of the direction. */
  predicate EditedFor(a: Arrival, dest: Dest) {
    a.dest == dest && Edited(a)
  }

  /**
    A packet is given the position that its parser has for it if and only if the parser has started where
    init_seq was recorded. start is the sender's position of the first byte that the parser has read.
   */
  lemma OffsetExactly(c: Conn, a: Arrival, next: int, start: int)
    requires a.seqNo == Wrap(next) && 0 <= next - start < TWO_31
    ensures OffsetOf(c, a) == next - start <==>
      match c.initSeq.Get(a.dest)
      case None => next == start
      case Some(first) => first == Wrap(start + c.Offset(a.dest))
  {
    var off := c.Offset(a.dest);
    WrapAdd(next, off);
    if c.initSeq.Get(a.dest).Some? {
      DistanceIs(c.initSeq.Get(a.dest).value, next + off, next - start, start + off);
    }
  }

  lemma DistanceIs(first: uint32, at: int, n: int, origin: int)
    requires 0 <= n < TWO_31 && origin == at - n
    ensures AsInt32(Wrap(Wrap(at) - first)) == n <==> first == Wrap(origin)
  {
    WrapAdd(at, -(first as int));
    WrapAdd(at, -n);
  }

  /** Every edited packet of the direction is given the position that its parser has for it. */
  predicate Placed(c: Conn, mode: Extra, run: seq<Arrival>, dest: Dest)
    requires AllAcceptable(c, mode, run)
    decreases |run|
  {
    run == [] || (
      && (EditedFor(run[0], dest) ==> OffsetOf(c, run[0]) == run[0].pos)
      && Placed(Step(c, mode, run[0]).conn, mode, run[1..], dest))
  }

  /** The parser of a packet at the sender's position next has started where init_seq is, or will be, recorded. */
  predicate StartRecorded(c: Conn, a: Arrival, next: int) {
    match c.initSeq.Get(a.dest)
    case None => a.pos == 0
    case Some(first) => first == Wrap(next - a.pos + c.Offset(a.dest))
  }

  predicate StartsRecorded(c: Conn, mode: Extra, run: seq<Arrival>, dest: Dest, next: int)
    requires AllAcceptable(c, mode, run)
    decreases |run|
  {
    run == [] || (
      && (EditedFor(run[0], dest) ==> StartRecorded(c, run[0], next))
      && StartsRecorded(Step(c, mode, run[0]).conn, mode, run[1..], dest, Behind(run[0], dest, next)))
  }

  predicate PositionsFit(run: seq<Arrival>) {
    forall i :: 0 <= i < |run| ==> run[i].pos < TWO_31
  }

  lemma NextPositions(run: seq<Arrival>, dest: Dest, next: int, at: int)
    requires run != [] && PositionsFit(run) && InOrder(run, dest, next) && at == Behind(run[0], dest, next)
    ensures run[0].pos < TWO_31 && PositionsFit(run[1..]) && InOrder(run[1..], dest, at)
    ensures run[0].dest == dest ==> run[0].seqNo == Wrap(next)
  {
    forall i | 0 <= i < |run[1..]| ensures run[1..][i].pos < TWO_31 {
      assert run[1..][i] == run[i + 1];
    }
  }

  lemma PlacedUnfolds(c: Conn, mode: Extra, run: seq<Arrival>, dest: Dest, c': Conn)
    requires AllAcceptable(c, mode, run) && run != [] && Same(c', Step(c, mode, run[0]).conn)
    ensures AllAcceptable(c', mode, run[1..])
    ensures Placed(c, mode, run, dest) <==>
      (EditedFor(run[0], dest) ==> OffsetOf(c, run[0]) == run[0].pos) && Placed(c', mode, run[1..], dest)
  {
  }

  lemma StartsUnfold(c: Conn, mode: Extra, run: seq<Arrival>, dest: Dest, next: int, c': Conn, at: int)
    requires AllAcceptable(c, mode, run) && run != [] && Same(c', Step(c, mode, run[0]).conn) && at == Behind(run[0], dest, next)
    ensures AllAcceptable(c', mode, run[1..])
    ensures StartsRecorded(c, mode, run, dest, next) <==>
      (EditedFor(run[0], dest) ==> StartRecorded(c, run[0], next)) && StartsRecorded(c', mode, run[1..], dest, at)
  {
  }

  /** Whatever the parsers count from: edits are placed rightly if and only if each has started at init_seq. */
  lemma {:induction false} PlacedExactly(c: Conn, mode: Extra, run: seq<Arrival>, dest: Dest, next: int)
    requires AllAcceptable(c, mode, run) && InOrder(run, dest, next) && PositionsFit(run)
    ensures Placed(c, mode, run, dest) <==> StartsRecorded(c, mode, run, dest, next)
    decreases |run|
  {
    if run != [] {
      var c', at := Step(c, mode, run[0]).conn, Behind(run[0], dest, next);
      NextPositions(run, dest, next, at);
      PlacedUnfolds(c, mode, run, dest, c');
      StartsUnfold(c, mode, run, dest, next, c', at);
      PlacedExactly(c', mode, run[1..], dest, at);
      if EditedFor(run[0], dest) {
        OffsetExactly(c, run[0], next, next - run[0].pos);
      }
    }
  }

  // ----- a stateful parser

  /** flow.cc:29-32, flow.cc:41-44: one parser reads all payloads of the direction, and has read p bytes before. */
  predicate ReadOn(run: seq<Arrival>, dest: Dest, p: nat) {
    run == [] || (
      && (run[0].dest == dest && run[0].payload != "" ==> run[0].pos == p)
      && ReadOn(run[1..], dest, if run[0].dest == dest then p + |run[0].payload| else p))
  }

  predicate HasEdit(run: seq<Arrival>, dest: Dest) {
    run != [] && (EditedFor(run[0], dest) || HasEdit(run[1..], dest))
  }

  function BytesBeforeEdit(run: seq<Arrival>, dest: Dest): nat {
    if run == [] || EditedFor(run[0], dest) then 0
    else (if run[0].dest == dest then |run[0].payload| else 0) + BytesBeforeEdit(run[1..], dest)
  }

  /** At every edited packet of the direction the flow's offset is home, modulo 2^32. */
  predicate OffsetAtHome(c: Conn, mode: Extra, run: seq<Arrival>, dest: Dest, home: int)
    requires AllAcceptable(c, mode, run)
    decreases |run|
  {
    run == [] || (
      && (EditedFor(run[0], dest) ==> Wrap(c.Offset(dest) - home) == 0)
      && OffsetAtHome(Step(c, mode, run[0]).conn, mode, run[1..], dest, home))
  }

  lemma AtHomeUnfolds(c: Conn, mode: Extra, run: seq<Arrival>, dest: Dest, home: int, c': Conn)
    requires AllAcceptable(c, mode, run) && run != [] && Same(c', Step(c, mode, run[0]).conn)
    ensures AllAcceptable(c', mode, run[1..])
    ensures OffsetAtHome(c, mode, run, dest, home) <==>
      (EditedFor(run[0], dest) ==> Wrap(c.Offset(dest) - home) == 0) && OffsetAtHome(c', mode, run[1..], dest, home)
  {
  }

  /** What a step does to the recorded number and the offset. */
  lemma InitAfterStep(c: Conn, mode: Extra, a: Arrival, dest: Dest, c': Conn)
    requires Acceptable(c, a) && !c.ignored && TrailSent(c, mode) && Same(c', Step(c, mode, a).conn)
    ensures !c'.ignored && TrailSent(c', mode)
    ensures c'.initSeq.Get(dest) ==
      if EditedFor(a, dest) then InitAfter(c.initSeq.Get(dest), HeaderSeq(c, dest, a.seqNo)) else c.initSeq.Get(dest)
    ensures !EditedFor(a, dest) ==> c'.Offset(dest) == c.Offset(dest)
  {
    StepKeepsTrailSent(c, mode, a);
  }

  lemma {:induction false} ReadOnUnfolds(run: seq<Arrival>, dest: Dest, next: int, p: nat, at: int, q: nat)
    requires run != [] && InOrder(run, dest, next) && ReadOn(run, dest, p)
    requires at == Behind(run[0], dest, next) && q == Behind(run[0], dest, p)
    ensures q - p == at - next && InOrder(run[1..], dest, at) && ReadOn(run[1..], dest, q)
    ensures |Payloads(run, dest)| == at - next + |Payloads(run[1..], dest)|
    ensures EditedFor(run[0], dest) ==> run[0].pos == p && run[0].seqNo == Wrap(next)
  {
  }

  /** One step of a run with a stateful parser. */
  lemma NextReadOn(c: Conn, mode: Extra, run: seq<Arrival>, dest: Dest, next: int, p: nat)
    returns (c': Conn, at: int, q: nat)
    requires AllAcceptable(c, mode, run) && InOrder(run, dest, next) && TrailSent(c, mode) && !c.ignored && run != []
    requires ReadOn(run, dest, p)
    ensures Same(c', Step(c, mode, run[0]).conn) && AllAcceptable(c', mode, run[1..])
    ensures TrailSent(c', mode) && !c'.ignored
    ensures at == Behind(run[0], dest, next) && q == p + (at - next) && InOrder(run[1..], dest, at) && ReadOn(run[1..], dest, q)
    ensures |Payloads(run, dest)| == at - next + |Payloads(run[1..], dest)|
    ensures EditedFor(run[0], dest) ==> run[0].pos == p && run[0].seqNo == Wrap(next)
  {
    c', at := Step(c, mode, run[0]).conn, Behind(run[0], dest, next);
    q := Behind(run[0], dest, p);
    ReadOnUnfolds(run, dest, next, p, at, q);
    InitAfterStep(c, mode, run[0], dest, c');
  }

  lemma HomeExactly(c: Conn, a: Arrival, next: int, p: nat, home: int)
    requires a.seqNo == Wrap(next) && a.pos == p < TWO_31 && c.initSeq.Get(a.dest) == Some(Wrap(next - p + home))
    ensures OffsetOf(c, a) == a.pos <==> Wrap(c.Offset(a.dest) - home) == 0
  {
    OffsetExactly(c, a, next, next - p);
    EqualWraps(next - p + home, c.Offset(a.dest) - home);
    assert next - p + home + (c.Offset(a.dest) - home) == next - p + c.Offset(a.dest);
  }

  /** With init_seq recorded at the parser's start, when the offset was home. */
  lemma {:induction false} PlacedAtHome(c: Conn, mode: Extra, run: seq<Arrival>, dest: Dest, next: int, p: nat, home: int)
    requires AllAcceptable(c, mode, run) && InOrder(run, dest, next) && TrailSent(c, mode) && !c.ignored
    requires ReadOn(run, dest, p) && p + |Payloads(run, dest)| < TWO_31
    requires c.initSeq.Get(dest) == Some(Wrap(next - p + home))
    ensures Placed(c, mode, run, dest) <==> OffsetAtHome(c, mode, run, dest, home)
    decreases |run|
  {
    if run != [] {
      var c', at, q := NextReadOn(c, mode, run, dest, next, p);
      PlacedUnfolds(c, mode, run, dest, c');
      AtHomeUnfolds(c, mode, run, dest, home, c');
      InitAfterStep(c, mode, run[0], dest, c');
      assert at - q == next - p;
      PlacedAtHome(c', mode, run[1..], dest, at, q, home);
      if EditedFor(run[0], dest) {
        HomeExactly(c, run[0], next, p, home);
      }
    }
  }

  /**
    A stateful parser that has read p bytes before the run, in a flow in which nothing has been edited: its
    edits are placed rightly if and only if the first edited packet is the first one it reads, and the
    flow's offset is back at its first value whenever an edit comes.
   */
  lemma {:induction false} StatefulPlacedExactly(c: Conn, mode: Extra, run: seq<Arrival>, dest: Dest, next: int, p: nat)
    requires AllAcceptable(c, mode, run) && InOrder(run, dest, next) && TrailSent(c, mode) && !c.ignored
    requires ReadOn(run, dest, p) && p + |Payloads(run, dest)| < TWO_31 && c.initSeq.Get(dest) == None
    ensures Placed(c, mode, run, dest) <==>
      (HasEdit(run, dest) ==> p + BytesBeforeEdit(run, dest) == 0) && OffsetAtHome(c, mode, run, dest, c.Offset(dest))
    decreases |run|
  {
    if run != [] {
      var c', at, q := NextReadOn(c, mode, run, dest, next, p);
      PlacedUnfolds(c, mode, run, dest, c');
      AtHomeUnfolds(c, mode, run, dest, c.Offset(dest), c');
      InitAfterStep(c, mode, run[0], dest, c');
      if EditedFor(run[0], dest) {
        FirstEdit(c, run, dest);
        if p == 0 {
          BehindFirstEdit(c, mode, run[1..], dest, next, run[0].seqNo, c', at, q);
        }
      } else {
        StatefulPlacedExactly(c', mode, run[1..], dest, at, q);
        BytesUnfold(run, dest, at - next);
      }
    }
  }

  lemma BytesUnfold(run: seq<Arrival>, dest: Dest, n: int)
    requires run != [] && !EditedFor(run[0], dest) && n == if run[0].dest == dest then |run[0].payload| else 0
    ensures BytesBeforeEdit(run, dest) == n + BytesBeforeEdit(run[1..], dest) && (HasEdit(run, dest) <==> HasEdit(run[1..], dest))
  {
  }

  /** The packet at which init_seq is recorded. */
  lemma FirstEdit(c: Conn, run: seq<Arrival>, dest: Dest)
    requires run != [] && EditedFor(run[0], dest) && c.initSeq.Get(dest) == None
    ensures OffsetOf(c, run[0]) == 0 && HasEdit(run, dest) && BytesBeforeEdit(run, dest) == 0
  {
  }

  /** What follows it, if it is the first one that the parser reads. */
  lemma {:induction false} BehindFirstEdit(c: Conn, mode: Extra, rest: seq<Arrival>, dest: Dest, next: int, first: uint32,
                                           c': Conn, at: int, q: nat)
    requires c'.initSeq.Get(dest) == InitAfter(None, HeaderSeq(c, dest, first)) && first == Wrap(next) && at - q == next
    requires AllAcceptable(c', mode, rest) && InOrder(rest, dest, at) && TrailSent(c', mode) && !c'.ignored
    requires ReadOn(rest, dest, q) && q + |Payloads(rest, dest)| < TWO_31
    ensures Placed(c', mode, rest, dest) <==> OffsetAtHome(c', mode, rest, dest, c.Offset(dest))
  {
    WrapAdd(next, c.Offset(dest));
    PlacedAtHome(c', mode, rest, dest, at, q, c.Offset(dest));
  }

  // ----- stateless parsers

  /** flow.cc:26-27, flow.cc:38-39: every payload of the direction is read by a parser of its own. */
  predicate ReadAlone(run: seq<Arrival>, dest: Dest) {
    run == [] || (
      && (run[0].dest == dest && run[0].payload != "" ==> run[0].pos == 0)
      && ReadAlone(run[1..], dest))
  }

  /** Every edited packet of the direction leaves the gateway under the number recorded as init_seq. */
  predicate SameNumber(c: Conn, mode: Extra, run: seq<Arrival>, dest: Dest)
    requires AllAcceptable(c, mode, run)
    decreases |run|
  {
    run == [] || (
      && (EditedFor(run[0], dest) ==> HasNumber(c, run[0]))
      && SameNumber(Step(c, mode, run[0]).conn, mode, run[1..], dest))
  }

  predicate HasNumber(c: Conn, a: Arrival) {
    c.initSeq.Get(a.dest) == None || c.initSeq.Get(a.dest) == Some(HeaderSeq(c, a.dest, a.seqNo))
  }

  lemma {:induction false} SameNumberUnfolds(c: Conn, mode: Extra, run: seq<Arrival>, dest: Dest, c': Conn)
    requires AllAcceptable(c, mode, run) && run != [] && Same(c', Step(c, mode, run[0]).conn)
    ensures AllAcceptable(c', mode, run[1..])
    ensures SameNumber(c, mode, run, dest) <==>
      (EditedFor(run[0], dest) ==> HasNumber(c, run[0])) && SameNumber(c', mode, run[1..], dest)
  {
  }

  lemma NumberExactly(c: Conn, a: Arrival)
    ensures OffsetOf(c, a) == 0 <==> HasNumber(c, a)
  {
    if c.initSeq.Get(a.dest).Some? {
      var first, s: int := c.initSeq.Get(a.dest).value, HeaderSeq(c, a.dest, a.seqNo);
      EqualWraps(first, s - first);
      assert first + (s - first) == s;
    }
  }

  /** With stateless parsers edits are placed rightly if and only if all edited packets go out under one number. */
  lemma {:induction false} StatelessPlacedExactly(c: Conn, mode: Extra, run: seq<Arrival>, dest: Dest)
    requires AllAcceptable(c, mode, run) && ReadAlone(run, dest)
    ensures Placed(c, mode, run, dest) <==> SameNumber(c, mode, run, dest)
    decreases |run|
  {
    if run != [] {
      var c' := Step(c, mode, run[0]).conn;
      PlacedUnfolds(c, mode, run, dest, c');
      SameNumberUnfolds(c, mode, run, dest, c');
      StatelessPlacedExactly(c', mode, run[1..], dest);
      NumberExactly(c, run[0]);
    }
  }

  function EditCount(run: seq<Arrival>, dest: Dest): nat {
    if run == [] then 0 else (if EditedFor(run[0], dest) then 1 else 0) + EditCount(run[1..], dest)
  }

  lemma {:induction false} CountIsHasEdit(run: seq<Arrival>, dest: Dest)
    ensures EditCount(run, dest) > 0 <==> HasEdit(run, dest)
    decreases |run|
  {
    if run != [] {
      CountIsHasEdit(run[1..], dest);
    }
  }

  /** The first edited packet of the direction is not edited away altogether. */
  predicate FirstLeavesText(c: Conn, mode: Extra, run: seq<Arrival>, dest: Dest)
    requires AllAcceptable(c, mode, run)
    decreases |run|
  {
    run == [] ||
    if EditedFor(run[0], dest) then Text(c, run[0]) != ""
    else FirstLeavesText(Step(c, mode, run[0]).conn, mode, run[1..], dest)
  }

  /** The gateway's own number moves on by what is sent: at least a byte, and no more than the text. */
  lemma {:induction false} StepMoves(c: Conn, mode: Extra, a: Arrival, n: nat, text: nat)
    requires Acceptable(c, a) && TrailSent(c, mode) && n == |a.payload| && text == |Text(c, a)|
    ensures var moved := n + Step(c, mode, a).conn.Offset(a.dest) - c.Offset(a.dest);
      0 <= moved <= text && (text > 0 ==> moved > 0)
  {
    ForwardStep(c, mode, a.dest, a.seqNo, a.ackNo, a.payload, a.ops != [], Text(c, a));
  }

  lemma {:induction false} NextAlone(run: seq<Arrival>, dest: Dest, next: int, at: int)
    requires run != [] && InOrder(run, dest, next) && ReadAlone(run, dest) && at == Behind(run[0], dest, next)
    ensures InOrder(run[1..], dest, at) && ReadAlone(run[1..], dest)
    ensures EditedFor(run[0], dest) ==> run[0].pos == 0 && run[0].seqNo == Wrap(next)
  {
  }

  lemma {:induction false} NextText(c: Conn, mode: Extra, run: seq<Arrival>, dest: Dest, c': Conn) returns (texts: nat)
    requires AllAcceptable(c, mode, run) && run != [] && Same(c', Step(c, mode, run[0]).conn) && AllAcceptable(c', mode, run[1..])
    ensures texts == if run[0].dest == dest then |Text(c, run[0])| else 0
    ensures |Stream(c, mode, run, dest)| == texts + |Stream(c', mode, run[1..], dest)|
  {
    texts := if run[0].dest == dest then |Text(c, run[0])| else 0;
  }

  /** One step of a run, as the gateway numbers its own segments of the direction. */
  lemma {:induction false} NextNumber(c: Conn, mode: Extra, run: seq<Arrival>, dest: Dest, next: int)
    returns (c': Conn, at: int, moved: nat, texts: nat)
    requires AllAcceptable(c, mode, run) && InOrder(run, dest, next) && TrailSent(c, mode) && !c.ignored && run != []
    requires ReadAlone(run, dest)
    ensures Same(c', Step(c, mode, run[0]).conn) && AllAcceptable(c', mode, run[1..]) && TrailSent(c', mode) && !c'.ignored
    ensures InOrder(run[1..], dest, at) && ReadAlone(run[1..], dest)
    ensures at + c'.Offset(dest) == next + c.Offset(dest) + moved && moved <= texts
    ensures |Stream(c, mode, run, dest)| == texts + |Stream(c', mode, run[1..], dest)|
    ensures run[0].dest == dest && Text(c, run[0]) != "" ==> moved > 0
    ensures EditedFor(run[0], dest) ==> run[0].pos == 0 && run[0].seqNo == Wrap(next)
  {
    c', at := Step(c, mode, run[0]).conn, Behind(run[0], dest, next);
    StepKeepsTrailSent(c, mode, run[0]);
    NextAlone(run, dest, next, at);
    texts := NextText(c, mode, run, dest, c');
    if run[0].dest == dest {
      StepMoves(c, mode, run[0], |run[0].payload|, texts);
      moved := |run[0].payload| + c'.Offset(dest) - c.Offset(dest);
    } else {
      moved := 0;
    }
  }

  lemma OtherNumber(o: int, gap: int)
    requires 0 < gap < TWO_32
    ensures Wrap(o + gap) != Wrap(o)
  {
    EqualWraps(o, gap);
  }

  /** Once the numbers have moved on from init_seq, no later edit of a stateless parser is placed rightly. */
  lemma {:induction false} NoEditBehind(c: Conn, mode: Extra, run: seq<Arrival>, dest: Dest, next: int, o: int, gap: nat)
    requires AllAcceptable(c, mode, run) && InOrder(run, dest, next) && TrailSent(c, mode) && !c.ignored && ReadAlone(run, dest)
    requires c.initSeq.Get(dest) == Some(Wrap(o)) && next + c.Offset(dest) == o + gap
    requires 0 < gap && gap + |Stream(c, mode, run, dest)| < TWO_32
    ensures Placed(c, mode, run, dest) <==> !HasEdit(run, dest)
    decreases |run|
  {
    if run != [] {
      var c', at, moved, texts := NextNumber(c, mode, run, dest, next);
      PlacedUnfolds(c, mode, run, dest, c');
      InitAfterStep(c, mode, run[0], dest, c');
      NoEditBehind(c', mode, run[1..], dest, at, o, gap + moved);
      if EditedFor(run[0], dest) {
        NumberExactly(c, run[0]);
        WrapAdd(next, c.Offset(dest));
        OtherNumber(o, gap);
      }
    }
  }

  /**
    With stateless parsers, in a flow in which nothing has been edited: as long as the direction's numbers
    do not wrap around, its edits are placed rightly if and only if no more than one packet is edited.
   */
  lemma {:induction false} StatelessOnlyOnce(c: Conn, mode: Extra, run: seq<Arrival>, dest: Dest, next: int)
    requires AllAcceptable(c, mode, run) && InOrder(run, dest, next) && TrailSent(c, mode) && !c.ignored && ReadAlone(run, dest)
    requires c.initSeq.Get(dest) == None && FirstLeavesText(c, mode, run, dest) && |Stream(c, mode, run, dest)| < TWO_32
    ensures Placed(c, mode, run, dest) <==> EditCount(run, dest) <= 1
    decreases |run|
  {
    if run != [] {
      var c', at, moved, texts := NextNumber(c, mode, run, dest, next);
      PlacedUnfolds(c, mode, run, dest, c');
      InitAfterStep(c, mode, run[0], dest, c');
      if EditedFor(run[0], dest) {
        WrapAdd(next, c.Offset(dest));
        NoEditBehind(c', mode, run[1..], dest, at, next + c.Offset(dest), moved);
        CountIsHasEdit(run[1..], dest);
      } else {
        StatelessOnlyOnce(c', mode, run[1..], dest, at);
      }
    }
  }

  // ----- the whole stream at once

  /** The operations at positions d further on. */
  function Moved(ops: seq<Operation>, d: int): seq<Operation> {
    if ops == [] then []
    else [Operation(ops[0].start + d, ops[0].end + d, ops[0].newdata, ops[0].cnt)] + Moved(ops[1..], d)
  }

  lemma {:induction false} MovedFits(ops: seq<Operation>, d: int, lo: int, hi: int)
    requires Fits(ops, lo, hi)
    ensures Fits(Moved(ops, d), lo + d, hi + d) && TotalDelta(Moved(ops, d)) == TotalDelta(ops)
  {
    if ops != [] {
      MovedFits(ops[1..], d, ops[0].end, hi);
      assert Moved(ops, d)[1..] == Moved(ops[1..], d);
    }
  }

  /** Positions only matter relative to the offset. */
  lemma {:induction false} MovedSplice(s: string, ops: seq<Operation>, d: int, offset: int)
    requires Fits(ops, offset, offset + |s|) && Fits(Moved(ops, d), offset + d, offset + d + |s|)
    ensures Same(Splice(s, Moved(ops, d), offset + d), Splice(s, ops, offset))
  {
    if ops != [] {
      FitsWider(ops[1..], ops[0].end, offset + |s|, offset, offset + |s|);
      MovedFits(ops[1..], d, offset, offset + |s|);
      MovedSplice(s, ops[1..], d, offset);
      assert Moved(ops, d)[1..] == Moved(ops[1..], d);
    }
  }

  lemma {:induction false} NotMoved(ops: seq<Operation>)
    ensures Moved(ops, 0) == ops
  {
    if ops != [] {
      NotMoved(ops[1..]);
    }
  }

  // ----- positions only matter relative to the packet

  lemma {:induction false} MovedDelta(ops: seq<Operation>, d: int)
    ensures TotalDelta(Moved(ops, d)) == TotalDelta(ops) && |Moved(ops, d)| == |ops|
  {
    if ops != [] {
      MovedDelta(ops[1..], d);
      assert Moved(ops, d)[1..] == Moved(ops[1..], d);
    }
  }

  lemma {:induction false} MovedTracked(ops: seq<Operation>, d: int, limit: int)
    ensures Tracked(Moved(ops, d), limit + d) == Tracked(ops, limit) + d
    decreases |ops|
  {
    if ops != [] {
      var next := if ops[0].end <= limit then limit + ops[0].Delta() else limit;
      MovedTracked(ops[1..], d, next);
      assert Moved(ops, d)[1..] == Moved(ops[1..], d) && Moved(ops, d)[0].Delta() == ops[0].Delta();
    }
  }

  function MovedSpot(at: Spot, d: int): Spot {
    Spot(at.ps, at.inside, Moved(at.left, d))
  }

  lemma MovedTurn(at: Spot, d: int, offset: int)
    requires at.Ok()
    ensures MovedSpot(at, d).Ok() && Enter(MovedSpot(at, d), offset + d) == MovedSpot(Enter(at, offset), d)
    ensures Enter(at, offset).Ok() && MovedSpot(Enter(at, offset), d).Ok()
    ensures Advance(MovedSpot(Enter(at, offset), d), offset + d) == MovedSpot(Advance(Enter(at, offset), offset), d)
  {
    MovedHead(at.left, d);
    MovedHead(Enter(at, offset).left, d);
  }

  lemma MovedHead(ops: seq<Operation>, d: int)
    ensures ops != [] ==> Moved(ops, d) != [] && Moved(ops, d)[1..] == Moved(ops[1..], d)
    ensures ops != [] ==> Moved(ops, d)[0].start == ops[0].start + d && Moved(ops, d)[0].end == ops[0].end + d
    ensures ops != [] ==> Moved(ops, d)[0].newdata == ops[0].newdata
    ensures ops == [] ==> Moved(ops, d) == []
  {
  }

  /** The loop makes the same turns for operations at moved positions. */
  lemma {:induction false} MovedLoop(src: string, at: Spot, d: int, offset: int, room: nat)
    requires at.Ok() && InBounds(|src|, at, offset, room)
    ensures MovedSpot(at, d).Ok() && InBounds(|src|, MovedSpot(at, d), offset + d, room)
    ensures Same(Output(src, MovedSpot(at, d), offset + d, room), Output(src, at, offset, room))
    decreases room
  {
    MovedTurn(at, d, offset);
    if room > 0 {
      MovedLoop(src, Advance(Enter(at, offset), offset), d, offset, room - 1);
    }
  }

  /**
    What modify makes of a packet does not depend on where in the stream it is: with its offset, its
    operations and its limit all moved by as much, the text is the same, tail included.
   */
  lemma RewritingIsRelative(src: string, n: nat, ops: seq<Operation>, d: int, offset: int, maxPos: int, maxLen: int, http: bool)
    requires Runs(|src|, n, ops, offset) && maxPos > 0 && maxPos + d > 0
    ensures Runs(|src|, n, Moved(ops, d), offset + d)
    ensures Same(Rewritten(src, n, Moved(ops, d), offset + d, maxPos + d, maxLen, http),
                 Rewritten(src, n, ops, offset, maxPos, maxLen, http))
  {
    MovedDelta(ops, d);
    MovedTracked(ops, d, maxPos);
    MovedLoop(src, Begin(ops), d, offset, n + TotalDelta(ops));
  }

  /**
    Without a declared length nothing is appended if and only if the packet does not start so far in front
    of init_seq that its own bytes reach up to the limit, which is then -1 or 0.
   */
  lemma TailWithoutLimit(text: string, ops: seq<Operation>, offset: int, maxPos: int, maxLen: int)
    requires maxPos <= 0
    ensures WithTail(text, Boundary(ops, offset, maxPos, maxLen), true) == text <==> !(offset < maxPos <= offset + |text|)
    ensures WithTail(text, Boundary(ops, offset, maxPos, maxLen), false) == text
  {
    var at := maxPos - offset;
    if 0 < at <= |text| {
      assert |text[..at] + HttpExceed(text[at..])| > |text|;
    }
  }

  /** The operations that take effect for a packet. */
  function EffectiveOps(a: Arrival): seq<Operation> {
    if a.payload != "" then Sort(a.ops) else []
  }

  /** The operations of a direction, at their positions in a stream whose next byte is at p. */
  function AllOps(run: seq<Arrival>, dest: Dest, p: int): seq<Operation> {
    if run == [] then []
    else if run[0].dest == dest then
      Moved(EffectiveOps(run[0]), p - run[0].pos) + AllOps(run[1..], dest, p + |run[0].payload|)
    else AllOps(run[1..], dest, p)
  }

  /** The loop handles the packet's operations, and no tail is appended to it. */
  predicate Plain(c: Conn, a: Arrival) {
    Untouched(c, a) || (Fitting(c, a) && NoTail(a, OffsetOf(c, a)))
  }

  predicate NoTail(a: Arrival, offset: int) {
    var at := Boundary(Sort(a.ops), offset, a.limit.maxPos, a.limit.maxLen);
    !(a.limit.http && 0 < at <= |a.payload| + TotalDelta(Sort(a.ops)))
  }

  predicate AllPlain(c: Conn, mode: Extra, run: seq<Arrival>, dest: Dest)
    requires AllAcceptable(c, mode, run)
    decreases |run|
  {
    run == [] || (
      && (run[0].dest == dest ==> Plain(c, run[0]))
      && AllPlain(Step(c, mode, run[0]).conn, mode, run[1..], dest))
  }

  /** The stream text and the rewriting of the whole stream are the same; ops and payloads are those of the stream. */
  ghost predicate Spliced(text: string, payloads: string, ops: seq<Operation>, p: int) {
    Fits(ops, p, p + |payloads|) && Same(text, Splice(payloads, ops, p))
  }

  lemma {:induction false} PlainText(c: Conn, a: Arrival)
    requires Acceptable(c, a) && Plain(c, a) && !c.ignored && (Edited(a) ==> OffsetOf(c, a) == a.pos)
    ensures Spliced(Text(c, a), a.payload, EffectiveOps(a), a.pos)
  {
    if Edited(a) {
      TextIsSplice(c, a);
    } else {
      NoOpsToSort(a);
    }
  }

  lemma NoOpsToSort(a: Arrival)
    requires !Edited(a)
    ensures EffectiveOps(a) == []
  {
  }

  lemma {:induction false} MovedIsSpliced(text: string, payload: string, ops: seq<Operation>, pos: int, p: int)
    requires Spliced(text, payload, ops, pos)
    ensures Spliced(text, payload, Moved(ops, p - pos), p)
  {
    MovedFits(ops, p - pos, pos, pos + |payload|);
    MovedSplice(payload, ops, p - pos, pos);
  }

  /** A packet in front. */
  lemma {:induction false} SplicedInFront(text: string, payload: string, ops: seq<Operation>, p: int,
                                          texts: string, payloads: string, allOps: seq<Operation>, cut: int)
    requires Spliced(text, payload, ops, p) && Spliced(texts, payloads, allOps, cut) && cut == p + |payload|
    ensures Spliced(text + texts, payload + payloads, ops + allOps, p)
  {
    SpliceSplits(payload, payloads, ops, allOps, p);
  }

  lemma {:induction false} OwnPlain(c: Conn, a: Arrival, p: int)
    requires Acceptable(c, a) && Plain(c, a) && !c.ignored && (Edited(a) ==> OffsetOf(c, a) == a.pos)
    ensures Spliced(Text(c, a), a.payload, Moved(EffectiveOps(a), p - a.pos), p)
  {
    PlainText(c, a);
    MovedIsSpliced(Text(c, a), a.payload, EffectiveOps(a), a.pos, p);
  }

  lemma {:induction false} OwnTextUnfolds(c: Conn, mode: Extra, run: seq<Arrival>, dest: Dest, c': Conn)
    requires AllAcceptable(c, mode, run) && run != [] && run[0].dest == dest && Same(c', Step(c, mode, run[0]).conn)
    requires AllAcceptable(c', mode, run[1..])
    ensures Same(Stream(c, mode, run, dest), Text(c, run[0]) + Stream(c', mode, run[1..], dest))
  {
  }

  lemma {:induction false} OwnOpsUnfold(run: seq<Arrival>, dest: Dest, p: int, cut: int)
    requires run != [] && run[0].dest == dest && cut == p + |run[0].payload|
    ensures Same(Payloads(run, dest), run[0].payload + Payloads(run[1..], dest))
    ensures Same(AllOps(run, dest, p), Moved(EffectiveOps(run[0]), p - run[0].pos) + AllOps(run[1..], dest, cut))
  {
  }

  /** What has to hold of a run for its edits to be those of the whole stream. */
  ghost predicate Faithful(c: Conn, mode: Extra, run: seq<Arrival>, dest: Dest) {
    && AllAcceptable(c, mode, run) && AllPlain(c, mode, run, dest) && !c.ignored && TrailSent(c, mode)
    && Placed(c, mode, run, dest)
  }

  lemma {:induction false} NextFaithful(c: Conn, mode: Extra, run: seq<Arrival>, dest: Dest) returns (c': Conn)
    requires Faithful(c, mode, run, dest) && run != []
    ensures Same(c', Step(c, mode, run[0]).conn) && Faithful(c', mode, run[1..], dest)
    ensures run[0].dest == dest ==> Plain(c, run[0]) && (Edited(run[0]) ==> OffsetOf(c, run[0]) == run[0].pos)
  {
    c' := Step(c, mode, run[0]).conn;
    StepKeepsTrailSent(c, mode, run[0]);
  }

  /** What is placed rightly packet by packet is the rewriting of the whole stream at once. */
  lemma {:induction false} PlacedEditsSpliceTheStream(c: Conn, mode: Extra, run: seq<Arrival>, dest: Dest, p: int)
    requires Faithful(c, mode, run, dest)
    ensures Spliced(Stream(c, mode, run, dest), Payloads(run, dest), AllOps(run, dest, p), p)
    decreases |run|
  {
    if run != [] {
      var c' := NextFaithful(c, mode, run, dest);
      var cut := Behind(run[0], dest, p);
      PlacedEditsSpliceTheStream(c', mode, run[1..], dest, cut);
      if run[0].dest == dest {
        OwnInFront(c, mode, run, dest, p, c', cut);
      }
    }
  }

  lemma {:induction false} OwnInFront(c: Conn, mode: Extra, run: seq<Arrival>, dest: Dest, p: int, c': Conn, cut: int)
    requires AllAcceptable(c, mode, run) && run != [] && run[0].dest == dest && Same(c', Step(c, mode, run[0]).conn)
    requires Plain(c, run[0]) && !c.ignored && (Edited(run[0]) ==> OffsetOf(c, run[0]) == run[0].pos)
    requires AllAcceptable(c', mode, run[1..]) && cut == p + |run[0].payload|
    requires Spliced(Stream(c', mode, run[1..], dest), Payloads(run[1..], dest), AllOps(run[1..], dest, cut), cut)
    ensures Spliced(Stream(c, mode, run, dest), Payloads(run, dest), AllOps(run, dest, p), p)
  {
    var text, payload, ops := OwnPiece(c, mode, run, dest, p, c', cut);
    SplicedInFront(text, payload, ops, p, Stream(c', mode, run[1..], dest), Payloads(run[1..], dest),
                   AllOps(run[1..], dest, cut), cut);
  }

  lemma {:induction false} OwnPiece(c: Conn, mode: Extra, run: seq<Arrival>, dest: Dest, p: int, c': Conn, cut: int)
    returns (text: string, payload: string, ops: seq<Operation>)
    requires AllAcceptable(c, mode, run) && run != [] && run[0].dest == dest && Same(c', Step(c, mode, run[0]).conn)
    requires Plain(c, run[0]) && !c.ignored && (Edited(run[0]) ==> OffsetOf(c, run[0]) == run[0].pos)
    requires AllAcceptable(c', mode, run[1..]) && cut == p + |run[0].payload|
    ensures Spliced(text, payload, ops, p) && cut == p + |payload|
    ensures Same(Stream(c, mode, run, dest), text + Stream(c', mode, run[1..], dest))
    ensures Same(Payloads(run, dest), payload + Payloads(run[1..], dest))
    ensures Same(AllOps(run, dest, p), ops + AllOps(run[1..], dest, cut))
  {
    text, payload, ops := Text(c, run[0]), run[0].payload, Moved(EffectiveOps(run[0]), p - run[0].pos);
    OwnPlain(c, run[0], p);
    OwnTextUnfolds(c, mode, run, dest, c');
    OwnOpsUnfold(run, dest, p, cut);
  }

  /** The operations of a direction as its parsers return them. */
  function ReturnedOps(run: seq<Arrival>, dest: Dest): seq<Operation> {
    if run == [] then []
    else if run[0].dest == dest then EffectiveOps(run[0]) + ReturnedOps(run[1..], dest)
    else ReturnedOps(run[1..], dest)
  }

  /** The positions of a stateful parser are those of the stream that it reads. */
  lemma {:induction false} ReadOnReturns(run: seq<Arrival>, dest: Dest, p: nat)
    requires ReadOn(run, dest, p)
    ensures AllOps(run, dest, p) == ReturnedOps(run, dest)
    decreases |run|
  {
    if run != [] {
      ReadOnReturns(run[1..], dest, Behind(run[0], dest, p));
      if run[0].dest == dest {
        if run[0].payload == "" {
          assert Moved([], p - run[0].pos) == [];
        } else {
          NotMoved(EffectiveOps(run[0]));
        }
      }
    }
  }

  // ----- edits that keep lengths

  predicate AllNoTail(c: Conn, mode: Extra, run: seq<Arrival>, dest: Dest)
    requires AllAcceptable(c, mode, run)
    decreases |run|
  {
    run == [] || (
      && (EditedFor(run[0], dest) ==> NoTail(run[0], OffsetOf(c, run[0])))
      && AllNoTail(Step(c, mode, run[0]).conn, mode, run[1..], dest))
  }

  /** Only a packet behind which no other is edited may change its length. */
  predicate GrowsOnlyLast(run: seq<Arrival>, dest: Dest) {
    run == [] || (
      && (EditedFor(run[0], dest) && HasEdit(run[1..], dest) ==> TotalDelta(Sort(run[0].ops)) == 0)
      && GrowsOnlyLast(run[1..], dest))
  }

  lemma {:induction false} NeutralStep(c: Conn, mode: Extra, a: Arrival)
    requires Acceptable(c, a) && NoTail(a, OffsetOf(c, a)) && TrailSent(c, mode) && !c.ignored && Edited(a)
    requires TotalDelta(Sort(a.ops)) == 0
    ensures Step(c, mode, a).conn.Offset(a.dest) == c.Offset(a.dest)
  {
    assert |Text(c, a)| == |a.payload|;
    StepOffset(c, mode, a);
  }

  lemma {:induction false} NextGrows(c: Conn, mode: Extra, run: seq<Arrival>, dest: Dest, home: int) returns (c': Conn)
    requires AllAcceptable(c, mode, run) && AllNoTail(c, mode, run, dest) && TrailSent(c, mode) && !c.ignored && run != []
    requires GrowsOnlyLast(run, dest) && (HasEdit(run, dest) ==> c.Offset(dest) == home)
    ensures Same(c', Step(c, mode, run[0]).conn) && AllAcceptable(c', mode, run[1..]) && TrailSent(c', mode) && !c'.ignored
    ensures AllNoTail(c', mode, run[1..], dest) && GrowsOnlyLast(run[1..], dest)
    ensures HasEdit(run[1..], dest) ==> c'.Offset(dest) == home
  {
    c' := Step(c, mode, run[0]).conn;
    InitAfterStep(c, mode, run[0], dest, c');
    if EditedFor(run[0], dest) && HasEdit(run[1..], dest) {
      NeutralStep(c, mode, run[0]);
    }
  }

  lemma {:induction false} GrowsOnlyLastStaysHome(c: Conn, mode: Extra, run: seq<Arrival>, dest: Dest, home: int)
    requires AllAcceptable(c, mode, run) && AllNoTail(c, mode, run, dest) && TrailSent(c, mode) && !c.ignored
    requires GrowsOnlyLast(run, dest) && (HasEdit(run, dest) ==> c.Offset(dest) == home)
    ensures OffsetAtHome(c, mode, run, dest, home)
    decreases |run|
  {
    if run != [] {
      var c' := NextGrows(c, mode, run, dest, home);
      GrowsOnlyLastStaysHome(c', mode, run[1..], dest, home);
      AtHomeUnfolds(c, mode, run, dest, home, c');
    }
  }

  /**
    A stateful parser from the first packet of a flow on, whose edits, but for the last edited packet, keep
    lengths: its edits are placed rightly if and only if the first packet with a payload is edited, or none.
   */
  lemma NeutralEditsPlacedExactly(c: Conn, mode: Extra, run: seq<Arrival>, dest: Dest, next: int)
    requires AllAcceptable(c, mode, run) && InOrder(run, dest, next) && TrailSent(c, mode) && !c.ignored
    requires c.initSeq.Get(dest) == None && ReadOn(run, dest, 0) && |Payloads(run, dest)| < TWO_31
    requires AllNoTail(c, mode, run, dest) && GrowsOnlyLast(run, dest)
    ensures Placed(c, mode, run, dest) <==> (HasEdit(run, dest) ==> BytesBeforeEdit(run, dest) == 0)
  {
    GrowsOnlyLastStaysHome(c, mode, run, dest, c.Offset(dest));
    StatefulPlacedExactly(c, mode, run, dest, next, 0);
  }

  lemma {:induction false} PlainHasNoTail(c: Conn, mode: Extra, run: seq<Arrival>, dest: Dest)
    requires AllAcceptable(c, mode, run) && AllPlain(c, mode, run, dest) && TrailSent(c, mode) && !c.ignored
    ensures AllNoTail(c, mode, run, dest)
    decreases |run|
  {
    if run != [] {
      StepKeepsTrailSent(c, mode, run[0]);
      PlainHasNoTail(Step(c, mode, run[0]).conn, mode, run[1..], dest);
    }
  }

  /** If so, rewriting packet by packet is rewriting the whole stream at once, with the operations as they are. */
  lemma NeutralEditsSpliceTheStream(c: Conn, mode: Extra, run: seq<Arrival>, dest: Dest, next: int)
    requires AllAcceptable(c, mode, run) && InOrder(run, dest, next) && TrailSent(c, mode) && !c.ignored
    requires c.initSeq.Get(dest) == None && ReadOn(run, dest, 0) && |Payloads(run, dest)| < TWO_31
    requires AllPlain(c, mode, run, dest) && GrowsOnlyLast(run, dest)
    requires HasEdit(run, dest) ==> BytesBeforeEdit(run, dest) == 0
    ensures Spliced(Stream(c, mode, run, dest), Payloads(run, dest), ReturnedOps(run, dest), 0)
  {
    PlainHasNoTail(c, mode, run, dest);
    NeutralEditsPlacedExactly(c, mode, run, dest, next);
    PlacedEditsSpliceTheStream(c, mode, run, dest, 0);
    ReadOnReturns(run, dest, 0);
  }

  // ----- inputs

  lemma {:induction false} TwoSteps(a: Arrival, b: Arrival, c: Conn)
    requires Acceptable(Fresh, a) && Same(c, Step(Fresh, TcpExtra, a).conn) && Acceptable(c, b)
    requires a.dest == b.dest == Client
    ensures AllAcceptable(Fresh, TcpExtra, [a, b])
    ensures Same(Stream(Fresh, TcpExtra, [a, b], Client), Text(Fresh, a) + Text(c, b))
  {
    assert [a, b][1..] == [b];
    OneText(c, b);
  }

  lemma {:induction false} OneText(c: Conn, b: Arrival)
    requires Acceptable(c, b) && b.dest == Client
    ensures AllAcceptable(c, TcpExtra, [b]) && Same(Stream(c, TcpExtra, [b], Client), Text(c, b))
  {
    assert [b][1..] == [];
    EmptyIsNeutral(Text(c, b));
  }

  /** The loop never comes to the operation, and copies. */
  lemma {:induction false} NeverOpened(c: Conn, b: Arrival, op: Operation)
    requires b.dest == Client && b.payload == "cd" && b.stale == "" && b.ops == [op] && b.limit == NoLimit
    requires op.end == op.start + 1 && |op.newdata| == 1
    requires op.start - OffsetOf(c, b) < 0 || 2 <= op.start - OffsetOf(c, b)
    ensures Acceptable(c, b) && Text(c, b) == "cd"
  {
    var ops, off, at := [op], OffsetOf(c, b), Begin([op]);
    SortOfSorted(ops);
    assert ops[1..] == [] && TotalDelta(ops) == 0 && "cd" + "" == "cd";
    assert Spot(2, false, ops).Ok() && InBounds(2, Spot(2, false, ops), off, 0);
    CopyTwo(ops, off);
  }

  lemma {:induction false} CopyTwo(ops: seq<Operation>, offset: int)
    requires ops != [] && (ops[0].start - offset < 0 || 2 <= ops[0].start - offset)
    ensures InBounds(2, Begin(ops), offset, 2) && Output("cd", Begin(ops), offset, 2) == "cd"
  {
    CopyingStays(2, Begin(ops), offset, 2, 2, 0);
    CopiesUpTo("cd", Begin(ops), offset, 2, 2, 0);
    assert "cd"[0..2] + "" == "cd";
  }

  lemma {:induction false} ReplaceFirst(a: Arrival, ops: seq<Operation>)
    requires a == Arrival(Client, 1000, 0, "ab", "", 0, ops, NoLimit) && ops == [Operation(0, 1, "X", false)]
    ensures Acceptable(Fresh, a) && Text(Fresh, a) == "Xb"
  {
    SortOfSorted(ops);
    assert ops[1..] == [] && OffsetOf(Fresh, a) == 0 && Separated(ops) && "ab" + "" == "ab";
    SeparatedRun(2, ops, 0);
    SeparatedIsSweepable(ops, 2);
    TextIsSplice(Fresh, a);
    assert ReplaceOne("ab", 0, 1, "X") == "Xb";
  }

  lemma {:induction false} NeutralFirst(a: Arrival)
    requires a.dest == Client && a.seqNo == 1000 && 0 < |a.payload| <= MSS && a.ops != []
    requires Acceptable(Fresh, a) && |Text(Fresh, a)| == |a.payload|
    ensures Step(Fresh, TcpExtra, a).conn == Conn(0, 0, false, PerDest(Some(1000), None), PerDest("", ""), map[])
  {
  }

  lemma {:induction false} BothAlone(a: Arrival, b: Arrival)
    requires a.pos == 0 && b.pos == 0
    ensures ReadAlone([a, b], Client)
  {
    assert [a, b][1..] == [b] && [b][1..] == [];
  }

  lemma {:induction false} YForFirst(ops: seq<Operation>)
    requires ops == [Operation(0, 1, "Y", false)]
    ensures Fits(ops, 0, 2) && Splice("cd", ops, 0) == "Yd"
  {
    assert ops[1..] == [] && ReplaceOne("cd", 0, 1, "Y") == "Yd";
  }

  lemma {:induction false} BehindItsEdit(c: Conn, b: Arrival, ops: seq<Operation>)
    requires c.initSeq.client == Some(1000) && c.offsetS2C == 0 && ops == [Operation(0, 1, "Y", false)]
    requires b == Arrival(Client, 1002, 0, "cd", "", 0, ops, NoLimit)
    ensures Acceptable(c, b) && Text(c, b) == "cd"
  {
    assert OffsetOf(c, b) == 2;
    NeverOpened(c, b, ops[0]);
  }

  lemma {:induction false} SecondIsCopied(c: Conn, a: Arrival, b: Arrival)
    requires Acceptable(Fresh, a) && Text(Fresh, a) == "Xb" && a.dest == b.dest == Client
    requires Same(c, Step(Fresh, TcpExtra, a).conn) && Acceptable(c, b) && Text(c, b) == "cd"
    ensures AllAcceptable(Fresh, TcpExtra, [a, b]) && Stream(Fresh, TcpExtra, [a, b], Client) == "Xbcd"
  {
    TwoSteps(a, b, c);
    assert "Xb" + "cd" == "Xbcd";
  }

  /** Stateless parsers: the same edit in two packets, of which the second is lost. */
  lemma {:induction false} StatelessSecondEditIsLost(a: Arrival, b: Arrival)
    requires a == Arrival(Client, 1000, 0, "ab", "", 0, [Operation(0, 1, "X", false)], NoLimit)
    requires b == Arrival(Client, 1002, 0, "cd", "", 0, [Operation(0, 1, "Y", false)], NoLimit)
    ensures ReadAlone([a, b], Client) && AllAcceptable(Fresh, TcpExtra, [a, b])
    ensures Stream(Fresh, TcpExtra, [a, b], Client) == "Xbcd"
    ensures Fits(b.ops, 0, 2) && Splice("cd", b.ops, 0) == "Yd"
  {
    BothAlone(a, b);
    YForFirst(b.ops);
    ReplaceFirst(a, a.ops);
    NeutralFirst(a);
    var c := Step(Fresh, TcpExtra, a).conn;
    BehindItsEdit(c, b, b.ops);
    SecondIsCopied(c, a, b);
  }

  lemma {:induction false} OneReader(a: Arrival, b: Arrival)
    requires a.dest == b.dest == Client && a.pos == 0 && b.pos == |a.payload|
    ensures ReadOn([a, b], Client, 0)
  {
    assert [a, b][1..] == [b] && [b][1..] == [];
  }

  lemma {:induction false} XForThird(ops: seq<Operation>)
    requires ops == [Operation(2, 3, "X", false)]
    ensures Fits(ops, 0, 4) && Splice("abcd", ops, 0) == "abXd"
  {
    assert ops[1..] == [] && ReplaceOne("abcd", 2, 3, "X") == "abXd";
  }

  lemma {:induction false} BothCopied(a: Arrival, b: Arrival)
    requires Acceptable(Fresh, b) && Text(Fresh, b) == "cd" && a.dest == b.dest == Client && a.payload == "ab" && a.ops == []
    ensures AllAcceptable(Fresh, TcpExtra, [a, b]) && Stream(Fresh, TcpExtra, [a, b], Client) == "abcd"
  {
    assert Step(Fresh, TcpExtra, a).conn == Fresh;
    TwoSteps(a, b, Fresh);
    assert "ab" + "cd" == "abcd";
  }

  /** A stateful parser whose first packet is not edited: the edit of the second one is lost. */
  lemma {:induction false} EditBehindUneditedIsLost(a: Arrival, b: Arrival)
    requires a == Arrival(Client, 1000, 0, "ab", "", 0, [], NoLimit)
    requires b == Arrival(Client, 1002, 0, "cd", "", 2, [Operation(2, 3, "X", false)], NoLimit)
    ensures ReadOn([a, b], Client, 0) && AllAcceptable(Fresh, TcpExtra, [a, b])
    ensures Stream(Fresh, TcpExtra, [a, b], Client) == "abcd"
    ensures Fits(b.ops, 0, 4) && Splice("abcd", b.ops, 0) == "abXd"
  {
    OneReader(a, b);
    XForThird(b.ops);
    NeverOpened(Fresh, b, b.ops[0]);
    BothCopied(a, b);
  }
}
