/** Class Flow (flow.cc, flow.h) and the parts of class Packet (packet.h, packet.cc:120-127) it works on. */
module FlowRewrite {
  import opened Words
  import opened Operations
  import opened ByteLoop
  import opened Parsers
  import opened Buffers

  /** EXTRAType of state.h:13-18: what is done with bytes that do not fit into the packet. */
  datatype Extra = NoExtra | IpExtra | TcpExtra | ShiftExtra

  const MSS: int := 1400

  /** A packet with the payload regions of its two buffers. ibuf is never written. */
  class Packet {
    const tcp: bool
    const udp: bool
    const dest: Dest
    const headerLen: nat
    const obuf: array<char>
    const ibuf: array<char>
    const ibufSeq: uint32
    const curSeq: uint32
    const nextSeq: uint32
    var transportLen: int
    var seqNo: uint32
    var ackNo: uint32

    /** A freshly unpacked packet (packet.cc:93-107): both buffers hold the payload, TCP wins over UDP. */
    constructor (tcp: bool, udp: bool, dest: Dest, headerLen: nat, obuf: array<char>, ibuf: array<char>, n: nat,
                 seqNo: uint32, ackNo: uint32)
      requires obuf != ibuf && n <= obuf.Length && n <= ibuf.Length && obuf[..n] == ibuf[..n]
      ensures Valid() && Payload() == ibuf[..n] && this.obuf == obuf && this.ibuf == ibuf
      ensures this.tcp == tcp && this.udp == udp && this.dest == dest && this.headerLen == headerLen
      ensures this.seqNo == ibufSeq == curSeq == seqNo && this.ackNo == ackNo && nextSeq == Wrap(seqNo + n)
    {
      this.tcp, this.udp, this.dest, this.headerLen := tcp, udp, dest, headerLen;
      this.obuf, this.ibuf, this.transportLen := obuf, ibuf, headerLen + n;
      this.seqNo, this.ibufSeq, this.curSeq, this.ackNo, this.nextSeq := seqNo, seqNo, seqNo, ackNo, Wrap(seqNo + n);
    }

    ghost predicate Valid()
      reads this
    {
      obuf != ibuf && headerLen <= transportLen <= headerLen + obuf.Length
    }

    function PayloadLen(): int
      reads this
    {
      transportLen - headerLen
    }

    ghost function Payload(): string
      requires Valid()
      reads this, obuf
    {
      obuf[..PayloadLen()]
    }
  }

  // ----- what Flow::modify computes

  /** flow.cc:80-94, given the init_seq of the direction and the sequence number now in the header. */
  function PacketOffset(init: Option<uint32>, seqNo: uint32): int {
    match init
    case None => 0
    case Some(first) => AsInt32(Wrap(seqNo - first))
  }

  function InitAfter(init: Option<uint32>, seqNo: uint32): Option<uint32> {
    if init == None then Some(seqNo) else init
  }

  /** The limit that flow.cc:168-176 moves with every operation found to end at or before it. */
  function Tracked(ops: seq<Operation>, limit: int): int {
    if ops == [] then limit
    else Tracked(ops[1..], if ops[0].end <= limit then limit + ops[0].Delta() else limit)
  }

  /** Where the declared length ends in the rewritten packet (flow.cc:166-179). */
  function Boundary(ops: seq<Operation>, offset: int, maxPos: int, maxLen: int): int {
    (if maxPos > 0 then Tracked(ops, maxPos) + maxLen else maxPos) - offset
  }

  /** flow.cc:180-188: from the boundary on, the parser may rewrite the text. */
  function WithTail(text: string, boundary: int, http: bool): string {
    if http && 0 < boundary <= |text| then text[..boundary] + HttpExceed(text[boundary..]) else text
  }

  /** The rewritten payload, before it is cut to fit. src is the input buffer, n the payload length. */
  function Rewritten(src: string, n: nat, ops: seq<Operation>, offset: int, maxPos: int, maxLen: int,
                 http: bool): string
    requires Runs(|src|, n, ops, offset)
  {
    WithTail(Written(src, n, ops, offset), Boundary(ops, offset, maxPos, maxLen), http)
  }

  /** flow.cc:190: the text grew and the packet was already full. */
  predicate CutOff(tcp: bool, n: int, newLen: int) {
    tcp && newLen > n && n > MSS
  }

  /** flow.cc:224-239: a segment is recorded if it follows the last one recorded. */
  datatype Segment = Segment(seqNo: uint32, len: uint32) {
    function Next(): uint32 {
      Wrap(seqNo as int + len as int)
    }
  }

  function Counted(segs: seq<Segment>, s: Segment): seq<Segment> {
    if segs == [] || s.seqNo == segs[|segs| - 1].Next() then segs + [s] else segs
  }

  // ----- the delay line of SHIFT mode

  datatype Delayed = Delayed(line: map<uint32, string>, out: string)

  function Carry(line: map<uint32, string>, seqNo: uint32): string {
    if seqNo in line then line[seqNo] else ""
  }

  /** The carried bytes go first, the same number of bytes is held back for the next segment. */
  function ShiftStep(line: map<uint32, string>, seqNo: uint32, nextSeq: uint32, payload: string): Delayed {
    var carry := Carry(line, seqNo);
    if carry == "" then Delayed(line[seqNo := ""], payload)
    else
      var all := carry + payload;
      Delayed(line[nextSeq := all[|payload|..]], all[..|payload|])
  }

  class Flow {
    var offsetC2S: int
    var offsetS2C: int
    var ignored: bool
    var protocol: string
    var trail: PerDest<string>
    var trailShift: map<uint32, string>
    var initSeq: PerDest<Option<uint32>>
    var segments: PerDest<seq<Segment>>

    constructor ()
      ensures offsetC2S == offsetS2C == 0 && !ignored && protocol == ""
      ensures trail == PerDest("", "") && trailShift == map[]
      ensures initSeq == PerDest(None, None) && segments == PerDest([], [])
    {
      offsetC2S, offsetS2C, ignored, protocol := 0, 0, false, "";
      trail, trailShift, initSeq, segments := PerDest("", ""), map[], PerDest(None, None), PerDest([], []);
    }

    function Offset(dest: Dest): int
      reads this
    {
      if dest == Server then offsetC2S else offsetS2C
    }

    method AddOffset(dest: Dest, delta: int)
      modifies this`offsetC2S, this`offsetS2C
      ensures offsetC2S == if dest == Server then old(offsetC2S) + delta else old(offsetC2S)
      ensures offsetS2C == if dest == Server then old(offsetS2C) else old(offsetS2C) + delta
    {
      if dest == Server {
        offsetC2S := offsetC2S + delta;
      } else {
        offsetS2C := offsetS2C + delta;
      }
    }

    /** flow.cc:80-94 */
    method GetPktOffset(pkt: Packet) returns (offset: int)
      modifies this`initSeq
      ensures pkt.tcp ==> offset == PacketOffset(old(initSeq).Get(pkt.dest), pkt.seqNo)
      ensures pkt.tcp ==> initSeq == old(initSeq).Set(pkt.dest, InitAfter(old(initSeq).Get(pkt.dest), pkt.seqNo))
      ensures !pkt.tcp ==> offset == 0 && initSeq == old(initSeq)
    {
      if !pkt.tcp {
        return 0;
      }
      var init := initSeq.Get(pkt.dest);
      if init == None {
        initSeq := initSeq.Set(pkt.dest, Some(pkt.seqNo));
        return 0;
      } else {
        return AsInt32(Wrap(pkt.seqNo - init.value));
      }
    }

    /** The offset that Modify uses for the packet. */
    ghost function OffsetFor(pkt: Packet): int
      reads this, pkt
    {
      if pkt.tcp then PacketOffset(initSeq.Get(pkt.dest), pkt.seqNo) else 0
    }

    /** What Modify makes of the packet's payload. */
    ghost function NewText(pkt: Packet, ops: seq<Operation>, parser: Parser): string
      reads this, pkt, pkt.ibuf, parser
      requires Ready(pkt, ops)
    {
      Rewritten(pkt.ibuf[..], pkt.PayloadLen(), Sort(ops), OffsetFor(pkt), parser.maxPos, parser.maxLen, parser.http)
    }

    /** The loop stays inside the input buffer. */
    ghost predicate Ready(pkt: Packet, ops: seq<Operation>)
      reads this, pkt
    {
      && pkt.Valid()
      && Runs(pkt.ibuf.Length, pkt.PayloadLen(), Sort(ops), OffsetFor(pkt))
    }

    /** The rewritten text fits into the output buffer. */
    ghost predicate Room(pkt: Packet, ops: seq<Operation>, parser: Parser)
      requires Ready(pkt, ops)
      reads this, pkt, pkt.ibuf, parser
    {
      && |NewText(pkt, ops, parser)| <= pkt.obuf.Length
      && pkt.PayloadLen() + TotalDelta(Sort(ops)) <= pkt.obuf.Length
    }

    /** flow.cc:96-204 */
    method Modify(pkt: Packet, ops: seq<Operation>, parser: Parser, extra: Extra) returns (delta: int)
      requires pkt.tcp || pkt.udp
      requires pkt.Valid()
      requires ops != [] ==> Ready(pkt, ops) && Room(pkt, ops, parser)
      modifies this`initSeq, this`trail, this`trailShift, pkt`transportLen, pkt.obuf, parser`maxPos
      ensures pkt.Valid()
      ensures ops == [] ==>
        && delta == 0 && pkt.Payload() == old(pkt.Payload())
        && initSeq == old(initSeq) && trail == old(trail) && trailShift == old(trailShift)
        && parser.maxPos == old(parser.maxPos)
      ensures ops != [] ==> delta == pkt.PayloadLen() - old(pkt.PayloadLen())
      ensures !pkt.tcp ==> initSeq == old(initSeq)
      ensures ops != [] && pkt.tcp ==>
        initSeq == old(initSeq).Set(pkt.dest, InitAfter(old(initSeq).Get(pkt.dest), pkt.seqNo))
      ensures ops != [] ==>
        parser.maxPos == if old(parser.maxPos) > 0 then Tracked(Sort(ops), old(parser.maxPos)) else old(parser.maxPos)
      ensures ops != [] ==> var n, text := old(pkt.PayloadLen()), old(NewText(pkt, ops, parser));
        if pkt.tcp && |text| > n > 1400 then
          && pkt.Payload() == text[..n]
          && (extra == ShiftExtra ==> trail == old(trail) && trailShift == old(trailShift)[pkt.nextSeq := text[n..]])
          && (extra != ShiftExtra ==> trail == old(trail).Set(pkt.dest, text[n..]) && trailShift == old(trailShift))
        else pkt.Payload() == text && trail == old(trail) && trailShift == old(trailShift)
    {
      delta := 0;
      if |ops| == 0 {
        return;
      }
      var offset := 0;
      if pkt.tcp {
        offset := GetPktOffset(pkt);
      }
      delta := RewriteAndCut(pkt, Sort(ops), offset, parser, extra);
    }

    /** flow.cc:124-203, the packet's offset being known. */
    method RewriteAndCut(pkt: Packet, ops: seq<Operation>, offset: int, parser: Parser, extra: Extra) returns (delta: int)
      requires pkt.Valid() && Runs(pkt.ibuf.Length, pkt.PayloadLen(), ops, offset)
      requires pkt.PayloadLen() + TotalDelta(ops) <= pkt.obuf.Length
      requires |Rewritten(pkt.ibuf[..], pkt.PayloadLen(), ops, offset, parser.maxPos, parser.maxLen, parser.http)| <= pkt.obuf.Length
      modifies this`trail, this`trailShift, pkt`transportLen, pkt.obuf, parser`maxPos
      ensures pkt.Valid() && delta == pkt.PayloadLen() - old(pkt.PayloadLen())
      ensures parser.maxPos == if old(parser.maxPos) > 0 then Tracked(ops, old(parser.maxPos)) else old(parser.maxPos)
      ensures var n := old(pkt.PayloadLen());
        var text := old(Rewritten(pkt.ibuf[..], n, ops, offset, parser.maxPos, parser.maxLen, parser.http));
        if pkt.tcp && |text| > n > 1400 then
          && pkt.Payload() == text[..n]
          && (extra == ShiftExtra ==> trail == old(trail) && trailShift == old(trailShift)[pkt.nextSeq := text[n..]])
          && (extra != ShiftExtra ==> trail == old(trail).Set(pkt.dest, text[n..]) && trailShift == old(trailShift))
        else pkt.Payload() == text && trail == old(trail) && trailShift == old(trailShift)
    {
      var lenOld := pkt.transportLen - pkt.headerLen;
      var len := RewriteBytes(pkt.obuf, pkt.ibuf, lenOld, ops, offset, parser);
      len := CutToFit(pkt, len, lenOld, extra);
      pkt.transportLen := len + pkt.headerLen;
      delta := len - lenOld;
    }

    /** flow.cc:206-218 on the payload bytes of the packet. */
    method Shift(pkt: Packet, extra: Extra)
      requires pkt.Valid() && (extra == ShiftExtra ==> |Carry(trailShift, pkt.curSeq)| <= pkt.PayloadLen())
      modifies this`trailShift, pkt.obuf
      ensures extra != ShiftExtra ==> trailShift == old(trailShift) && pkt.Payload() == old(pkt.Payload())
      ensures extra == ShiftExtra ==>
        Delayed(trailShift, pkt.Payload()) == ShiftStep(old(trailShift), pkt.curSeq, pkt.nextSeq, old(pkt.Payload()))
    {
      if extra != ShiftExtra {
        return;
      }
      var seqNo := pkt.curSeq;
      if seqNo !in trailShift {
        trailShift := trailShift[seqNo := ""];
      }
      var carry := trailShift[seqNo];
      if |carry| > 0 {
        var newt := DelayBytes(pkt.obuf, pkt.PayloadLen(), carry);
        trailShift := trailShift[pkt.nextSeq := newt];
      }
    }

    /** flow.cc:220-242 */
    method Count(pkt: Packet)
      requires pkt.Valid()
      modifies this`segments
      ensures !pkt.tcp ==> segments == old(segments)
      ensures pkt.tcp ==> segments == old(segments).Set(pkt.dest,
        Counted(old(segments).Get(pkt.dest), Segment(pkt.ibufSeq, Wrap(pkt.PayloadLen()))))
    {
      if !pkt.tcp {
        return;
      }
      var segs := segments.Get(pkt.dest);
      var s := Segment(pkt.ibufSeq, Wrap(pkt.transportLen - pkt.headerLen));
      if |segs| == 0 {
        segments := segments.Set(pkt.dest, segs + [s]);
      } else {
        if s.seqNo == segs[|segs| - 1].Next() {
          segments := segments.Set(pkt.dest, segs + [s]);
        }
      }
    }

    /** flow.cc:190-200 */
    method CutToFit(pkt: Packet, len: nat, lenOld: nat, extra: Extra) returns (newLen: nat)
      requires len <= pkt.obuf.Length
      modifies this`trail, this`trailShift
      ensures newLen == if pkt.tcp && len > lenOld > 1400 then lenOld else len
      ensures newLen == len ==> trail == old(trail) && trailShift == old(trailShift)
      ensures newLen < len && extra == ShiftExtra ==>
        trail == old(trail) && trailShift == old(trailShift)[pkt.nextSeq := pkt.obuf[lenOld..len]]
      ensures newLen < len && extra != ShiftExtra ==>
        trail == old(trail).Set(pkt.dest, pkt.obuf[lenOld..len]) && trailShift == old(trailShift)
    {
      newLen := len;
      if pkt.tcp && len > lenOld && lenOld > MSS {
        if extra == ShiftExtra {
          trailShift := trailShift[pkt.nextSeq := pkt.obuf[lenOld..len]];
        } else {
          trail := trail.Set(pkt.dest, pkt.obuf[lenOld..len]);
        }
        newLen := lenOld;
      }
    }
  }

  /** flow.cc:132-188: the new text, complete, in the output buffer. */
  method RewriteBytes(d: array<char>, s: array<char>, n: nat, ops: seq<Operation>, offset: int, parser: Parser)
    returns (len: nat)
    requires d != s && Runs(s.Length, n, ops, offset) && n + TotalDelta(ops) <= d.Length
    requires |Rewritten(s[..], n, ops, offset, parser.maxPos, parser.maxLen, parser.http)| <= d.Length
    modifies d, parser`maxPos
    ensures len <= d.Length
    ensures d[..len] == Rewritten(s[..], n, ops, offset, old(parser.maxPos), parser.maxLen, parser.http)
    ensures parser.maxPos == if old(parser.maxPos) > 0 then Tracked(ops, old(parser.maxPos)) else old(parser.maxPos)
  {
    var stop, pastOps;
    len, stop, pastOps := RewritePayload(d, s, n, ops, offset);
    var maxPos := MoveLimit(parser, ops);
    len := ExtendTail(d, len, maxPos - offset, parser);
  }

  /** flow.cc:166-177 */
  method MoveLimit(parser: Parser, ops: seq<Operation>) returns (maxPos: int)
    modifies parser`maxPos
    ensures parser.maxPos == if old(parser.maxPos) > 0 then Tracked(ops, old(parser.maxPos)) else old(parser.maxPos)
    ensures maxPos == Boundary(ops, 0, old(parser.maxPos), parser.maxLen)
  {
    maxPos := parser.maxPos;
    if maxPos > 0 {
      for i := 0 to |ops|
        invariant maxPos == parser.maxPos && Tracked(ops[i..], maxPos) == Tracked(ops, old(parser.maxPos))
      {
        assert ops[i..][0] == ops[i] && ops[i..][1..] == ops[i + 1..];
        if ops[i].end <= parser.maxPos {
          var d := |ops[i].newdata| - (ops[i].end - ops[i].start);
          maxPos := maxPos + d;
          parser.maxPos := parser.maxPos + d;
        }
      }
      maxPos := maxPos + parser.maxLen;
    }
  }

  /** flow.cc:180-188 */
  method ExtendTail(d: array<char>, len: nat, maxPos: int, parser: Parser) returns (newLen: nat)
    requires len <= d.Length && |WithTail(d[..len], maxPos, parser.http)| <= d.Length
    modifies d
    ensures newLen <= d.Length && d[..newLen] == WithTail(old(d[..len]), maxPos, parser.http)
  {
    newLen := len;
    if 0 < maxPos <= len {
      var oldContent := d[maxPos..len];
      ghost var text, kept := d[..len], d[..maxPos];
      var newContent := parser.Exceed(oldContent);
      TailFrom(text, maxPos, kept, oldContent, parser.http);
      if newContent != oldContent {
        CopyInto(d, maxPos, newContent);
        newLen := len - |oldContent| + |newContent|;
        assert d[..newLen] == kept + newContent;
      }
    }
  }

  lemma TailFrom(text: string, at: nat, kept: string, content: string, http: bool)
    requires 0 < at <= |text| && kept == text[..at] && content == text[at..]
    ensures Same(WithTail(text, at, http), kept + if http then HttpExceed(content) else content)
    ensures Same(kept + content, text)
  {
    assert kept + content == text;
  }

  /** flow.cc:209-215 */
  method DelayBytes(d: array<char>, len: nat, carry: string) returns (newt: string)
    requires |carry| <= len <= d.Length
    modifies d
    ensures d[..len] == (carry + old(d[..len]))[..len] && newt == (carry + old(d[..len]))[len..]
  {
    var slen := |carry|;
    ghost var payload := d[..len];
    newt := d[len - slen..len];
    MoveBehind(d, len, slen);
    CopyInto(d, 0, carry);
    DelayedBytes(carry, payload, d[..len], newt);
  }

  method MoveBehind(d: array<char>, len: nat, slen: nat)
    requires slen <= len <= d.Length
    modifies d
    ensures forall k :: slen <= k < len ==> d[k] == old(d[k - slen])
  {
    var i := len - 1;
    while i >= slen
      invariant slen - 1 <= i < len
      invariant forall k :: 0 <= k <= i ==> d[k] == old(d[k])
      invariant forall k :: i < k < len ==> d[k] == old(d[k - slen])
    {
      d[i] := d[i - slen];
      i := i - 1;
    }
  }

  lemma DelayedBytes(carry: string, payload: string, out: string, newt: string)
    requires |carry| <= |payload| == |out| && newt == payload[|payload| - |carry|..]
    requires forall k :: 0 <= k < |out| ==> out[k] == if k < |carry| then carry[k] else payload[k - |carry|]
    ensures out == (carry + payload)[..|payload|] && newt == (carry + payload)[|payload|..]
  {
  }
}
