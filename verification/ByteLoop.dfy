/**
  The one-pass loop of Flow::modify (flow.cc:132-161) as it stands, for any operations: where it
  reads, what it writes, and where it stops. `LoopIsSpliceExactly` says when it writes the splice.
 */
module ByteLoop {
  import opened Words
  import opened Operations
  import opened Splicing
  import opened ByteMachine

  // ----- one turn of the loop

  /** The loop variables ps and inside, and the operations from cnt on. */
  datatype Spot = Spot(ps: int, inside: bool, left: seq<Operation>) {
    predicate Ok() {
      inside ==> left != [] && 0 <= ps < |left[0].newdata|
    }
  }

  function Begin(ops: seq<Operation>): Spot {
    Spot(0, false, ops)
  }

  /** flow.cc:144-151: an operation that starts here is opened, or stepped over if it is empty. */
  function Enter(at: Spot, offset: int): (r: Spot)
    ensures at.Ok() ==> r.Ok()
  {
    if !at.inside && at.left != [] && at.ps == at.left[0].start - offset then
      if at.left[0].newdata == "" then Spot(at.left[0].end - offset, false, at.left[1..])
      else Spot(0, true, at.left)
    else at
  }

  /** flow.cc:152-160: where the loop stands after a byte. */
  function Advance(at: Spot, offset: int): (r: Spot)
    requires at.Ok()
    ensures r.Ok()
  {
    if !at.inside then Spot(at.ps + 1, false, at.left)
    else if at.ps + 1 == |at.left[0].newdata| then Spot(at.left[0].end - offset, false, at.left[1..])
    else Spot(at.ps + 1, true, at.left)
  }

  /** The byte written next is new data, or it is read from a buffer of cap bytes. */
  predicate Reads(cap: nat, at: Spot) {
    at.inside || 0 <= at.ps < cap
  }

  function ByteAt(src: string, at: Spot): char
    requires at.Ok() && Reads(|src|, at)
  {
    if at.inside then at.left[0].newdata[at.ps] else src[at.ps]
  }

  // ----- many turns

  /** The next room bytes are all read inside a buffer of cap bytes. */
  predicate InBounds(cap: nat, at: Spot, offset: int, room: nat)
    requires at.Ok()
    decreases room
  {
    room == 0 ||
    var e := Enter(at, offset);
    Reads(cap, e) && InBounds(cap, Advance(e, offset), offset, room - 1)
  }

  /** The next room bytes. */
  function Output(src: string, at: Spot, offset: int, room: nat): (r: string)
    requires at.Ok() && InBounds(|src|, at, offset, room)
    ensures |r| == room
    decreases room
  {
    if room == 0 then ""
    else
      var e := Enter(at, offset);
      [ByteAt(src, e)] + Output(src, Advance(e, offset), offset, room - 1)
  }

  /** Where the loop stands after room bytes. */
  function Halt(at: Spot, offset: int, room: nat): (r: Spot)
    requires at.Ok()
    ensures r.Ok()
    decreases room
  {
    if room == 0 then at else Halt(Advance(Enter(at, offset), offset), offset, room - 1)
  }

  /** The test of flow.cc:144 reads ops[cnt] with cnt == ops.size() for one of the next room bytes. */
  predicate ReadsPastOps(at: Spot, offset: int, room: nat)
    requires at.Ok()
    decreases room
  {
    room > 0 && ((!at.inside && at.left == []) || ReadsPastOps(Advance(Enter(at, offset), offset), offset, room - 1))
  }

  /** The loop can run on a packet of n bytes in a buffer of cap bytes. */
  predicate Runs(cap: nat, n: nat, ops: seq<Operation>, offset: int) {
    0 <= n + TotalDelta(ops) && InBounds(cap, Begin(ops), offset, n + TotalDelta(ops))
  }

  /** What the loop writes. */
  function Written(src: string, n: nat, ops: seq<Operation>, offset: int): string
    requires Runs(|src|, n, ops, offset)
  {
    Output(src, Begin(ops), offset, n + TotalDelta(ops))
  }

  // ----- the open operation

  /** The rest of an open operation's data is written, and the loop goes on behind its range. */
  lemma {:induction false} DataIsWritten(cap: nat, at: Spot, offset: int, room: nat, k: nat)
    requires at.Ok() && at.inside && k == |at.left[0].newdata| - at.ps <= room
    ensures var behind := Spot(at.left[0].end - offset, false, at.left[1..]);
      && (InBounds(cap, at, offset, room) <==> InBounds(cap, behind, offset, room - k))
      && Halt(at, offset, room) == Halt(behind, offset, room - k)
      && (ReadsPastOps(at, offset, room) <==> ReadsPastOps(behind, offset, room - k))
    decreases k
  {
    if k > 1 {
      DataIsWritten(cap, Spot(at.ps + 1, true, at.left), offset, room - 1, k - 1);
    }
  }

  lemma {:induction false} DataText(src: string, at: Spot, offset: int, room: nat, k: nat)
    requires at.Ok() && at.inside && k == |at.left[0].newdata| - at.ps <= room && InBounds(|src|, at, offset, room)
    ensures var behind := Spot(at.left[0].end - offset, false, at.left[1..]);
      && InBounds(|src|, behind, offset, room - k)
      && Same(Output(src, at, offset, room), at.left[0].newdata[at.ps..] + Output(src, behind, offset, room - k))
    decreases k
  {
    DataIsWritten(|src|, at, offset, room, k);
    var data, behind := at.left[0].newdata, Spot(at.left[0].end - offset, false, at.left[1..]);
    assert data[at.ps..] == [data[at.ps]] + data[at.ps + 1..];
    if k > 1 {
      DataText(src, Spot(at.ps + 1, true, at.left), offset, room - 1, k - 1);
      Associates([data[at.ps]], data[at.ps + 1..], Output(src, behind, offset, room - k));
    } else {
      assert data[at.ps..] == [data[at.ps]];
    }
  }

  /** At the start of an operation with data the loop writes the data and goes on behind its range. */
  lemma AtDataRuns(cap: nat, at: Spot, offset: int, room: nat, behind: Spot, left: nat)
    requires !at.inside && at.left != [] && at.ps == at.left[0].start - offset && at.left[0].newdata != ""
    requires room == |at.left[0].newdata| + left && behind == Spot(at.left[0].end - offset, false, at.left[1..])
    ensures InBounds(cap, at, offset, room) <==> InBounds(cap, behind, offset, left)
    ensures Halt(at, offset, room) == Halt(behind, offset, left)
    ensures ReadsPastOps(at, offset, room) <==> ReadsPastOps(behind, offset, left)
  {
    DataIsWritten(cap, Spot(0, true, at.left), offset, room, |at.left[0].newdata|);
  }

  /** At an empty operation the loop goes to its end and copies the byte there. */
  lemma AtEmptyRuns(cap: nat, at: Spot, offset: int, room: nat, q: int, behind: Spot)
    requires !at.inside && at.left != [] && at.ps == at.left[0].start - offset && at.left[0].newdata == "" && room > 0
    requires q == at.left[0].end - offset && behind == Spot(q + 1, false, at.left[1..])
    ensures InBounds(cap, at, offset, room) <==> 0 <= q < cap && InBounds(cap, behind, offset, room - 1)
    ensures Halt(at, offset, room) == Halt(behind, offset, room - 1)
    ensures ReadsPastOps(at, offset, room) <==> ReadsPastOps(behind, offset, room - 1)
  {
  }

  /** Elsewhere it copies a byte. */
  lemma CopyRuns(cap: nat, at: Spot, offset: int, room: nat, next: Spot)
    requires !at.inside && (at.left == [] || at.ps != at.left[0].start - offset) && room > 0
    requires next == Spot(at.ps + 1, false, at.left)
    ensures InBounds(cap, at, offset, room) <==> 0 <= at.ps < cap && InBounds(cap, next, offset, room - 1)
    ensures Halt(at, offset, room) == Halt(next, offset, room - 1)
    ensures ReadsPastOps(at, offset, room) <==> at.left == [] || ReadsPastOps(next, offset, room - 1)
  {
  }

  /** At the start of an operation with data. */
  lemma AtData(src: string, at: Spot, offset: int, room: nat)
    requires !at.inside && at.left != [] && at.ps == at.left[0].start - offset && at.left[0].newdata != ""
    requires |at.left[0].newdata| <= room && InBounds(|src|, at, offset, room)
    ensures var behind := Spot(at.left[0].end - offset, false, at.left[1..]);
      && InBounds(|src|, behind, offset, room - |at.left[0].newdata|)
      && Same(Output(src, at, offset, room), at.left[0].newdata + Output(src, behind, offset, room - |at.left[0].newdata|))
  {
    var open := Spot(0, true, at.left);
    assert InBounds(|src|, open, offset, room) && Output(src, at, offset, room) == Output(src, open, offset, room);
    DataText(src, open, offset, room, |at.left[0].newdata|);
    assert at.left[0].newdata[0..] == at.left[0].newdata;
  }

  // ----- the buffer

  /** What lies behind the bytes that are read does not matter. */
  lemma {:induction false} LongerBuffer(src: string, more: string, at: Spot, offset: int, room: nat)
    requires at.Ok() && InBounds(|src|, at, offset, room)
    ensures InBounds(|src + more|, at, offset, room)
    ensures Same(Output(src + more, at, offset, room), Output(src, at, offset, room))
    decreases room
  {
    if room > 0 {
      var e := Enter(at, offset);
      LongerBuffer(src, more, Advance(e, offset), offset, room - 1);
      assert ByteAt(src + more, e) == ByteAt(src, e);
    }
  }

  lemma {:induction false} WiderBounds(cap: nat, cap': nat, at: Spot, offset: int, room: nat)
    requires at.Ok() && InBounds(cap, at, offset, room) && cap <= cap'
    ensures InBounds(cap', at, offset, room)
    decreases room
  {
    if room > 0 {
      WiderBounds(cap, cap', Advance(Enter(at, offset), offset), offset, room - 1);
    }
  }

  // ----- operations that fit

  /** For operations that fit, the bytes written are those of Sweep. */
  lemma {:induction false} LoopBounds(cap: nat, n: nat, ops: seq<Operation>, offset: int, ps: nat, room: nat)
    requires Fits(ops, offset, offset + n) && n + TotalNew(ops) <= cap && ps + room == n + TotalDelta(ops)
    ensures InBounds(cap, Spot(ps, false, ops), offset, room)
    decreases room
  {
    TailFits(ops, offset, offset + n);
    var at := Spot(ps, false, ops);
    if room > 0 {
      if ops != [] && ps == ops[0].start - offset {
        var q := ops[0].end - offset;
        if ops[0].newdata == "" {
          LoopBounds(cap, n, ops[1..], offset, q + 1, room - 1);
          AtEmptyRuns(cap, at, offset, room, q, Spot(q + 1, false, ops[1..]));
        } else {
          var left := room - |ops[0].newdata|;
          LoopBounds(cap, n, ops[1..], offset, q, left);
          AtDataRuns(cap, at, offset, room, Spot(q, false, ops[1..]), left);
        }
      } else {
        LoopBounds(cap, n, ops, offset, ps + 1, room - 1);
        CopyRuns(cap, at, offset, room, Spot(ps + 1, false, ops));
      }
    }
  }

  lemma AtEmptyText(src: string, at: Spot, offset: int, room: nat, q: int, behind: Spot)
    requires !at.inside && at.left != [] && at.ps == at.left[0].start - offset && at.left[0].newdata == "" && room > 0
    requires q == at.left[0].end - offset && behind == Spot(q + 1, false, at.left[1..]) && InBounds(|src|, at, offset, room)
    ensures 0 <= q < |src| && InBounds(|src|, behind, offset, room - 1)
    ensures Same(Output(src, at, offset, room), [src[q]] + Output(src, behind, offset, room - 1))
  {
    AtEmptyRuns(|src|, at, offset, room, q, behind);
  }

  lemma CopiedText(src: string, at: Spot, offset: int, room: nat, next: Spot)
    requires !at.inside && (at.left == [] || at.ps != at.left[0].start - offset) && room > 0
    requires next == Spot(at.ps + 1, false, at.left) && InBounds(|src|, at, offset, room)
    ensures 0 <= at.ps < |src| && InBounds(|src|, next, offset, room - 1)
    ensures Same(Output(src, at, offset, room), [src[at.ps]] + Output(src, next, offset, room - 1))
  {
    CopyRuns(|src|, at, offset, room, next);
  }

  /** Loop and Sweep agree on the next room bytes. */
  ghost predicate Agrees(src: string, n: nat, ops: seq<Operation>, offset: int, ps: nat, room: nat) {
    && Fits(ops, offset, offset + n) && n + TotalNew(ops) <= |src| && ps + room == n + TotalDelta(ops)
    && InBounds(|src|, Spot(ps, false, ops), offset, room)
    && Same(Output(src, Spot(ps, false, ops), offset, room), Sweep(src, n, ops, offset, ps, room))
  }

  /** The two can be compared there. */
  ghost predicate Comparable(src: string, n: nat, ops: seq<Operation>, offset: int, ps: nat, room: nat) {
    && Fits(ops, offset, offset + n) && n + TotalNew(ops) <= |src| && ps + room == n + TotalDelta(ops)
    && InBounds(|src|, Spot(ps, false, ops), offset, room)
  }

  lemma AgreesAtEmpty(src: string, n: nat, ops: seq<Operation>, offset: int, ps: nat, room: nat, q: nat)
    requires Comparable(src, n, ops, offset, ps, room) && room > 0
    requires ops != [] && ps == ops[0].start - offset && ops[0].newdata == "" && q == ops[0].end - offset
    requires Agrees(src, n, ops[1..], offset, q + 1, room - 1)
    ensures Agrees(src, n, ops, offset, ps, room)
  {
    AtEmptyText(src, Spot(ps, false, ops), offset, room, q, Spot(q + 1, false, ops[1..]));
  }

  lemma AgreesAtData(src: string, n: nat, ops: seq<Operation>, offset: int, ps: nat, room: nat, q: nat, left: nat)
    requires Comparable(src, n, ops, offset, ps, room) && room > 0
    requires ops != [] && ps == ops[0].start - offset && ops[0].newdata != "" && q == ops[0].end - offset
    requires room == |ops[0].newdata| + left && Agrees(src, n, ops[1..], offset, q, left)
    ensures Agrees(src, n, ops, offset, ps, room)
  {
    AtData(src, Spot(ps, false, ops), offset, room);
  }

  lemma AgreesCopying(src: string, n: nat, ops: seq<Operation>, offset: int, ps: nat, room: nat)
    requires Comparable(src, n, ops, offset, ps, room) && room > 0
    requires (ops == [] || ps != ops[0].start - offset) && Agrees(src, n, ops, offset, ps + 1, room - 1)
    ensures Agrees(src, n, ops, offset, ps, room)
  {
    CopiedText(src, Spot(ps, false, ops), offset, room, Spot(ps + 1, false, ops));
  }

  lemma {:induction false} LoopIsSweep(src: string, n: nat, ops: seq<Operation>, offset: int, ps: nat, room: nat)
    requires Comparable(src, n, ops, offset, ps, room)
    ensures Agrees(src, n, ops, offset, ps, room)
    decreases room
  {
    if room > 0 {
      if ops != [] && ps == ops[0].start - offset {
        var q := EndInPacket(ops, n, offset);
        if ops[0].newdata == "" {
          ComparableBehindEmpty(src, n, ops, offset, ps, room, q);
          LoopIsSweep(src, n, ops[1..], offset, q + 1, room - 1);
          AgreesAtEmpty(src, n, ops, offset, ps, room, q);
        } else {
          var left := ComparableBehindData(src, n, ops, offset, ps, room, q);
          LoopIsSweep(src, n, ops[1..], offset, q, left);
          AgreesAtData(src, n, ops, offset, ps, room, q, left);
        }
      } else {
        ComparableCopying(src, n, ops, offset, ps, room);
        LoopIsSweep(src, n, ops, offset, ps + 1, room - 1);
        AgreesCopying(src, n, ops, offset, ps, room);
      }
    }
  }

  lemma EndInPacket(ops: seq<Operation>, n: nat, offset: int) returns (q: nat)
    requires ops != [] && Fits(ops, offset, offset + n)
    ensures q == ops[0].end - offset
  {
    q := ops[0].end - offset;
  }

  lemma ComparableCopying(src: string, n: nat, ops: seq<Operation>, offset: int, ps: nat, room: nat)
    requires Comparable(src, n, ops, offset, ps, room) && room > 0 && (ops == [] || ps != ops[0].start - offset)
    ensures Comparable(src, n, ops, offset, ps + 1, room - 1)
  {
    CopyRuns(|src|, Spot(ps, false, ops), offset, room, Spot(ps + 1, false, ops));
  }

  lemma ComparableBehindEmpty(src: string, n: nat, ops: seq<Operation>, offset: int, ps: nat, room: nat, q: nat)
    requires Comparable(src, n, ops, offset, ps, room) && room > 0
    requires ops != [] && ps == ops[0].start - offset && ops[0].newdata == "" && q == ops[0].end - offset
    ensures Comparable(src, n, ops[1..], offset, q + 1, room - 1)
  {
    TailFits(ops, offset, offset + n);
    AtEmptyRuns(|src|, Spot(ps, false, ops), offset, room, q, Spot(q + 1, false, ops[1..]));
  }

  lemma ComparableBehindData(src: string, n: nat, ops: seq<Operation>, offset: int, ps: nat, room: nat, q: nat)
    returns (left: nat)
    requires Comparable(src, n, ops, offset, ps, room) && room > 0
    requires ops != [] && ps == ops[0].start - offset && ops[0].newdata != "" && q == ops[0].end - offset
    ensures room == |ops[0].newdata| + left && Comparable(src, n, ops[1..], offset, q, left)
  {
    TailFits(ops, offset, offset + n);
    left := room - |ops[0].newdata|;
    AtDataRuns(|src|, Spot(ps, false, ops), offset, room, Spot(q, false, ops[1..]), left);
  }

  /** A buffer with room for all new data behind the packet is always enough. */
  lemma RoomRuns(cap: nat, n: nat, ops: seq<Operation>, offset: int)
    requires Fits(ops, offset, offset + n) && n + TotalNew(ops) <= cap
    ensures Runs(cap, n, ops, offset)
  {
    RoomLeft(ops, offset, offset + n);
    LoopBounds(cap, n, ops, offset, 0, n + TotalDelta(ops));
  }

  /** On a buffer that is long enough for the loop, with any fill behind it, the loop is Sweep. */
  lemma WrittenIsSweep(src: string, fill: string, n: nat, ops: seq<Operation>, offset: int)
    requires Fits(ops, offset, offset + n) && n + TotalNew(ops) <= |src + fill| && Runs(|src|, n, ops, offset)
    ensures Same(Written(src, n, ops, offset), Sweep(src + fill, n, ops, offset, 0, n + TotalDelta(ops)))
  {
    LongerBuffer(src, fill, Begin(ops), offset, n + TotalDelta(ops));
    LoopIsSweep(src + fill, n, ops, offset, 0, n + TotalDelta(ops));
  }

  function Fill(k: int): (r: string)
    ensures k <= |r|
  {
    if k <= 0 then "" else seq(k, _ => ' ')
  }

  /** Sweepable operations: what the loop writes is the splice. */
  lemma WrittenIsSplice(src: string, n: nat, ops: seq<Operation>, offset: int)
    requires Fits(ops, offset, offset + n) && n <= |src| && Runs(|src|, n, ops, offset) && Sweepable(ops, offset + n)
    ensures Same(Written(src, n, ops, offset), Splice(src[..n], ops, offset))
  {
    var fill := Fill(n + TotalNew(ops) - |src|);
    WrittenIsSweep(src, fill, n, ops, offset);
    SweepableIsSplice(src + fill, n, ops, offset, 0, n + TotalDelta(ops), offset, offset + n);
    StartOfBuffer(src, fill, n);
  }

  lemma StartOfBuffer(src: string, fill: string, n: nat)
    requires n <= |src|
    ensures Same((src + fill)[0..n], src[..n])
  {
    assert (src + fill)[0..n] == src[..n];
  }

  /** Whatever the buffer holds, the loop writes the splice. */
  ghost predicate AlwaysSplices(cap: nat, n: nat, ops: seq<Operation>, offset: int)
    requires Fits(ops, offset, offset + n) && n <= cap && Runs(cap, n, ops, offset)
  {
    forall src: string :: |src| == cap ==> Written(src, n, ops, offset) == Splice(src[..n], ops, offset)
  }

  /** The loop is right for every contents of its buffer exactly when the operations are sweepable. */
  lemma LoopIsSpliceExactly(cap: nat, n: nat, ops: seq<Operation>, offset: int)
    requires Fits(ops, offset, offset + n) && n <= cap && Runs(cap, n, ops, offset)
    ensures AlwaysSplices(cap, n, ops, offset) <==> Sweepable(ops, offset + n)
  {
    if Sweepable(ops, offset + n) {
      forall src: string | |src| == cap ensures Written(src, n, ops, offset) == Splice(src[..n], ops, offset) {
        WrittenIsSplice(src, n, ops, offset);
      }
    } else {
      var src := LoopDiffers(cap, n, ops, offset);
    }
  }

  lemma LoopDiffers(cap: nat, n: nat, ops: seq<Operation>, offset: int) returns (src: string)
    requires Fits(ops, offset, offset + n) && n <= cap && Runs(cap, n, ops, offset) && !Sweepable(ops, offset + n)
    ensures |src| == cap && Written(src, n, ops, offset) != Splice(src[..n], ops, offset)
  {
    var room := n + TotalDelta(ops);
    var long := NotSweepableDiffers(cap + TotalNew(ops), n, ops, offset, 0, room, offset, offset + n);
    src := long[..cap];
    var fill := long[cap..];
    Halves(long, cap);
    WrittenIsSweep(src, fill, n, ops, offset);
    StartOfBuffer(src, fill, n);
  }

  // ----- separated operations

  /** The last operation cuts off the end of the packet, or is empty there. */
  predicate CutsEnd(ops: seq<Operation>, hi: int) {
    ops != [] && ops[|ops| - 1].newdata == "" && ops[|ops| - 1].end == hi
  }

  /** Behind the last operation; an empty one is left together with one copied byte. */
  function BehindLast(ops: seq<Operation>): int
    requires ops != []
  {
    ops[|ops| - 1].end + if ops[|ops| - 1].newdata == "" then 1 else 0
  }

  lemma SeparatedTail(ops: seq<Operation>)
    requires Separated(ops) && ops != []
    ensures Separated(ops[1..])
    ensures |ops| > 1 ==> ops[1..][|ops| - 2] == ops[|ops| - 1]
    ensures |ops| > 1 && ops[0].newdata == "" ==> ops[1..][0].start != ops[0].end
  {
    forall i | 0 <= i < |ops[1..]| - 1
      ensures ops[1..][i].newdata != "" || ops[1..][i + 1].start != ops[1..][i].end
    {
      assert ops[1..][i] == ops[i + 1] && ops[1..][i + 1] == ops[i + 1 + 1];
    }
    assert |ops| > 1 ==> ops[0].newdata != "" || ops[0 + 1].start != ops[0].end;
  }

  /** Nothing more is written only at the end, or if one last operation cuts off the rest. */
  lemma NothingMore(ops: seq<Operation>, lo: int, hi: int)
    requires Fits(ops, lo, hi) && Separated(ops) && ops != [] && hi - lo + TotalDelta(ops) == 0
    ensures |ops| == 1 && ops[0].start == lo && ops[0].end == hi && ops[0].newdata == ""
    decreases |ops|
  {
    RoomLeft(ops[1..], ops[0].end, hi);
    SeparatedTail(ops);
    if |ops| > 1 {
      NothingMore(ops[1..], ops[0].end, hi);
    }
  }

  /** Where the loop stops on a packet of n bytes. */
  function Stop(ops: seq<Operation>, n: nat, offset: int): Spot {
    if CutsEnd(ops, offset + n) then Spot(ops[|ops| - 1].start - offset, false, [ops[|ops| - 1]]) else Spot(n, false, [])
  }

  /** Bytes are left behind the last operation to be copied. */
  predicate BytesBehind(ops: seq<Operation>, ps: int, n: nat, offset: int) {
    if ops == [] then ps < n else BehindLast(ops) < offset + n
  }

  lemma StopAfterFirst(ops: seq<Operation>, n: nat, offset: int, ps: int)
    requires ops != [] && Separated(ops)
    requires ps == ops[0].end - offset + (if ops[0].newdata == "" then 1 else 0)
    requires ops[0].newdata == "" && |ops| == 1 ==> ops[0].end < offset + n
    ensures Stop(ops, n, offset) == Stop(ops[1..], n, offset)
    ensures BytesBehind(ops, ps, n, offset) <==> BytesBehind(ops[1..], ps, n, offset)
  {
    SeparatedTail(ops);
  }

  /** From here the loop stays inside the packet of n bytes and ends as it should. */
  ghost predicate EndsWell(n: nat, ops: seq<Operation>, offset: int, ps: int, room: nat) {
    var at := Spot(ps, false, ops);
    && InBounds(n, at, offset, room)
    && Halt(at, offset, room) == Stop(ops, n, offset)
    && (ReadsPastOps(at, offset, room) <==> BytesBehind(ops, ps, n, offset))
  }

  lemma EndsWellAtEmpty(n: nat, ops: seq<Operation>, offset: int, ps: int, room: nat, q: nat)
    requires ops != [] && Separated(ops) && ps == ops[0].start - offset && ops[0].newdata == "" && room > 0
    requires q == ops[0].end - offset < n && EndsWell(n, ops[1..], offset, q + 1, room - 1)
    ensures EndsWell(n, ops, offset, ps, room)
  {
    AtEmptyRuns(n, Spot(ps, false, ops), offset, room, q, Spot(q + 1, false, ops[1..]));
    StopAfterFirst(ops, n, offset, q + 1);
  }

  lemma EndsWellAtData(n: nat, ops: seq<Operation>, offset: int, ps: int, room: nat, q: nat, left: nat)
    requires ops != [] && Separated(ops) && ps == ops[0].start - offset && ops[0].newdata != ""
    requires room == |ops[0].newdata| + left && q == ops[0].end - offset && EndsWell(n, ops[1..], offset, q, left)
    ensures EndsWell(n, ops, offset, ps, room)
  {
    AtDataRuns(n, Spot(ps, false, ops), offset, room, Spot(q, false, ops[1..]), left);
    StopAfterFirst(ops, n, offset, q);
  }

  lemma EndsWellCopying(n: nat, ops: seq<Operation>, offset: int, ps: nat, room: nat)
    requires (ops == [] || ps != ops[0].start - offset) && room > 0 && ps < n && EndsWell(n, ops, offset, ps + 1, room - 1)
    ensures EndsWell(n, ops, offset, ps, room)
  {
    CopyRuns(n, Spot(ps, false, ops), offset, room, Spot(ps + 1, false, ops));
  }

  /** Inside the packet, the loop standing at or before the first operation. */
  lemma {:induction false} SeparatedLoop(n: nat, ops: seq<Operation>, offset: int, ps: nat, room: nat, lo: int, hi: int)
    requires lo == offset + ps && hi == offset + n && Fits(ops, lo, hi) && Separated(ops)
    requires ps <= n && room == n - ps + TotalDelta(ops)
    ensures EndsWell(n, ops, offset, ps, room)
    decreases room, |ops|
  {
    if room == 0 {
      if ops != [] {
        NothingMore(ops, lo, hi);
      }
    } else if ops != [] && ps == ops[0].start - offset {
      SeparatedTail(ops);
      RoomLeft(ops[1..], ops[0].end, hi);
      var q: nat := ops[0].end - offset;
      if ops[0].newdata == "" {
        EmptyThenMore(ops, hi);
        SeparatedLoop(n, ops[1..], offset, q + 1, room - 1, ops[0].end + 1, hi);
        EndsWellAtEmpty(n, ops, offset, ps, room, q);
      } else {
        var left: nat := room - |ops[0].newdata|;
        SeparatedLoop(n, ops[1..], offset, q, left, ops[0].end, hi);
        EndsWellAtData(n, ops, offset, ps, room, q, left);
      }
    } else {
      SeparatedLoop(n, ops, offset, ps + 1, room - 1, lo + 1, hi);
      EndsWellCopying(n, ops, offset, ps, room);
    }
  }

  /** Behind an empty operation, if more is written, there is a byte to copy. */
  lemma EmptyThenMore(ops: seq<Operation>, hi: int)
    requires ops != [] && Separated(ops) && ops[0].newdata == "" && Fits(ops[1..], ops[0].end, hi)
    requires hi - ops[0].end + TotalDelta(ops[1..]) > 0
    ensures ops[0].end < hi && Fits(ops[1..], ops[0].end + 1, hi)
  {
    SeparatedTail(ops);
  }

  /**
    Separated operations inside a packet of n bytes: every byte is read from the packet; at the end
    all of the packet and all operations are consumed, unless the last one cuts off the end; and
    ops[cnt] is read behind the last operation exactly if bytes are left behind it to be copied.
   */
  lemma SeparatedRun(n: nat, ops: seq<Operation>, offset: int)
    requires Fits(ops, offset, offset + n) && Separated(ops)
    ensures Runs(n, n, ops, offset)
    ensures var stop := Halt(Begin(ops), offset, n + TotalDelta(ops));
      && (stop.ps == n && stop.left == [] <==> !CutsEnd(ops, offset + n))
      && (CutsEnd(ops, offset + n) ==> stop == Spot(ops[|ops| - 1].start - offset, false, [ops[|ops| - 1]]))
    ensures ops != [] ==>
      (ReadsPastOps(Begin(ops), offset, n + TotalDelta(ops)) <==> BehindLast(ops) < offset + n)
  {
    RoomLeft(ops, offset, offset + n);
    SeparatedLoop(n, ops, offset, 0, n + TotalDelta(ops), offset, offset + n);
  }

  /** A deletion followed at once by a replacement: the replacement is lost and a deleted byte survives. */
  lemma AdjacentAfterEmptyIsLost(ops: seq<Operation>, rest: seq<Operation>)
    requires rest == [Operation(1, 2, "X", false)] && ops == [Operation(0, 1, "", false)] + rest
    ensures Fits(ops, 0, 3) && Runs(3, 3, ops, 0) && Written("abc", 3, ops, 0) == "bc" && Splice("abc", ops, 0) == "Xc"
  {
    assert ops[1..] == rest && rest[1..] == [];
    assert TotalDelta(rest[1..]) == 0 && rest[0].Delta() == 0;
    assert TotalDelta(rest) == rest[0].Delta() + TotalDelta(rest[1..]) && ops[0].Delta() == -1;
    assert TotalDelta(ops) == ops[0].Delta() + TotalDelta(rest);
    MissedStart("abc", Spot(2, false, rest), 0, 1);
    AtEmptyRuns(3, Begin(ops), 0, 2, 1, Spot(2, false, rest));
    AtEmptyText("abc", Begin(ops), 0, 2, 1, Spot(2, false, rest));
    assert "abc"[2..3] == "c" && ['b'] + "c" == "bc";
    assert Fits(rest, 0, 3) && Splice("abc", rest[1..], 0) == "abc";
    BothReplaced();
    assert Splice("abc", rest, 0) == "aXc";
  }

  lemma BothReplaced()
    ensures ReplaceOne("abc", 1, 2, "X") == "aXc" && ReplaceOne("aXc", 0, 1, "") == "Xc"
  {
    assert "abc"[..1] == "a" && "abc"[2..] == "c" && "a" + "X" == "aX" && "aX" + "c" == "aXc";
    assert "aXc"[..0] == "" && "aXc"[1..] == "Xc" && "" + "" == "" && "" + "Xc" == "Xc";
  }

  /** A deletion at the end is never consumed. */
  lemma DeletedEndIsNotConsumed()
    ensures var cut := Operation(1, 3, "", false);
      Fits([cut], 0, 3) && Separated([cut]) && Halt(Begin([cut]), 0, 1) == Spot(1, false, [cut])
  {
  }

  /** An ordinary replacement in front of other text: the second byte is written after a read of ops[1]. */
  lemma ReplacementReadsPastOps()
    ensures var ops := [Operation(0, 1, "X", false)];
      Fits(ops, 0, 2) && Separated(ops) && TotalDelta(ops) == 0 && ReadsPastOps(Begin(ops), 0, 2)
  {
    var ops := [Operation(0, 1, "X", false)];
    assert ops[1..] == [];
    SeparatedRun(2, ops, 0);
  }

  // ----- operations that do not fit

  /** The loop has passed the start of the next operation: it copies for ever after. */
  lemma {:induction false} MissedStart(src: string, at: Spot, offset: int, room: nat)
    requires !at.inside && at.left != [] && at.left[0].start - offset < at.ps && 0 <= at.ps && at.ps + room <= |src|
    ensures InBounds(|src|, at, offset, room)
    ensures Same(Output(src, at, offset, room), src[at.ps..at.ps + room])
    ensures Halt(at, offset, room) == Spot(at.ps + room, false, at.left)
    decreases room
  {
    if room > 0 {
      MissedStart(src, Spot(at.ps + 1, false, at.left), offset, room - 1);
      SliceHead(src, at.ps, at.ps + room);
    } else {
      assert src[at.ps..at.ps + room] == "";
    }
  }

  /** No operation is opened between here and the position q. */
  predicate NothingOpens(at: Spot, offset: int, q: int) {
    !at.inside && 0 <= at.ps <= q
    && (at.left == [] || at.left[0].start - offset < at.ps || q <= at.left[0].start - offset)
  }

  lemma {:induction false} CopyingStays(cap: nat, at: Spot, offset: int, q: nat, room: nat, left: nat)
    requires NothingOpens(at, offset, q) && q <= cap && room == q - at.ps + left
    ensures InBounds(cap, at, offset, room) <==> InBounds(cap, Spot(q, false, at.left), offset, left)
    decreases q - at.ps
  {
    if at.ps < q {
      var next := Spot(at.ps + 1, false, at.left);
      CopyRuns(cap, at, offset, room, next);
      CopyingStays(cap, next, offset, q, room - 1, left);
    }
  }

  /** Up to there the bytes are copied. */
  lemma {:induction false} CopiesUpTo(src: string, at: Spot, offset: int, q: nat, room: nat, left: nat)
    requires NothingOpens(at, offset, q) && q <= |src| && room == q - at.ps + left && InBounds(|src|, at, offset, room)
    ensures InBounds(|src|, Spot(q, false, at.left), offset, left)
    ensures Same(Output(src, at, offset, room), src[at.ps..q] + Output(src, Spot(q, false, at.left), offset, left))
    decreases q - at.ps
  {
    CopyingStays(|src|, at, offset, q, room, left);
    var more := Output(src, Spot(q, false, at.left), offset, left);
    if at.ps < q {
      var next := Spot(at.ps + 1, false, at.left);
      CopiedText(src, at, offset, room, next);
      CopiesUpTo(src, next, offset, q, room - 1, left);
      SliceHead(src, at.ps, q);
      Associates([src[at.ps]], src[at.ps + 1..q], more);
    } else {
      assert src[at.ps..q] == "";
      EmptyIsNeutral(more);
    }
  }

  predicate AllHaveData(ops: seq<Operation>) {
    forall i :: 0 <= i < |ops| ==> ops[i].newdata != ""
  }

  /** Behind the operations, or lo if there are none. */
  function EndOfOps(ops: seq<Operation>, lo: int): int {
    if ops == [] then lo else ops[|ops| - 1].end
  }

  lemma EndOfTail(a: seq<Operation>, lo: int)
    requires a != []
    ensures EndOfOps(a[1..], a[0].end) == EndOfOps(a, lo)
    ensures AllHaveData(a) ==> AllHaveData(a[1..]) && a[0].newdata != ""
  {
    assert |a| > 1 ==> a[1..][|a| - 2] == a[|a| - 1];
  }

  /** The next operation does not start between lo and hi. */
  predicate NoStart(ops: seq<Operation>, lo: int, hi: int) {
    ops == [] || ops[0].start < lo || hi <= ops[0].start
  }

  /** The first operation, which has data: where the loop stands behind it. */
  lemma FirstOperationRuns(cap: nat, ops: seq<Operation>, offset: int, ps: nat, st: nat, q: nat, room: nat, left: nat)
    requires ops != [] && st == ops[0].start - offset && q == ops[0].end - offset && ps <= st <= cap
    requires ops[0].newdata != "" && room == st - ps + |ops[0].newdata| + left
    ensures InBounds(cap, Spot(ps, false, ops), offset, room) <==> InBounds(cap, Spot(q, false, ops[1..]), offset, left)
  {
    CopyingStays(cap, Spot(ps, false, ops), offset, st, room, room - (st - ps));
    AtDataRuns(cap, Spot(st, false, ops), offset, room - (st - ps), Spot(q, false, ops[1..]), left);
  }

  lemma FirstOperation(src: string, ops: seq<Operation>, offset: int, ps: nat, st: nat, q: nat, room: nat, left: nat)
    requires ops != [] && st == ops[0].start - offset && q == ops[0].end - offset && ps <= st <= |src|
    requires ops[0].newdata != "" && room == st - ps + |ops[0].newdata| + left
    requires InBounds(|src|, Spot(ps, false, ops), offset, room)
    ensures InBounds(|src|, Spot(q, false, ops[1..]), offset, left)
    ensures Same(Output(src, Spot(ps, false, ops), offset, room),
                 src[ps..st] + (ops[0].newdata + Output(src, Spot(q, false, ops[1..]), offset, left)))
  {
    FirstOperationRuns(|src|, ops, offset, ps, st, q, room, left);
    CopiesUpTo(src, Spot(ps, false, ops), offset, st, room, room - (st - ps));
    AtData(src, Spot(st, false, ops), offset, room - (st - ps));
  }

  lemma {:induction false} FirstPartRuns(cap: nat, a: seq<Operation>, b: seq<Operation>, offset: int, ps: nat, cut: nat,
                                         room: nat, rest: nat)
    requires ps <= cut <= cap && Fits(a, offset + ps, offset + cut) && AllHaveData(a)
    requires room == cut - ps + TotalDelta(a) + rest && NoStart(b, EndOfOps(a, offset + ps), offset + cut)
    ensures InBounds(cap, Spot(ps, false, a + b), offset, room) <==> InBounds(cap, Spot(cut, false, b), offset, rest)
    decreases |a|
  {
    if a == [] {
      assert a + b == b;
      CopyingStays(cap, Spot(ps, false, b), offset, cut, room, rest);
    } else {
      var st: nat, q: nat := a[0].start - offset, a[0].end - offset;
      RoomLeft(a[1..], a[0].end, offset + cut);
      assert (a + b)[0] == a[0] && (a + b)[1..] == a[1..] + b;
      var left: nat := room - (st - ps) - |a[0].newdata|;
      EndOfTail(a, offset + ps);
      FirstOperationRuns(cap, a + b, offset, ps, st, q, room, left);
      FirstPartRuns(cap, a[1..], b, offset, q, cut, left, rest);
    }
  }

  /**
    A first part whose operations have data and fit is rewritten as it should be, whatever the
    operations b behind them; then the loop stands at the cut.
   */
  lemma {:induction false} FirstPart(src: string, a: seq<Operation>, b: seq<Operation>, offset: int, ps: nat, cut: nat,
                                     room: nat, rest: nat)
    requires ps <= cut <= |src| && Fits(a, offset + ps, offset + cut) && AllHaveData(a)
    requires room == cut - ps + TotalDelta(a) + rest && NoStart(b, EndOfOps(a, offset + ps), offset + cut)
    requires InBounds(|src|, Spot(cut, false, b), offset, rest)
    ensures InBounds(|src|, Spot(ps, false, a + b), offset, room)
    ensures Same(Output(src, Spot(ps, false, a + b), offset, room),
                 Splice(src[ps..cut], a, offset + ps) + Output(src, Spot(cut, false, b), offset, rest))
    decreases |a|
  {
    FirstPartRuns(|src|, a, b, offset, ps, cut, room, rest);
    if a == [] {
      assert a + b == b;
      CopiesUpTo(src, Spot(ps, false, b), offset, cut, room, rest);
    } else {
      var st: nat, q: nat := a[0].start - offset, a[0].end - offset;
      RoomLeft(a[1..], a[0].end, offset + cut);
      assert (a + b)[0] == a[0] && (a + b)[1..] == a[1..] + b;
      var left: nat := room - (st - ps) - |a[0].newdata|;
      EndOfTail(a, offset + ps);
      FirstOperation(src, a + b, offset, ps, st, q, room, left);
      FirstPart(src, a[1..], b, offset, q, cut, left, rest);
      FirstPartText(src, a, offset, ps, st, q, cut, Output(src, Spot(cut, false, b), offset, rest));
    }
  }

  lemma FirstPartText(src: string, a: seq<Operation>, offset: int, ps: nat, st: nat, q: nat, cut: nat, more: string)
    requires a != [] && ps <= st <= q <= cut <= |src| && Fits(a, offset + ps, offset + cut)
    requires st == a[0].start - offset && q == a[0].end - offset
    ensures Same(src[ps..st] + (a[0].newdata + (Splice(src[q..cut], a[1..], offset + q) + more)),
                 Splice(src[ps..cut], a, offset + ps) + more)
  {
    SpliceFromFront(src[ps..cut], a, offset + ps);
    assert src[ps..cut][..st - ps] == src[ps..st] && src[ps..cut][q - ps..] == src[q..cut];
    var rest := Splice(src[q..cut], a[1..], offset + q);
    Associates(src[ps..st] + a[0].newdata, rest, more);
    Associates(src[ps..st], a[0].newdata, rest + more);
  }

  /**
    Operations done that fit, and behind them one that starts before their end, as a second edit of
    the same range does: it and all that follow are lost, and the source is copied to the end of the
    precomputed length, which counts them all.
   */
  lemma OverlapIsLost(src: string, n: nat, done: seq<Operation>, lost: seq<Operation>, offset: int, end: nat, room: nat)
    requires done != [] && Fits(done, offset, offset + n) && AllHaveData(done) && end == done[|done| - 1].end - offset
    requires lost != [] && lost[0].start < done[|done| - 1].end
    requires n <= |src| && end + room <= |src| && n + TotalDelta(done + lost) == end + TotalDelta(done) + room
    ensures Runs(|src|, n, done + lost, offset) && Fits(done, offset, offset + end)
    ensures Same(Written(src, n, done + lost, offset), Splice(src[..end], done, offset) + src[end..end + room])
  {
    FitsToTheEnd(done, offset, offset + n);
    RoomLeft(done, offset, offset + end);
    MissedStart(src, Spot(end, false, lost), offset, room);
    FirstPart(src, done, lost, offset, 0, end, end + TotalDelta(done) + room, room);
    assert src[0..end] == src[..end];
  }

  lemma {:induction false} FitsToTheEnd(ops: seq<Operation>, lo: int, hi: int)
    requires Fits(ops, lo, hi) && ops != []
    ensures lo <= ops[|ops| - 1].end <= hi && Fits(ops, lo, ops[|ops| - 1].end)
  {
    if |ops| > 1 {
      assert ops[1..][|ops| - 2] == ops[|ops| - 1];
      FitsToTheEnd(ops[1..], ops[0].end, hi);
    }
  }

  // ----- the methods

  /** The body of the loop, flow.cc:144-160: the next byte and the new values of cnt, ps and inside. */
  method NextByte(s: array<char>, ops: seq<Operation>, offset: int, cnt0: nat, ps0: int, inside0: bool)
    returns (c: char, cnt: nat, ps: int, inside: bool)
    requires cnt0 <= |ops| && Spot(ps0, inside0, ops[cnt0..]).Ok()
    requires Reads(s.Length, Enter(Spot(ps0, inside0, ops[cnt0..]), offset))
    ensures cnt0 <= cnt <= |ops|
    ensures var entered := Enter(Spot(ps0, inside0, ops[cnt0..]), offset);
      c == ByteAt(s[..], entered) && Spot(ps, inside, ops[cnt..]) == Advance(entered, offset)
  {
    cnt, ps, inside := cnt0, ps0, inside0;
    assert cnt < |ops| ==> ops[cnt..][1..] == ops[cnt + 1..];
    if !inside && cnt < |ops| && ps == ops[cnt].start - offset {
      if |ops[cnt].newdata| == 0 {
        ps := ops[cnt].end - offset;
        cnt := cnt + 1;
      } else {
        inside := true;
        ps := 0;
      }
    }
    if inside {
      c := ops[cnt].newdata[ps];
      ps := ps + 1;
      if ps == |ops[cnt].newdata| {
        inside := false;
        ps := ops[cnt].end - offset;
        cnt := cnt + 1;
      }
    } else {
      c := s[ps];
      ps := ps + 1;
    }
  }

  /**
    flow.cc:132-161 on the packet's output bytes d and input bytes s; n is the payload length. stop is
    where the loop variables end; pastOps tells whether flow.cc:144 has read ops[cnt] behind the last one.
    For separated operations that fit, packet and operations are consumed at the end, unless the last
    operation cuts off the end, and ops[cnt] is read if bytes are left behind the last operation.
   */
  method RewritePayload(d: array<char>, s: array<char>, n: nat, ops: seq<Operation>, offset: int)
    returns (len: nat, stop: Spot, pastOps: bool)
    requires d != s && Runs(s.Length, n, ops, offset) && n + TotalDelta(ops) <= d.Length
    modifies d
    ensures len == n + TotalDelta(ops)
    ensures d[..len] == Written(s[..], n, ops, offset)
    ensures forall k :: len <= k < d.Length ==> d[k] == old(d[k])
    ensures stop == Halt(Begin(ops), offset, len)
    ensures pastOps <==> ReadsPastOps(Begin(ops), offset, len)
    ensures ops != [] && Fits(ops, offset, offset + n) && Separated(ops) ==>
      && (stop.ps == n && stop.left == [] <==> !CutsEnd(ops, offset + n))
      && (pastOps <==> BehindLast(ops) < offset + n)
  {
    if Fits(ops, offset, offset + n) && Separated(ops) {
      SeparatedRun(n, ops, offset);
    }
    len, stop, pastOps := RunLoop(d, s, n, ops, offset);
  }

  method RunLoop(d: array<char>, s: array<char>, n: nat, ops: seq<Operation>, offset: int)
    returns (len: nat, stop: Spot, pastOps: bool)
    requires d != s && Runs(s.Length, n, ops, offset) && n + TotalDelta(ops) <= d.Length
    modifies d
    ensures len == n + TotalDelta(ops)
    ensures d[..len] == Written(s[..], n, ops, offset)
    ensures forall k :: len <= k < d.Length ==> d[k] == old(d[k])
    ensures stop == Halt(Begin(ops), offset, len)
    ensures pastOps <==> ReadsPastOps(Begin(ops), offset, len)
  {
    len := NewLength(n, ops);
    ghost var src := s[..];
    ghost var goal := Goal(Written(src, n, ops, offset), Halt(Begin(ops), offset, len), ReadsPastOps(Begin(ops), offset, len));
    pastOps := false;
    var cnt: nat, pd, ps, inside := 0, 0, 0, false;
    assert ops[0..] == ops && d[..0] == "";
    EmptyIsNeutral(goal.all);
    while pd < len
      invariant 0 <= pd <= len && cnt <= |ops|
      invariant s[..] == src && forall k :: len <= k < d.Length ==> d[k] == old(d[k])
      invariant OnCourse(src, Spot(ps, inside, ops[cnt..]), offset, len - pd, d[..pd], pastOps, goal)
    {
      ghost var at, done := Spot(ps, inside, ops[cnt..]), d[..pd];
      OneTurn(src, at, offset, len - pd, done, pastOps, goal);
      pastOps := pastOps || (!inside && cnt == |ops|);
      var c;
      c, cnt, ps, inside := NextByte(s, ops, offset, cnt, ps, inside);
      WriteByte(d, pd, c);
      pd := pd + 1;
    }
    EmptyIsNeutral(d[..len]);
    stop := Spot(ps, inside, ops[cnt..]);
  }

  method WriteByte(d: array<char>, pd: nat, c: char)
    requires pd < d.Length
    modifies d
    ensures Same(d[..pd + 1], old(d[..pd]) + [c])
    ensures forall k :: pd < k < d.Length ==> d[k] == old(d[k])
  {
    d[pd] := c;
    assert d[..pd + 1] == old(d[..pd]) + [c];
  }

  /** What the loop is to come to: all bytes, the last spot, and whether ops[cnt] was read past the end. */
  datatype Goal = Goal(all: string, stop: Spot, pastOps: bool)

  ghost predicate OnCourse(src: string, at: Spot, offset: int, room: nat, done: string, past: bool, goal: Goal) {
    && at.Ok() && InBounds(|src|, at, offset, room)
    && Same(done + Output(src, at, offset, room), goal.all)
    && Halt(at, offset, room) == goal.stop
    && (past || ReadsPastOps(at, offset, room) <==> goal.pastOps)
  }

  lemma OneTurn(src: string, at: Spot, offset: int, room: nat, done: string, past: bool, goal: Goal)
    requires OnCourse(src, at, offset, room, done, past, goal) && room > 0
    ensures var e := Enter(at, offset);
      && Reads(|src|, e)
      && OnCourse(src, Advance(e, offset), offset, room - 1, done + [ByteAt(src, e)],
                  past || (!at.inside && at.left == []), goal)
  {
    var e := Enter(at, offset);
    Associates(done, [ByteAt(src, e)], Output(src, Advance(e, offset), offset, room - 1));
  }

  /** flow.cc:132-139. */
  method NewLength(n: nat, ops: seq<Operation>) returns (len: int)
    ensures len == n + TotalDelta(ops)
  {
    len := n;
    for i := 0 to |ops|
      invariant len + TotalDelta(ops[i..]) == n + TotalDelta(ops)
    {
      len := len + |ops[i].newdata| - (ops[i].end - ops[i].start);
    }
  }
}
