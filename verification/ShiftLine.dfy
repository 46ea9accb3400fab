/**
  The delay line of SHIFT mode over whole runs. A rewritten packet that outgrew its size leaves the
  excess under its next sequence number; every following segment then gives up as many bytes as it
  takes over (flow.cc:190-194, flow.cc:206-218, packet.cc:105-106).
 */
module ShiftLine {
  import opened Words
  import opened FlowRewrite

  datatype Run = Run(line: map<uint32, string>, outs: seq<string>)

  /** A chain of segments: each starts where the one before ended. */
  function RunChain(line: map<uint32, string>, seqNo: uint32, ins: seq<string>): (r: Run)
    ensures |r.outs| == |ins|
    decreases |ins|
  {
    if ins == [] then Run(line, [])
    else
      var next := Wrap(seqNo + |ins[0]|);
      var first := ShiftStep(line, seqNo, next, ins[0]);
      var rest := RunChain(first.line, next, ins[1..]);
      Run(rest.line, [first.out] + rest.outs)
  }

  /** Every segment is long enough to take the carried bytes. */
  predicate NoneShorter(ins: seq<string>, slen: nat) {
    forall i :: 0 <= i < |ins| ==> slen <= |ins[i]|
  }

  /** What goes out and what is held back, in front of the rest. */
  lemma ConcatStep(carry: string, p: string, out: string, next: string, rest: string, outs: string, held: string)
    requires |carry| <= |p| && out == (carry + p)[..|p|] && next == (carry + p)[|p|..]
    requires Same(outs + held, next + rest)
    ensures Same((out + outs) + held, carry + (p + rest))
  {
    Halves(carry + p, |p|);
    Associates(out, outs, held);
    Associates(out, next, rest);
    Associates(carry, p, rest);
  }

  lemma TailNoneShorter(ins: seq<string>, slen: nat)
    requires ins != [] && NoneShorter(ins, slen)
    ensures NoneShorter(ins[1..], slen) && |ins[0]| >= slen && |Concat(ins)| == |ins[0]| + |Concat(ins[1..])|
  {
    forall i | 0 <= i < |ins[1..]| ensures slen <= |ins[1..][i]| {
      assert ins[1..][i] == ins[i + 1];
    }
  }

  /** One segment: the line carries as many bytes under the next sequence number. */
  lemma FirstStep(line: map<uint32, string>, seqNo: uint32, ins: seq<string>)
    requires ins != [] && Carry(line, seqNo) != "" && NoneShorter(ins, |Carry(line, seqNo)|)
    ensures var carry, next := Carry(line, seqNo), Wrap(seqNo + |ins[0]|);
      var first := ShiftStep(line, seqNo, next, ins[0]);
      && Same(first.line, line[next := (carry + ins[0])[|ins[0]|..]])
      && |Carry(first.line, next)| == |carry| && NoneShorter(ins[1..], |carry|) && |first.out| == |ins[0]|
  {
    TailNoneShorter(ins, |Carry(line, seqNo)|);
  }

  lemma {:induction false} OutputsKeepTheirLength(line: map<uint32, string>, seqNo: uint32, ins: seq<string>, i: nat)
    requires Carry(line, seqNo) != "" && NoneShorter(ins, |Carry(line, seqNo)|) && i < |ins|
    ensures |RunChain(line, seqNo, ins).outs[i]| == |ins[i]|
    decreases i
  {
    FirstStep(line, seqNo, ins);
    if i > 0 {
      var next := Wrap(seqNo + |ins[0]|);
      OutputsKeepTheirLength(ShiftStep(line, seqNo, next, ins[0]).line, next, ins[1..], i - 1);
    }
  }

  /**
    No byte is lost, invented or reordered: the outputs followed by the bytes still carried are the
    carried bytes followed by the inputs.
   */
  lemma {:induction false} DelayLineConserves(line: map<uint32, string>, seqNo: uint32, ins: seq<string>)
    requires Carry(line, seqNo) != "" && NoneShorter(ins, |Carry(line, seqNo)|)
    ensures var run, end := RunChain(line, seqNo, ins), Wrap(seqNo + |Concat(ins)|);
      && |Carry(run.line, end)| == |Carry(line, seqNo)|
      && Same(Concat(run.outs) + Carry(run.line, end), Carry(line, seqNo) + Concat(ins))
    decreases |ins|
  {
    var carry := Carry(line, seqNo);
    if ins == [] {
      assert "" + carry == carry == carry + "";
    } else {
      FirstStep(line, seqNo, ins);
      var next := Wrap(seqNo + |ins[0]|);
      var first := ShiftStep(line, seqNo, next, ins[0]);
      DelayLineConserves(first.line, next, ins[1..]);
      var rest, end := RunChain(first.line, next, ins[1..]), Wrap(next + |Concat(ins[1..])|);
      WrapAdd(seqNo + |ins[0]|, |Concat(ins[1..])|);
      ConcatStep(carry, ins[0], first.out, Carry(first.line, next), Concat(ins[1..]), Concat(rest.outs), Carry(rest.line, end));
      ConcatOuts(first.out, rest.outs);
    }
  }

  lemma ConcatOuts(out: string, outs: seq<string>)
    ensures Concat([out] + outs) == out + Concat(outs)
  {
    assert ([out] + outs)[1..] == outs;
  }

  /** A key outside a chain is also outside the rest of the chain. */
  lemma StaysOutside(seqNo: uint32, key: uint32, first: int, rest: int)
    requires 0 < first && 0 <= rest && first + rest < TWO_32
    requires key == seqNo || first + rest < Wrap(key - seqNo)
    ensures key != Wrap(seqNo + first) && rest < Wrap(key - Wrap(seqNo + first))
  {
    var next := Wrap(seqNo + first);
    WrapOnce(seqNo + first);
    WrapOnce(key - seqNo);
    WrapOnce(key - next);
  }

  lemma WrapOnce(x: int)
    requires -TWO_32 <= x < 2 * TWO_32
    ensures Wrap(x) == if x < 0 then x + TWO_32 else if x < TWO_32 then x else x - TWO_32
  {
  }

  /** A chain writes only under the sequence numbers after its first byte. */
  lemma {:induction false} ChainWrites(line: map<uint32, string>, seqNo: uint32, ins: seq<string>, key: uint32)
    requires Carry(line, seqNo) != "" && NoneShorter(ins, |Carry(line, seqNo)|) && |Concat(ins)| < TWO_32
    requires key == seqNo || |Concat(ins)| < Wrap(key - seqNo)
    ensures key in RunChain(line, seqNo, ins).line <==> key in line
    ensures key in line ==> RunChain(line, seqNo, ins).line[key] == line[key]
    decreases |ins|
  {
    if ins != [] {
      var carry := Carry(line, seqNo);
      TailNoneShorter(ins, |carry|);
      var next := Wrap(seqNo + |ins[0]|);
      StaysOutside(seqNo, key, |ins[0]|, |Concat(ins[1..])|);
      ChainWrites(ShiftStep(line, seqNo, next, ins[0]).line, next, ins[1..], key);
    }
  }

  /** A step on a later line that still knows what was carried in and what was carried on. */
  lemma StepAgain(later: map<uint32, string>, line: map<uint32, string>, seqNo: uint32, next: uint32, payload: string)
    requires Carry(line, seqNo) != "" && Carry(later, seqNo) == Carry(line, seqNo)
    requires next in later && Same(later[next], ShiftStep(line, seqNo, next, payload).line[next])
    ensures Same(ShiftStep(later, seqNo, next, payload), Delayed(later, ShiftStep(line, seqNo, next, payload).out))
  {
    assert later[next := later[next]] == later;
  }

  /** What the first step of a chain wrote and read is still there at the end of the chain. */
  lemma FirstStepStays(line: map<uint32, string>, seqNo: uint32, ins: seq<string>, next: uint32)
    requires ins != [] && Carry(line, seqNo) != "" && NoneShorter(ins, |Carry(line, seqNo)|)
    requires |Concat(ins)| < TWO_32 && next == Wrap(seqNo + |ins[0]|)
    ensures var first, end := ShiftStep(line, seqNo, next, ins[0]).line, RunChain(line, seqNo, ins).line;
      && Carry(end, seqNo) == Carry(line, seqNo)
      && next in first && next in end && end[next] == first[next]
  {
    FirstStep(line, seqNo, ins);
    TailNoneShorter(ins, |Carry(line, seqNo)|);
    StaysOutside(seqNo, seqNo, |ins[0]|, |Concat(ins[1..])|);
    var first := ShiftStep(line, seqNo, next, ins[0]).line;
    ChainWrites(first, next, ins[1..], seqNo);
    ChainWrites(first, next, ins[1..], next);
  }

  /** Sent again, the segment at this position gives the same bytes and leaves the line as it is. */
  ghost predicate Replayed(line: map<uint32, string>, at: uint32, payload: string, out: string) {
    Same(ShiftStep(line, at, Wrap(at + |payload|), payload), Delayed(line, out))
  }

  /** The first segment of a chain again, after the whole chain has passed. */
  lemma ReplayFirst(line: map<uint32, string>, seqNo: uint32, ins: seq<string>)
    requires ins != [] && Carry(line, seqNo) != "" && NoneShorter(ins, |Carry(line, seqNo)|)
    requires |Concat(ins)| < TWO_32
    ensures var run := RunChain(line, seqNo, ins);
      Replayed(run.line, seqNo, ins[0], run.outs[0])
  {
    var next := Wrap(seqNo + |ins[0]|);
    FirstStepStays(line, seqNo, ins, next);
    StepAgain(RunChain(line, seqNo, ins).line, line, seqNo, next, ins[0]);
  }

  lemma PositionFromNext(seqNo: uint32, ins: seq<string>, i: nat)
    requires 0 < i <= |ins|
    ensures Wrap(seqNo + |Concat(ins[..i])|) == Wrap(Wrap(seqNo + |ins[0]|) + |Concat(ins[1..][..i - 1])|)
  {
    assert ins[..i] == [ins[0]] + ins[1..][..i - 1];
    ConcatOuts(ins[0], ins[1..][..i - 1]);
    WrapAdd(seqNo + |ins[0]|, |Concat(ins[1..][..i - 1])|);
  }

  /** Behind its first segment a chain is a chain again, with as much carried. */
  lemma ChainGoesOn(line: map<uint32, string>, seqNo: uint32, ins: seq<string>, run: Run)
    returns (first: map<uint32, string>, next: uint32, rest: Run)
    requires ins != [] && Carry(line, seqNo) != "" && NoneShorter(ins, |Carry(line, seqNo)|) && |Concat(ins)| < TWO_32
    requires run == RunChain(line, seqNo, ins)
    ensures Carry(first, next) != "" && NoneShorter(ins[1..], |Carry(first, next)|) && |Concat(ins[1..])| < TWO_32
    ensures next == Wrap(seqNo + |ins[0]|) && rest == RunChain(first, next, ins[1..])
    ensures rest.line == run.line && rest.outs == run.outs[1..]
  {
    FirstStep(line, seqNo, ins);
    TailNoneShorter(ins, |Carry(line, seqNo)|);
    next := Wrap(seqNo + |ins[0]|);
    first := ShiftStep(line, seqNo, next, ins[0]).line;
    rest := RunChain(first, next, ins[1..]);
  }

  lemma ReplayedInWhole(run: Run, rest: Run, ins: seq<string>, i: nat, at: uint32)
    requires 0 < i < |ins| == |run.outs| && rest.line == run.line && rest.outs == run.outs[1..]
    requires Replayed(rest.line, at, ins[1..][i - 1], rest.outs[i - 1])
    ensures Replayed(run.line, at, ins[i], run.outs[i])
  {
    assert ins[1..][i - 1] == ins[i] && rest.outs[i - 1] == run.outs[i];
  }

  /**
    Retransmission: once a chain shorter than the sequence space has passed, sending any of its
    segments again gives the same bytes and leaves the line as it was.
   */
  lemma {:induction false} ReplayIsIdempotent(line: map<uint32, string>, seqNo: uint32, ins: seq<string>, i: nat,
                                              at: uint32)
    requires Carry(line, seqNo) != "" && NoneShorter(ins, |Carry(line, seqNo)|)
    requires i < |ins| && |Concat(ins)| < TWO_32
    requires at == Wrap(seqNo + |Concat(ins[..i])|)
    ensures var run := RunChain(line, seqNo, ins);
      Replayed(run.line, at, ins[i], run.outs[i])
    decreases i
  {
    if i == 0 {
      assert ins[..0] == [] && at == seqNo;
      ReplayFirst(line, seqNo, ins);
    } else {
      var run := RunChain(line, seqNo, ins);
      var first, next, rest := ChainGoesOn(line, seqNo, ins, run);
      PositionFromNext(seqNo, ins, i);
      ReplayIsIdempotent(first, next, ins[1..], i - 1, at);
      ReplayedInWhole(run, rest, ins, i, at);
    }
  }

  /** What Modify cut off a packet is where the line starts: nothing is lost from the rewritten text on. */
  lemma CutTextIsDelivered(line: map<uint32, string>, nextSeq: uint32, text: string, n: nat, ins: seq<string>)
    requires n < |text| && NoneShorter(ins, |text| - n)
    ensures var run, end := RunChain(line[nextSeq := text[n..]], nextSeq, ins), Wrap(nextSeq + |Concat(ins)|);
      text[..n] + Concat(run.outs) + Carry(run.line, end) == text + Concat(ins)
  {
    var line' := line[nextSeq := text[n..]];
    DelayLineConserves(line', nextSeq, ins);
    var run, end := RunChain(line', nextSeq, ins), Wrap(nextSeq + |Concat(ins)|);
    Halves(text, n);
    Associates(text[..n], Concat(run.outs), Carry(run.line, end));
    Associates(text[..n], text[n..], Concat(ins));
  }
}
