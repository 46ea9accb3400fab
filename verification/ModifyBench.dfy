/** The benchmark of the repository (test/modify/modify.cc): three ways of applying the operations. */
module ModifyBench {
  import opened Words
  import opened Operations
  import opened Splicing
  import opened Buffers

  // ----- modify_slow, on values

  /** One operation of modify_slow: make room if the text grows, then copy the new data over it. */
  function SlowStep(d: string, len: nat, op: Operation): (r: string)
    requires 0 <= op.start <= op.end <= len && len <= |d| && len + op.Delta() <= |d|
    ensures |r| == |d|
  {
    var delta := op.Delta();
    var moved := if delta > 0 then d[..op.start + delta] + d[op.start..len] + d[len + delta..] else d;
    moved[..op.start] + op.newdata + moved[op.start + |op.newdata|..]
  }

  predicate RoomForEach(cap: nat, len: nat, ops: seq<Operation>) {
    len <= cap && forall i :: 0 <= i < |ops| ==> len + ops[i].Delta() <= cap
  }

  /** All operations, the last one first; len is not carried from one to the next. */
  function SlowRun(d: string, len: nat, ops: seq<Operation>): (r: string)
    requires Fits(ops, 0, len) && RoomForEach(|d|, len, ops)
    ensures |r| == |d|
  {
    if ops == [] then d
    else
      FitsWider(ops[1..], ops[0].end, len, 0, len);
      SlowStep(SlowRun(d, len, ops[1..]), len, ops[0])
  }

  lemma SlowStepReplaces(d: string, len: nat, op: Operation, s: string, k: nat)
    requires 0 <= op.start <= op.end <= len && len <= k <= |d| && 0 <= op.Delta() && len + op.Delta() <= |d|
    requires k <= |s| && d[..k] == s[..k] && (k == len || op.Delta() == 0)
    ensures |ReplaceOne(s, op.start, op.end, op.newdata)| == |s| + op.Delta()
    ensures Same(SlowStep(d, len, op)[..k + op.Delta()], ReplaceOne(s, op.start, op.end, op.newdata)[..k + op.Delta()])
  {
    var r, t, delta := SlowStep(d, len, op), ReplaceOne(s, op.start, op.end, op.newdata), op.Delta();
    assert forall i :: 0 <= i < k ==> d[i] == d[..k][i] == s[i];
    forall i | 0 <= i < k + delta ensures r[i] == t[i] {
      if i >= op.end + delta {
        assert t[i] == s[i - delta] == d[i - delta];
      }
    }
    assert r[..k + delta] == t[..k + delta];
  }

  /**
    If no operation shrinks the text, modify_slow is right on the first len bytes and on as many more
    as the first operation adds.
   */
  lemma {:induction false} SlowIsSpliceOnPrefix(d: string, len: nat, ops: seq<Operation>)
    requires Fits(ops, 0, len) && RoomForEach(|d|, len, ops) && NoneShrinks(ops)
    ensures var k := len + if ops == [] then 0 else ops[0].Delta();
      var spliced := Splice(d[..len], ops, 0);
      k <= |spliced| && Same(SlowRun(d, len, ops)[..k], spliced[..k])
  {
    if ops != [] {
      FitsWider(ops[1..], ops[0].end, len, 0, len);
      NoneShrinksTail(ops);
      SlowIsSpliceOnPrefix(d, len, ops[1..]);
      var r, s := SlowRun(d, len, ops[1..]), Splice(d[..len], ops[1..], 0);
      PrefixOfPrefix(r, s, len, len + if ops[1..] == [] then 0 else ops[1..][0].Delta());
      SlowStepReplaces(r, len, ops[0], s, len);
    } else {
      assert d[..len][..len] == d[..len];
    }
  }

  lemma PrefixOfPrefix(a: string, b: string, i: nat, k: nat)
    requires i <= k <= |a| && k <= |b| && a[..k] == b[..k]
    ensures a[..i] == b[..i]
  {
    assert a[..i] == a[..k][..i] && b[..i] == b[..k][..i];
  }

  predicate NoneGrows(ops: seq<Operation>) {
    ops == [] || (ops[0].Delta() <= 0 && NoneGrows(ops[1..]))
  }

  predicate AtMostOneGrows(ops: seq<Operation>) {
    ops == [] || if ops[0].Delta() > 0 then NoneGrows(ops[1..]) else AtMostOneGrows(ops[1..])
  }

  lemma {:induction false} LengthIfNoneGrows(ops: seq<Operation>)
    requires NoneShrinks(ops) && NoneGrows(ops)
    ensures TotalDelta(ops) == 0
  {
    if ops != [] {
      NoneShrinksTail(ops);
      LengthIfNoneGrows(ops[1..]);
    }
  }

  lemma {:induction false} SlowIsSpliceIfOneGrows(d: string, len: nat, ops: seq<Operation>)
    requires Fits(ops, 0, len) && RoomForEach(|d|, len, ops) && NoneShrinks(ops) && AtMostOneGrows(ops)
    requires len + TotalDelta(ops) <= |d|
    ensures 0 <= TotalDelta(ops) && Same(SlowRun(d, len, ops)[..len + TotalDelta(ops)], Splice(d[..len], ops, 0))
  {
    if ops != [] {
      FitsWider(ops[1..], ops[0].end, len, 0, len);
      NoneShrinksTail(ops);
      if ops[0].Delta() > 0 {
        LengthIfNoneGrows(ops[1..]);
        SlowIsSpliceOnPrefix(d, len, ops);
        WholeIsPrefix(Splice(d[..len], ops, 0));
      } else {
        SlowIsSpliceIfOneGrows(d, len, ops[1..]);
        var r, s := SlowRun(d, len, ops[1..]), Splice(d[..len], ops[1..], 0);
        NeutralStepReplaces(r, len, ops[0], s);
      }
    }
  }

  lemma WholeIsPrefix(s: string)
    ensures Same(s[..|s|], s)
  {
    assert s[..|s|] == s;
  }

  /** An operation that keeps the length, on a buffer that starts with the text s. */
  lemma NeutralStepReplaces(d: string, len: nat, op: Operation, s: string)
    requires 0 <= op.start <= op.end <= len <= |s| <= |d| && op.Delta() == 0 && Same(d[..|s|], s)
    ensures Same(SlowStep(d, len, op)[..|s|], ReplaceOne(s, op.start, op.end, op.newdata))
  {
    WholeIsPrefix(s);
    SlowStepReplaces(d, len, op, s, |s|);
    WholeIsPrefix(ReplaceOne(s, op.start, op.end, op.newdata));
  }

  /** Bytes past the reach of every single operation are never written. */
  lemma {:induction false} SlowLeavesTheRest(d: string, len: nat, ops: seq<Operation>, k: nat)
    requires Fits(ops, 0, len) && RoomForEach(|d|, len, ops) && len <= k < |d|
    requires forall i :: 0 <= i < |ops| ==> len + ops[i].Delta() <= k
    ensures SlowRun(d, len, ops)[k] == d[k]
  {
    if ops != [] {
      FitsWider(ops[1..], ops[0].end, len, 0, len);
      forall i | 0 <= i < |ops[1..]| ensures len + ops[1..][i].Delta() <= k {
        assert ops[1..][i] == ops[i + 1];
      }
      SlowLeavesTheRest(d, len, ops[1..], k);
      assert len + ops[0].Delta() <= k;
      SlowStepLeaves(SlowRun(d, len, ops[1..]), len, ops[0], k);
    }
  }

  lemma SlowStepLeaves(d: string, len: nat, op: Operation, k: nat)
    requires 0 <= op.start <= op.end <= len && len + op.Delta() <= |d| && len <= k < |d| && len + op.Delta() <= k
    ensures SlowStep(d, len, op)[k] == d[k]
  {
  }

  lemma {:induction false} NoneIsAtMostOne(ops: seq<Operation>)
    ensures NoneGrows(ops) ==> AtMostOneGrows(ops)
  {
    if ops != [] {
      NoneIsAtMostOne(ops[1..]);
    }
  }

  /** With two growing operations the result is longer than any one of them reaches. */
  lemma {:induction false} TwoGrowBeyondEach(ops: seq<Operation>, i: nat)
    requires NoneShrinks(ops) && i < |ops|
    ensures ops[i].Delta() <= TotalDelta(ops)
    ensures !AtMostOneGrows(ops) ==> ops[i].Delta() < TotalDelta(ops)
  {
    NoneShrinksTail(ops);
    DeltaNotNegative(ops[1..]);
    NoneIsAtMostOne(ops[1..]);
    if i > 0 {
      TwoGrowBeyondEach(ops[1..], i - 1);
      assert ops[i] == ops[1..][i - 1];
    }
  }

  lemma {:induction false} DeltaNotNegative(ops: seq<Operation>)
    requires NoneShrinks(ops)
    ensures 0 <= TotalDelta(ops) && (TotalDelta(ops) == 0 ==> NoneGrows(ops))
  {
    if ops != [] {
      NoneShrinksTail(ops);
      DeltaNotNegative(ops[1..]);
    }
  }

  /** From the destination bytes d, whose first bytes are the text s, the whole result is the splice. */
  ghost predicate RightFrom(d: string, cap: nat, s: string, ops: seq<Operation>) {
    |d| == cap && |s| <= cap && d[..|s|] == s
      && Fits(ops, 0, |s|) && RoomForEach(cap, |s|, ops) && 0 <= |s| + TotalDelta(ops) <= cap
    ==> SlowRun(d, |s|, ops)[..|s| + TotalDelta(ops)] == Splice(s, ops, 0)
  }

  /** Whatever the destination held before, the whole result of modify_slow is the splice. */
  ghost predicate SlowAlwaysSplices(cap: nat, s: string, ops: seq<Operation>) {
    forall d: string :: RightFrom(d, cap, s, ops)
  }

  /** For operations that do not shrink the text: exactly when at most one of them makes it grow. */
  lemma SlowIsSpliceExactly(cap: nat, s: string, ops: seq<Operation>)
    requires Fits(ops, 0, |s|) && NoneShrinks(ops) && RoomForEach(cap, |s|, ops)
    requires 0 <= |s| + TotalDelta(ops) <= cap
    ensures SlowAlwaysSplices(cap, s, ops) <==> AtMostOneGrows(ops)
  {
    if AtMostOneGrows(ops) {
      forall d: string ensures RightFrom(d, cap, s, ops) {
        if |d| == cap && d[..|s|] == s {
          SlowIsSpliceIfOneGrows(d, |s|, ops);
        }
      }
    } else {
      TwoStaleTails(cap, s, ops);
    }
  }

  /** The last byte of the result is stale, so two different stale bytes cannot both be right. */
  lemma TwoStaleTails(cap: nat, s: string, ops: seq<Operation>)
    requires Fits(ops, 0, |s|) && NoneShrinks(ops) && RoomForEach(cap, |s|, ops)
    requires 0 <= |s| + TotalDelta(ops) <= cap && !AtMostOneGrows(ops)
    ensures !SlowAlwaysSplices(cap, s, ops)
  {
    var len, k := |s|, |s| + TotalDelta(ops) - 1;
    TwoGrowBeyondEach(ops, 0);
    forall i | 0 <= i < |ops| ensures len + ops[i].Delta() <= k {
      TwoGrowBeyondEach(ops, i);
    }
    NoneShrinksTail(ops);
    var a, b := StaleTail(cap, s, 'a'), StaleTail(cap, s, 'b');
    SlowLeavesTheRest(a, len, ops, k);
    SlowLeavesTheRest(b, len, ops, k);
    if SlowAlwaysSplices(cap, s, ops) {
      RightByte(a, cap, s, ops, k);
      RightByte(b, cap, s, ops, k);
      assert false;
    }
  }

  lemma RightByte(d: string, cap: nat, s: string, ops: seq<Operation>, k: nat)
    requires RightFrom(d, cap, s, ops) && |d| == cap && |s| <= cap && d[..|s|] == s
    requires Fits(ops, 0, |s|) && RoomForEach(cap, |s|, ops) && k < |s| + TotalDelta(ops) <= cap
    ensures SlowRun(d, |s|, ops)[k] == Splice(s, ops, 0)[k]
  {
    assert SlowRun(d, |s|, ops)[..|s| + TotalDelta(ops)][k] == SlowRun(d, |s|, ops)[k];
  }

  function StaleTail(cap: nat, s: string, c: char): (d: string)
    requires |s| <= cap
    ensures |d| == cap && d[..|s|] == s && forall k :: |s| <= k < cap ==> d[k] == c
  {
    s + seq(cap - |s|, _ => c)
  }

  /** A shrinking operation leaves old bytes behind: the text is not moved to the left. */
  lemma ShrinkingLeavesOldBytes()
    ensures var ops := [Operation(0, 2, "X", false)];
      && Fits(ops, 0, 4) && RoomForEach(4, 4, ops)
      && SlowRun("abcd", 4, ops)[..3] == "Xbc" && Splice("abcd", ops, 0) == "Xcd"
  {
    var ops := [Operation(0, 2, "X", false)];
    assert ops[1..] == [];
    assert SlowStep("abcd", 4, ops[0]) == "Xbcd";
    assert ReplaceOne("abcd", 0, 2, "X") == "Xcd";
  }

  // ----- the methods

  class Bench {
    const s: array<char>
    const d: array<char>
    var len: nat
    var ops: seq<Operation>

    constructor (s: array<char>, d: array<char>, len: nat, ops: seq<Operation>)
      ensures this.s == s && this.d == d && this.len == len && this.ops == ops
    {
      this.s, this.d, this.len, this.ops := s, d, len, ops;
    }

    ghost predicate Ready(sorted: seq<Operation>)
      reads this
    {
      s != d && len <= s.Length && Fits(sorted, 0, len) && len + TotalDelta(sorted) <= d.Length
    }

    /** modify.cc:90-123: whole blocks are copied. Without operations nothing is written at all. */
    method ModifyNosort()
      requires Ready(ops)
      modifies this`len, d
      ensures len == old(len) + TotalDelta(ops)
      ensures ops != [] ==> len <= d.Length && d[..len] == Splice(s[..old(len)], ops, 0)
      ensures ops == [] ==> d[..] == old(d[..])
    {
      if |ops| == 0 {
        return;
      }
      var lenOld := len;
      ghost var text := s[..lenOld];
      RoomLeft(ops, 0, lenOld);
      var newLen: int := len;
      for i := 0 to |ops|
        invariant newLen + TotalDelta(ops[i..]) == lenOld + TotalDelta(ops)
      {
        newLen := newLen + |ops[i].newdata| - (ops[i].end - ops[i].start);
      }
      len := newLen;
      CopyBlocks(lenOld, text, Splice(text, ops, 0));
    }

    /** modify.cc:103-122: old and new blocks in turn. */
    method CopyBlocks(lenOld: nat, ghost text: string, ghost all: string)
      requires s != d && |text| == lenOld <= s.Length && s[..lenOld] == text && Fits(ops, 0, lenOld)
      requires Same(Splice(text, ops, 0), all) && |all| <= d.Length
      modifies d
      ensures Same(d[..|all|], all)
    {
      var cnt, pd, ps := 0, 0, 0;
      StartCopying(text, ops, all);
      assert d[..0] == "" && ops[0..] == ops;
      while true
        invariant 0 <= cnt <= |ops| && 0 <= ps <= lenOld && 0 <= pd <= d.Length
        invariant s[..lenOld] == text && Copying(d[..pd], text, ops[cnt..], ps, all)
        decreases |ops| - cnt, if cnt < |ops| then ops[cnt].start - ps else 0
      {
        ghost var done, rest := d[..pd], ops[cnt..];
        BlockFits(done, text, rest, ps, all);
        if cnt == |ops| {
          LastBlock(done, text, ps, all);
          pd := AppendOld(pd, ps, lenOld - ps, text);
          assert text[ps..lenOld] == text[ps..];
          break;
        }
        assert rest[0] == ops[cnt] && rest[1..] == ops[cnt + 1..];
        if ps == ops[cnt].start {
          NewBlock(done, text, rest, ps, all);
          pd := AppendNew(pd, ops[cnt].newdata);
          ps := ops[cnt].end;
          cnt := cnt + 1;
        } else {
          OldBlock(done, text, rest, ps, all);
          var sz := ops[cnt].start - ps;
          pd := AppendOld(pd, ps, sz, text);
          ps := ps + sz;
        }
      }
    }

    /** A block of the source, copied behind what is written: memcpy(d + pd, s + ps, sz); pd += sz. */
    method AppendOld(pd: nat, ps: nat, sz: nat, ghost text: string) returns (next: nat)
      requires s != d && pd + sz <= d.Length && ps + sz <= |text| <= s.Length && s[..|text|] == text
      modifies d
      ensures next == pd + sz && Same(d[..next], old(d[..pd]) + text[ps..ps + sz])
    {
      CopyBlock(d, pd, s, ps, sz);
      next := pd + sz;
      assert s[..|text|][ps..ps + sz] == s[ps..ps + sz];
      assert d[..next] == old(d[..pd]) + text[ps..ps + sz];
    }

    /** A block of new data, copied behind what is written. */
    method AppendNew(pd: nat, newdata: string) returns (next: nat)
      requires pd + |newdata| <= d.Length
      modifies d
      ensures next == pd + |newdata| && Same(d[..next], old(d[..pd]) + newdata)
    {
      CopyInto(d, pd, newdata);
      next := pd + |newdata|;
      assert d[..next] == old(d[..pd]) + newdata;
    }

    /** modify.cc:125-161 */
    method Modify()
      requires Ready(Sort(ops))
      modifies this`len, this`ops, d
      ensures ops == Sort(old(ops)) && len == old(len) + TotalDelta(ops)
      ensures ops != [] ==> len <= d.Length && d[..len] == Splice(s[..old(len)], Sort(old(ops)), 0)
      ensures ops == [] ==> d[..] == old(d[..])
    {
      if |ops| == 0 {
        return;
      }
      ops := Sort(ops);
      ModifyNosort();
    }

    /** modify.cc:77-88; len is left alone. */
    method ModifySlow()
      requires Ready(Sort(ops)) && RoomForEach(d.Length, len, Sort(ops))
      modifies this`ops, d
      ensures ops == Sort(old(ops))
      ensures d[..] == SlowRun(old(s[..len] + d[len..]), len, ops)
    {
      ghost var d0, n := s[..len] + d[len..], len;
      var sorted := Sort(ops);
      ops := sorted;
      CopyBlock(d, 0, s, 0, len);
      assert d[..] == d0 && sorted[|sorted|..] == [];
      var i := |sorted| - 1;
      while i >= 0
        invariant -1 <= i < |sorted| && len == n && ops == sorted
        invariant Fits(sorted[i + 1..], 0, n) && RoomForEach(d.Length, n, sorted[i + 1..])
        invariant Same(d[..], SlowRun(d0, n, sorted[i + 1..]))
      {
        SlowNext(n, sorted, i, d.Length);
        SlowOperation(ops[i]);
        i := i - 1;
      }
      assert sorted[0..] == sorted;
    }

    /** modify.cc:81-86 */
    method SlowOperation(op: Operation)
      requires 0 <= op.start <= op.end <= len && len <= d.Length && len + op.Delta() <= d.Length
      modifies d
      ensures Same(d[..], SlowStep(old(d[..]), len, op))
    {
      ghost var d0 := d[..];
      var delta := |op.newdata| - (op.end - op.start);
      if delta > 0 {
        MakeRoom(op.start, delta);
      }
      CopyInto(d, op.start, op.newdata);
      forall k | 0 <= k < d.Length ensures d[k] == SlowStep(d0, len, op)[k] {
        SlowStepBytes(d0, len, op, k);
      }
      assert d[..] == SlowStep(d0, len, op);
    }

    /** modify.cc:83-84 */
    method MakeRoom(start: nat, delta: nat)
      requires start <= len && len + delta <= d.Length && 0 < delta
      modifies d
      ensures forall k :: 0 <= k < start + delta || len + delta <= k < d.Length ==> d[k] == old(d[k])
      ensures forall k :: start + delta <= k < len + delta ==> d[k] == old(d[k - delta])
    {
      var j := len + delta - 1;
      while j - delta >= start
        invariant start + delta - 1 <= j < len + delta
        invariant forall k :: 0 <= k <= j || len + delta <= k < d.Length ==> d[k] == old(d[k])
        invariant forall k :: j < k < len + delta ==> d[k] == old(d[k - delta])
      {
        d[j] := d[j - delta];
        j := j - 1;
      }
    }
  }

  /** The bytes of SlowStep. */
  lemma SlowStepBytes(d: string, len: nat, op: Operation, k: nat)
    requires 0 <= op.start <= op.end <= len && len <= |d| && len + op.Delta() <= |d| && k < |d|
    ensures SlowStep(d, len, op)[k] ==
      if op.start <= k < op.start + |op.newdata| then op.newdata[k - op.start]
      else if op.Delta() > 0 && op.end + op.Delta() <= k < len + op.Delta() then d[k - op.Delta()]
      else d[k]
  {
    var delta := op.Delta();
    if delta > 0 {
      var moved := d[..op.start + delta] + d[op.start..len] + d[len + delta..];
      assert op.start + delta <= k < len + delta ==> moved[k] == d[k - delta];
    }
  }

  lemma SlowNext(len: nat, ops: seq<Operation>, i: nat, cap: nat)
    requires i < |ops| && Fits(ops, 0, len) && RoomForEach(cap, len, ops)
    ensures Fits(ops[i..], 0, len) && RoomForEach(cap, len, ops[i..]) && ops[i..] == [ops[i]] + ops[i + 1..]
    ensures 0 <= ops[i].start <= ops[i].end <= len
  {
    FitsMeansOrderedDisjointInRange(ops, 0, len);
    FitsMeansOrderedDisjointInRange(ops[i..], 0, len);
  }

  /** What is done, and the splice of the rest, are the whole result. */
  ghost predicate Copying(done: string, text: string, rest: seq<Operation>, ps: int, all: string) {
    0 <= ps <= |text| && Fits(rest, ps, |text|) && Same(done + Splice(text[ps..], rest, ps), all)
  }

  lemma StartCopying(text: string, ops: seq<Operation>, all: string)
    requires Fits(ops, 0, |text|) && Same(Splice(text, ops, 0), all)
    ensures Copying("", text, ops, 0, all)
  {
    assert text[0..] == text && "" + all == all;
  }

  lemma LastBlock(done: string, text: string, ps: nat, all: string)
    requires Copying(done, text, [], ps, all)
    ensures Same(done + text[ps..], all)
  {
  }

  /** The blocks fit into the result. */
  lemma BlockFits(done: string, text: string, ops: seq<Operation>, ps: nat, all: string)
    requires Copying(done, text, ops, ps, all)
    ensures |done| + |text| - ps + TotalDelta(ops) == |all|
    ensures ops != [] ==> |done| + (ops[0].start - ps) + |ops[0].newdata| <= |all|
  {
    RoomLeft(ops, ps, |text|);
    if ops != [] {
      RoomLeft(ops[1..], ops[0].end, |text|);
    }
  }

  lemma OldBlock(done: string, text: string, ops: seq<Operation>, ps: nat, all: string)
    requires ops != [] && Copying(done, text, ops, ps, all)
    ensures ps <= ops[0].start <= |text| && Copying(done + text[ps..ops[0].start], text, ops, ops[0].start, all)
  {
    var st := ops[0].start;
    assert text[ps..] == text[ps..st] + text[st..];
    SpliceCopies(text[ps..], text[ps..st], text[st..], ops, ps, st);
    var rest := Splice(text[st..], ops, st);
    assert done + (text[ps..st] + rest) == (done + text[ps..st]) + rest;
  }

  lemma NewBlock(done: string, text: string, ops: seq<Operation>, ps: nat, all: string)
    requires ops != [] && ops[0].start == ps && Copying(done, text, ops, ps, all)
    ensures Copying(done + ops[0].newdata, text, ops[1..], ops[0].end, all)
  {
    var q := ops[0].end;
    SpliceFromFront(text[ps..], ops, ps);
    assert text[ps..][..0] == "" && text[ps..][q - ps..] == text[q..];
    var rest := Splice(text[q..], ops[1..], q);
    assert "" + ops[0].newdata + rest == ops[0].newdata + rest;
    assert done + (ops[0].newdata + rest) == (done + ops[0].newdata) + rest;
  }
}
