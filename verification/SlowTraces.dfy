/**
  When modify_slow (test/modify/modify.cc:77-88) is right, for any operations that fit, shrinking ones
  included. Every byte of its result, and of the splice, is followed back to where it comes from.
 */
module SlowTraces {
  import opened Words
  import opened Operations
  import opened Splicing
  import opened ModifyBench

  /** Where a byte comes from: a position of the destination before the first operation, or new data. */
  datatype Source = Old(pos: int) | New(c: char)

  function ValueOf(d: string, from: Source): char
    requires from.Old? ==> 0 <= from.pos < |d|
  {
    match from
    case Old(pos) => d[pos]
    case New(c) => c
  }

  /** Byte x of the result of modify_slow; len is not carried from one operation to the next. */
  function SlowFrom(len: int, ops: seq<Operation>, x: int): Source {
    if ops == [] then Old(x)
    else
      var op := ops[0];
      if op.start <= x < op.start + |op.newdata| then New(op.newdata[x - op.start])
      else if op.Delta() > 0 && op.end + op.Delta() <= x < len + op.Delta() then SlowFrom(len, ops[1..], x - op.Delta())
      else SlowFrom(len, ops[1..], x)
  }

  /** Byte x of the splice. */
  function SpliceFrom(ops: seq<Operation>, x: int): Source {
    if ops == [] then Old(x)
    else
      var op := ops[0];
      if op.start <= x < op.start + |op.newdata| then New(op.newdata[x - op.start])
      else if x < op.start then SpliceFrom(ops[1..], x)
      else SpliceFrom(ops[1..], x - op.Delta())
  }

  // ----- the traces are true

  lemma {:induction false} SlowByte(d: string, len: nat, ops: seq<Operation>, x: nat)
    requires Fits(ops, 0, len) && RoomForEach(|d|, len, ops) && x < |d|
    ensures var from := SlowFrom(len, ops, x);
      (from.Old? ==> 0 <= from.pos < |d|) && SlowRun(d, len, ops)[x] == ValueOf(d, from)
  {
    if ops != [] {
      var op, rest := ops[0], ops[1..];
      SlowRunTail(d, len, ops);
      SlowStepBytes(SlowRun(d, len, rest), len, op, x);
      SlowByte(d, len, rest, if op.Delta() > 0 && op.end + op.Delta() <= x < len + op.Delta() then x - op.Delta() else x);
    }
  }

  lemma SlowRunTail(d: string, len: nat, ops: seq<Operation>)
    requires ops != [] && Fits(ops, 0, len) && RoomForEach(|d|, len, ops)
    ensures Fits(ops[1..], 0, len) && RoomForEach(|d|, len, ops[1..]) && 0 <= ops[0].start <= ops[0].end <= len
    ensures len + ops[0].Delta() <= |d|
    ensures Same(SlowRun(d, len, ops), SlowStep(SlowRun(d, len, ops[1..]), len, ops[0]))
  {
    FitsWider(ops[1..], ops[0].end, len, 0, len);
    RoomLeft(ops[1..], ops[0].end, len);
  }

  lemma {:induction false} SpliceByte(s: string, ops: seq<Operation>, x: nat)
    requires Fits(ops, 0, |s|) && x < |s| + TotalDelta(ops)
    ensures var from := SpliceFrom(ops, x);
      (from.Old? ==> 0 <= from.pos < |s|) && Splice(s, ops, 0)[x] == ValueOf(s, from)
  {
    if ops != [] {
      var op, rest := ops[0], ops[1..];
      FitsWider(rest, op.end, |s|, 0, |s|);
      RoomLeft(rest, op.end, |s|);
      if x < op.start {
        SpliceByte(s, rest, x);
      } else if op.start + |op.newdata| <= x {
        SpliceByte(s, rest, x - op.Delta());
      }
    }
  }

  // ----- right for all texts

  /** For every text and every contents of the buffer behind it, the whole result is the splice. */
  ghost predicate SlowAlwaysRight(cap: nat, len: nat, ops: seq<Operation>)
    requires Fits(ops, 0, len) && RoomForEach(cap, len, ops) && 0 <= len + TotalDelta(ops) <= cap
  {
    forall d: string :: RightOn(d, cap, len, ops)
  }

  ghost predicate RightOn(d: string, cap: nat, len: nat, ops: seq<Operation>)
    requires Fits(ops, 0, len) && RoomForEach(cap, len, ops) && 0 <= len + TotalDelta(ops) <= cap
  {
    |d| == cap ==> Same(SlowRun(d, len, ops)[..len + TotalDelta(ops)], Splice(d[..len], ops, 0))
  }

  /** Byte for byte the two results come from the same place. */
  predicate TracesAgree(len: int, ops: seq<Operation>) {
    forall x :: 0 <= x < len + TotalDelta(ops) ==> SlowFrom(len, ops, x) == SpliceFrom(ops, x)
  }

  lemma BytesOfBoth(d: string, len: nat, ops: seq<Operation>, x: nat)
    requires Fits(ops, 0, len) && RoomForEach(|d|, len, ops) && x < len + TotalDelta(ops) <= |d|
    ensures var slow, splice := SlowFrom(len, ops, x), SpliceFrom(ops, x);
      && (slow.Old? ==> 0 <= slow.pos < |d|) && (splice.Old? ==> 0 <= splice.pos < len)
      && SlowRun(d, len, ops)[..len + TotalDelta(ops)][x] == ValueOf(d, slow)
      && Splice(d[..len], ops, 0)[x] == ValueOf(d, splice)
  {
    SlowByte(d, len, ops, x);
    SpliceByte(d[..len], ops, x);
  }

  /** A buffer on which two different sources have different values. */
  lemma Distinguish(cap: nat, a: Source, b: Source) returns (d: string)
    requires a != b && (a.Old? ==> 0 <= a.pos < cap) && (b.Old? ==> 0 <= b.pos < cap)
    ensures |d| == cap && ValueOf(d, a) != ValueOf(d, b)
  {
    var c := if a.New? then a.c else if b.New? then b.c else 'x';
    var other := if c == 'x' then 'y' else 'x';
    var fill := seq(cap, _ => other);
    d := if a.Old? && b.Old? then fill[a.pos := c] else fill;
  }

  lemma AgreeingIsRight(d: string, len: nat, ops: seq<Operation>, slow: string, splice: string)
    requires Fits(ops, 0, len) && RoomForEach(|d|, len, ops) && 0 <= len + TotalDelta(ops) <= |d| && TracesAgree(len, ops)
    requires Same(slow, SlowRun(d, len, ops)[..len + TotalDelta(ops)]) && Same(splice, Splice(d[..len], ops, 0))
    ensures Same(slow, splice)
  {
    forall x | 0 <= x < |slow| ensures slow[x] == splice[x] {
      BytesOfBoth(d, len, ops, x);
    }
    assert slow == splice;
  }

  lemma DisagreeingIsWrong(cap: nat, len: nat, ops: seq<Operation>, x: nat) returns (d: string)
    requires Fits(ops, 0, len) && RoomForEach(cap, len, ops) && x < len + TotalDelta(ops) <= cap
    requires SlowFrom(len, ops, x) != SpliceFrom(ops, x)
    ensures !RightOn(d, cap, len, ops)
  {
    BytesOfBoth(seq(cap, _ => 'x'), len, ops, x);
    d := Distinguish(cap, SlowFrom(len, ops, x), SpliceFrom(ops, x));
    BytesOfBoth(d, len, ops, x);
  }

  /** modify_slow is right for all texts and buffers if and only if all its bytes come from where they should. */
  lemma SlowIsRightExactly(cap: nat, len: nat, ops: seq<Operation>)
    requires Fits(ops, 0, len) && RoomForEach(cap, len, ops) && 0 <= len + TotalDelta(ops) <= cap
    ensures SlowAlwaysRight(cap, len, ops) <==> TracesAgree(len, ops)
  {
    if TracesAgree(len, ops) {
      AgreeingIsAlwaysRight(cap, len, ops);
    } else {
      var x :| 0 <= x < len + TotalDelta(ops) && SlowFrom(len, ops, x) != SpliceFrom(ops, x);
      var d := DisagreeingIsWrong(cap, len, ops, x);
    }
  }

  lemma AgreeingIsAlwaysRight(cap: nat, len: nat, ops: seq<Operation>)
    requires Fits(ops, 0, len) && RoomForEach(cap, len, ops) && 0 <= len + TotalDelta(ops) <= cap && TracesAgree(len, ops)
    ensures SlowAlwaysRight(cap, len, ops)
  {
    forall d: string ensures RightOn(d, cap, len, ops) {
      if |d| == cap {
        AgreeingIsRight(d, len, ops, SlowRun(d, len, ops)[..len + TotalDelta(ops)], Splice(d[..len], ops, 0));
      }
    }
  }

  // ----- in closed form

  /**
    A growing operation needs a rest that does not make the text longer than it was, for it moves only
    len bytes; a shrinking one needs to be at the end of what the rest leaves.
   */
  predicate SlowRight(len: int, ops: seq<Operation>) {
    ops == [] ||
    var delta, rest := ops[0].Delta(), ops[1..];
    if delta > 0 then SlowRight(len, rest) && TotalDelta(rest) <= 0
    else if delta == 0 then SlowRight(len, rest)
    else ops[0].end == len + TotalDelta(rest)
  }

  /** No shrinking operation stands behind two growing ones; growers counts those in front. */
  predicate Tame(ops: seq<Operation>, growers: nat) {
    ops == [] || (
      && (ops[0].Delta() < 0 ==> growers < 2)
      && Tame(ops[1..], if ops[0].Delta() > 0 then growers + 1 else growers))
  }

  /** In front of the first operation nothing is changed. */
  lemma {:induction false} FrontIsOld(len: int, ops: seq<Operation>, lo: int, x: int)
    requires Fits(ops, lo, len) && x < lo
    ensures SlowFrom(len, ops, x) == SpliceFrom(ops, x) == Old(x)
  {
    if ops != [] {
      FrontIsOld(len, ops[1..], ops[0].end, x);
    }
  }

  /** What the splice takes from behind lo comes from behind lo, or is new. */
  lemma {:induction false} SpliceFromBehind(ops: seq<Operation>, lo: int, hi: int, x: int)
    requires Fits(ops, lo, hi) && lo <= x < hi + TotalDelta(ops)
    ensures SpliceFrom(ops, x).Old? ==> lo <= SpliceFrom(ops, x).pos < hi
  {
    if ops != [] {
      var op := ops[0];
      if x < op.start {
        FrontIsOld(hi, ops[1..], op.end, x);
      } else if op.start + |op.newdata| <= x {
        SpliceFromBehind(ops[1..], op.end, hi, x - op.Delta());
      }
    }
  }

  lemma {:induction false} RightTraces(len: int, ops: seq<Operation>, lo: int, x: int)
    requires 0 <= lo && Fits(ops, lo, len) && SlowRight(len, ops) && 0 <= x < len + TotalDelta(ops)
    ensures SlowFrom(len, ops, x) == SpliceFrom(ops, x)
  {
    if ops != [] {
      var op, rest := ops[0], ops[1..];
      if x < op.start {
        FrontIsOld(len, rest, op.end, x);
      } else if op.start + |op.newdata| <= x {
        RightTraces(len, rest, op.end, x - op.Delta());
      }
    }
  }

  /** Byte x of the result, behind lo, comes from a wrong place. */
  predicate WrongAt(len: int, ops: seq<Operation>, lo: int, x: int) {
    lo <= x < len + TotalDelta(ops) && SlowFrom(len, ops, x) != SpliceFrom(ops, x)
  }

  /** A shrinking operation with text behind it: its first old byte is wrong. */
  lemma ShrinkingIsWrong(len: int, ops: seq<Operation>, lo: int)
    requires ops != [] && Fits(ops, lo, len) && ops[0].Delta() < 0 && ops[0].end < len + TotalDelta(ops[1..])
    ensures var x := ops[0].start + |ops[0].newdata|; x < len && WrongAt(len, ops, lo, x)
  {
    var op, rest := ops[0], ops[1..];
    var x := op.start + |op.newdata|;
    FrontIsOld(len, rest, op.end, x);
    SpliceFromBehind(rest, op.end, len, op.end);
  }

  /** An operation that keeps the length does not touch what is wrong behind it. */
  lemma WrongBehindNeutral(len: int, ops: seq<Operation>, lo: int, x: int)
    requires ops != [] && Fits(ops, lo, len) && ops[0].Delta() == 0 && WrongAt(len, ops[1..], ops[0].end, x)
    ensures WrongAt(len, ops, lo, x)
  {
  }

  /** A growing one moves it, if it is among the first len bytes. */
  lemma WrongBehindGrowing(len: int, ops: seq<Operation>, lo: int, x: int)
    requires ops != [] && Fits(ops, lo, len) && ops[0].Delta() > 0 && WrongAt(len, ops[1..], ops[0].end, x) && x < len
    ensures WrongAt(len, ops, lo, x + ops[0].Delta())
  {
  }

  lemma {:induction false} NoShrinkBehindTwo(ops: seq<Operation>, growers: nat)
    requires Tame(ops, growers) && growers >= 2
    ensures NoneShrinks(ops)
  {
    if ops != [] {
      NoShrinkBehindTwo(ops[1..], if ops[0].Delta() > 0 then growers + 1 else growers);
      NoneShrinksJoin(ops);
    }
  }

  lemma NoneShrinksJoin(ops: seq<Operation>)
    requires ops != [] && ops[0].Delta() >= 0 && NoneShrinks(ops[1..])
    ensures NoneShrinks(ops)
  {
    assert forall i :: 0 < i < |ops| ==> ops[i] == ops[1..][i - 1];
  }

  /** Behind one growing operation, in a list that grows: the first shrinking operation is wrong. */
  lemma {:induction false} FirstShrinkIsWrong(len: int, ops: seq<Operation>, lo: int, growers: nat) returns (x: int)
    requires Fits(ops, lo, len) && Tame(ops, growers) && growers >= 1 && !NoneShrinks(ops) && TotalDelta(ops) > 0
    ensures x < len && WrongAt(len, ops, lo, x)
  {
    var delta := ops[0].Delta();
    if delta < 0 {
      x := ops[0].start + |ops[0].newdata|;
      ShrinkingIsWrong(len, ops, lo);
    } else {
      if delta > 0 {
        NoShrinkBehindTwo(ops[1..], growers + 1);
        NoneShrinksJoin(ops);
      }
      if NoneShrinks(ops[1..]) {
        NoneShrinksJoin(ops);
      }
      x := FirstShrinkIsWrong(len, ops[1..], ops[0].end, growers);
      WrongBehindNeutral(len, ops, lo, x);
    }
  }

  /** Bytes past the reach of every operation are never written. */
  lemma {:induction false} RestIsOld(len: int, ops: seq<Operation>, lo: int, x: int)
    requires Fits(ops, lo, len) && len <= x && forall i :: 0 <= i < |ops| ==> len + ops[i].Delta() <= x
    ensures SlowFrom(len, ops, x) == Old(x)
  {
    if ops != [] {
      RoomLeft(ops[1..], ops[0].end, len);
      assert len + ops[0].Delta() <= x;
      forall i | 0 <= i < |ops[1..]| ensures len + ops[1..][i].Delta() <= x {
        assert ops[1..][i] == ops[i + 1];
      }
      RestIsOld(len, ops[1..], ops[0].end, x);
    }
  }

  /** Two growing operations, and none that shrinks: the last byte is an old byte from behind the text. */
  lemma LastByteIsWrong(len: int, ops: seq<Operation>, lo: int)
    requires ops != [] && 0 <= lo && Fits(ops, lo, len) && ops[0].Delta() > 0
    requires NoneShrinks(ops[1..]) && TotalDelta(ops[1..]) > 0
    ensures WrongAt(len, ops, lo, len + TotalDelta(ops) - 1)
  {
    var x := len + TotalDelta(ops) - 1;
    RoomLeft(ops[1..], ops[0].end, len);
    NoneShrinksJoin(ops);
    forall i | 0 <= i < |ops| ensures len + ops[i].Delta() <= x {
      if i > 0 {
        TwoGrowBeyondEach(ops[1..], i - 1);
        assert ops[i] == ops[1..][i - 1];
      }
    }
    RestIsOld(len, ops, lo, x);
    SpliceFromBehind(ops, lo, len, x);
  }

  lemma {:induction false} TameTraces(len: int, ops: seq<Operation>, lo: int, growers: nat) returns (x: int)
    requires 0 <= lo && Fits(ops, lo, len) && Tame(ops, growers) && !SlowRight(len, ops)
    ensures WrongAt(len, ops, lo, x)
    decreases |ops|
  {
    var delta, rest := ops[0].Delta(), ops[1..];
    RoomLeft(rest, ops[0].end, len);
    if delta < 0 {
      x := ops[0].start + |ops[0].newdata|;
      TextBehind(len, ops, lo);
      ShrinkingIsWrong(len, ops, lo);
    } else if delta == 0 {
      x := TameTraces(len, rest, ops[0].end, growers);
      WrongBehindNeutral(len, ops, lo, x);
    } else if TotalDelta(rest) <= 0 {
      x := TameTraces(len, rest, ops[0].end, growers + 1);
      WrongBehindGrowing(len, ops, lo, x);
      x := x + delta;
    } else if NoneShrinks(rest) {
      x := len + TotalDelta(ops) - 1;
      LastByteIsWrong(len, ops, lo);
    } else {
      x := FirstShrinkIsWrong(len, rest, ops[0].end, growers + 1);
      WrongBehindGrowing(len, ops, lo, x);
      x := x + delta;
    }
  }

  lemma TextBehind(len: int, ops: seq<Operation>, lo: int)
    requires ops != [] && Fits(ops, lo, len)
    ensures ops[0].end <= len + TotalDelta(ops[1..])
  {
    RoomLeft(ops[1..], ops[0].end, len);
  }

  /**
    For lists without a shrinking operation behind two growing ones: modify_slow is right for all texts
    and buffers if and only if at every growing operation the rest does not make the text longer, and
    every shrinking one is at the end of what the rest leaves.
   */
  lemma SlowIsRightInClosedForm(cap: nat, len: nat, ops: seq<Operation>)
    requires Fits(ops, 0, len) && RoomForEach(cap, len, ops) && 0 <= len + TotalDelta(ops) <= cap && Tame(ops, 0)
    ensures SlowAlwaysRight(cap, len, ops) <==> SlowRight(len, ops)
  {
    SlowIsRightExactly(cap, len, ops);
    if SlowRight(len, ops) {
      forall x | 0 <= x < len + TotalDelta(ops) ensures SlowFrom(len, ops, x) == SpliceFrom(ops, x) {
        RightTraces(len, ops, 0, x);
      }
    } else {
      var x := TameTraces(len, ops, 0, 0);
    }
  }

  /** Why behind two growing ones it may be otherwise: the old byte that the deletion leaves is lost by luck. */
  lemma RightByLuck(ops: seq<Operation>, two: seq<Operation>, one: seq<Operation>)
    requires one == [Operation(0, 2, "D", false)]
    requires two == [Operation(0, 0, "BC", false)] + one && ops == [Operation(0, 0, "A", false)] + two
    ensures Fits(ops, 0, 3) && !Tame(ops, 0) && !SlowRight(3, ops) && TracesAgree(3, ops)
  {
    assert ops[1..] == two && two[1..] == one && one[1..] == [];
    assert one[0].Delta() == -1 && two[0].Delta() == 2 && ops[0].Delta() == 1;
    assert TotalDelta(one) == -1;
    assert TotalDelta(two) == 1;
    assert Fits(one, 0, 3) && Fits(two, 0, 3);
    assert !Tame(one, 2) && !Tame(two, 1);
    forall x | 0 <= x < 5 ensures SlowFrom(3, ops, x) == SpliceFrom(ops, x) {
      LuckOfTwo(two, one, x);
      LuckOfTwo(two, one, x - 1);
    }
  }

  lemma LuckOfTwo(two: seq<Operation>, one: seq<Operation>, x: int)
    requires one == [Operation(0, 2, "D", false)] && two == [Operation(0, 0, "BC", false)] + one
    ensures SlowFrom(3, two, x) ==
      if x == 0 then New('B') else if x == 1 then New('C') else if x == 2 then New('D')
      else if 2 < x < 5 then Old(x - 2) else Old(x)
    ensures SpliceFrom(two, x) ==
      if x < 0 then Old(x) else if x == 0 then New('B') else if x == 1 then New('C')
      else if x == 2 then New('D') else Old(x - 1)
  {
    assert two[1..] == one;
    LuckOfOne(one, x);
    LuckOfOne(one, x - 2);
  }

  lemma LuckOfOne(one: seq<Operation>, x: int)
    requires one == [Operation(0, 2, "D", false)]
    ensures SlowFrom(3, one, x) == if x == 0 then New('D') else Old(x)
    ensures SpliceFrom(one, x) == if x == 0 then New('D') else if x < 0 then Old(x) else Old(x + 1)
  {
    assert one[1..] == [];
  }

  // ----- carrying the length

  /** The same steps with the length that the text has then. */
  function CarriedRun(d: string, len: nat, ops: seq<Operation>): (r: string)
    requires Fits(ops, 0, len) && NoneShrinks(ops) && len + TotalDelta(ops) <= |d|
    ensures |r| == |d|
  {
    if ops == [] then d
    else
      FitsWider(ops[1..], ops[0].end, len, 0, len);
      NoneShrinksTail(ops);
      DeltaNotNegative(ops[1..]);
      SlowStep(CarriedRun(d, len, ops[1..]), len + TotalDelta(ops[1..]), ops[0])
  }

  /** Carrying the length makes it right for all operations that do not shrink. */
  lemma {:induction false} CarriedIsSplice(d: string, len: nat, ops: seq<Operation>)
    requires Fits(ops, 0, len) && NoneShrinks(ops) && len + TotalDelta(ops) <= |d|
    ensures 0 <= len + TotalDelta(ops) && len <= |d|
    ensures Same(CarriedRun(d, len, ops)[..len + TotalDelta(ops)], Splice(d[..len], ops, 0))
  {
    DeltaNotNegative(ops);
    if ops != [] {
      FitsWider(ops[1..], ops[0].end, len, 0, len);
      NoneShrinksTail(ops);
      DeltaNotNegative(ops[1..]);
      CarriedIsSplice(d, len, ops[1..]);
      var s := Splice(d[..len], ops[1..], 0);
      assert s[..|s|] == s;
      SlowStepReplaces(CarriedRun(d, len, ops[1..]), |s|, ops[0], s, |s|);
      var t := ReplaceOne(s, ops[0].start, ops[0].end, ops[0].newdata);
      assert t[..|t|] == t;
    }
  }
}
