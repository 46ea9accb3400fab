/**
  The one-pass rewriting loop of Flow::modify (flow.cc:132-161) on operations that fit. `Sweep` says
  what it writes, operation by operation, and `SweepableIsSplice` and `NotSweepableDiffers` for which
  layouts that is the splice. ByteLoop has the loop itself.
 */
module ByteMachine {
  import opened Operations
  import opened Splicing
  import opened Words

  // ----- what the loop writes

  /**
    The next `room` bytes written with the source position at ps and `ops` still to come. The
    source buffer src may hold stale bytes after the n bytes of the packet. After an empty
    replacement the loop copies one byte without looking at the next operation.
   */
  function Sweep(src: string, n: nat, ops: seq<Operation>, offset: int, ps: nat, room: nat): (out: string)
    requires Fits(ops, offset, offset + n)
    requires n + TotalNew(ops) <= |src| && ps + room == n + TotalDelta(ops)
    ensures |out| == room
    decreases room
  {
    TailFits(ops, offset, offset + n);
    if room == 0 then ""
    else if ops != [] && ps == ops[0].start - offset then
      var q: nat := ops[0].end - offset;
      if ops[0].newdata == "" then
        [src[q]] + Sweep(src, n, ops[1..], offset, q + 1, room - 1)
      else
        ops[0].newdata + Sweep(src, n, ops[1..], offset, q, room - |ops[0].newdata|)
    else
      [src[ps]] + Sweep(src, n, ops, offset, ps + 1, room - 1)
  }

  /** The operations after the first: they fit, and they leave room and need no more than their new data. */
  lemma TailFits(ops: seq<Operation>, lo: int, hi: int)
    requires Fits(ops, lo, hi)
    ensures TotalDelta(ops) <= TotalNew(ops)
    ensures ops != [] ==>
      && Fits(ops[1..], lo, hi) && TotalDelta(ops[1..]) <= TotalNew(ops[1..])
      && 0 <= hi - ops[0].end + TotalDelta(ops[1..])
  {
    RoomLeft(ops, lo, hi);
    if ops != [] {
      RoomLeft(ops[1..], ops[0].end, hi);
      FitsWider(ops[1..], ops[0].end, hi, lo, hi);
    }
  }

  lemma SliceHead(x: string, i: nat, j: nat)
    requires i < j <= |x|
    ensures Same(x[i..j], [x[i]] + x[i + 1..j])
  {
    assert x[i..j] == [x[i]] + x[i + 1..j];
  }

  /** Up to the next operation, or for ever after its start was missed, the loop copies. */
  lemma {:induction false} SweepCopies(src: string, n: nat, ops: seq<Operation>, offset: int, ps: nat, room: nat,
                 q: nat)
    requires Fits(ops, offset, offset + n)
    requires n + TotalNew(ops) <= |src| && ps + room == n + TotalDelta(ops)
    requires ps <= q <= ps + room && (ops == [] || q <= ops[0].start - offset || ops[0].start - offset < ps)
    ensures q <= |src|
    ensures Same(Sweep(src, n, ops, offset, ps, room), src[ps..q] + Sweep(src, n, ops, offset, q, room - (q - ps)))
    decreases q - ps
  {
    TailFits(ops, offset, offset + n);
    var more := Sweep(src, n, ops, offset, q, room - (q - ps));
    if ps < q {
      SweepCopies(src, n, ops, offset, ps + 1, room - 1, q);
      SliceHead(src, ps, q);
      Associates([src[ps]], src[ps + 1..q], more);
    } else {
      assert src[ps..q] == "";
      EmptyIsNeutral(more);
    }
  }

  /** An empty replacement whose end is the start of the next operation. */
  predicate EmptyThenAdjacent(ops: seq<Operation>) {
    |ops| >= 2 && ops[0].newdata == "" && ops[1].start == ops[0].end
  }

  /** What is written after the first operation; past an empty one that touches the next, the source is copied. */
  function AfterFirst(src: string, n: nat, ops: seq<Operation>, offset: int): string
    requires ops != [] && Fits(ops, offset, offset + n) && n + TotalNew(ops) <= |src|
  {
    TailFits(ops, offset, offset + n);
    var q := ops[0].end - offset;
    var end := n + TotalDelta(ops[1..]);
    if EmptyThenAdjacent(ops) then src[q..end] else Sweep(src, n, ops[1..], offset, q, end - q)
  }

  /** At the start of an operation: its new data, and what comes after. */
  lemma SweepAtStart(src: string, n: nat, ops: seq<Operation>, offset: int, st: nat, room: nat)
    requires ops != [] && st == ops[0].start - offset && Fits(ops, offset, offset + n)
    requires n + TotalNew(ops) <= |src| && st + room == n + TotalDelta(ops)
    ensures Same(Sweep(src, n, ops, offset, st, room), ops[0].newdata + AfterFirst(src, n, ops, offset))
  {
    if ops[0].newdata == "" {
      EmptyIsNeutral(AfterFirst(src, n, ops, offset));
      if EmptyThenAdjacent(ops) {
        SweepStepsOver(src, n, ops, offset, st, room);
      } else {
        SweepPastEmpty(src, n, ops, offset, st, room);
      }
    }
  }

  lemma SweepPastEmpty(src: string, n: nat, ops: seq<Operation>, offset: int, st: nat, room: nat)
    requires ops != [] && st == ops[0].start - offset && Fits(ops, offset, offset + n)
    requires n + TotalNew(ops) <= |src| && st + room == n + TotalDelta(ops)
    requires ops[0].newdata == "" && !EmptyThenAdjacent(ops)
    ensures Same(Sweep(src, n, ops, offset, st, room), AfterFirst(src, n, ops, offset))
  {
    TailFits(ops, offset, offset + n);
    TailFits(ops[1..], offset, offset + n);
  }

  lemma SweepStartMissed(src: string, n: nat, ops: seq<Operation>, offset: int, ps: nat, room: nat)
    requires ops != [] && ops[0].start - offset < ps && Fits(ops, offset, offset + n)
    requires n + TotalNew(ops) <= |src| && ps + room == n + TotalDelta(ops)
    ensures ps + room <= |src| && Same(Sweep(src, n, ops, offset, ps, room), src[ps..ps + room])
  {
    SweepCopies(src, n, ops, offset, ps, room, ps + room);
    EmptyIsNeutral(src[ps..ps + room]);
  }

  /** An operation that starts where an empty one ends is never found: the source is copied for ever after. */
  lemma SweepStepsOver(src: string, n: nat, ops: seq<Operation>, offset: int, st: nat, room: nat)
    requires EmptyThenAdjacent(ops) && st == ops[0].start - offset && Fits(ops, offset, offset + n)
    requires n + TotalNew(ops) <= |src| && st + room == n + TotalDelta(ops)
    ensures Same(Sweep(src, n, ops, offset, st, room), AfterFirst(src, n, ops, offset))
  {
    TailFits(ops, offset, offset + n);
    CopiedFromEnd(src, n, ops, offset, st, room, ops[0].end - offset);
  }

  lemma CopiedFromEnd(src: string, n: nat, ops: seq<Operation>, offset: int, st: nat, room: nat, q: nat)
    requires EmptyThenAdjacent(ops) && st == ops[0].start - offset && q == ops[0].end - offset
    requires Fits(ops, offset, offset + n) && n + TotalNew(ops) <= |src| && st + room == n + TotalDelta(ops)
    ensures q + room == n + TotalDelta(ops[1..]) <= |src|
    ensures Same(Sweep(src, n, ops, offset, st, room), src[q..q + room])
  {
    TailFits(ops, offset, offset + n);
    if room > 0 {
      SweepJumps(src, n, ops, offset, st, room, q);
      SweepStartMissed(src, n, ops[1..], offset, q + 1, room - 1);
      SliceHead(src, q, q + room);
    } else {
      assert src[q..q] == "";
    }
  }

  lemma SweepJumps(src: string, n: nat, ops: seq<Operation>, offset: int, st: nat, room: nat, q: nat)
    requires ops != [] && st == ops[0].start - offset && q == ops[0].end - offset && Fits(ops, offset, offset + n)
    requires n + TotalNew(ops) <= |src| && st + room == n + TotalDelta(ops) && ops[0].newdata == "" && room > 0
    ensures q < |src| && q + room == n + TotalDelta(ops[1..]) && Fits(ops[1..], offset, offset + n)
    ensures n + TotalNew(ops[1..]) <= |src|
    ensures Same(Sweep(src, n, ops, offset, st, room), [src[q]] + Sweep(src, n, ops[1..], offset, q + 1, room - 1))
  {
    TailFits(ops, offset, offset + n);
  }

  /** Read from the front: the output x is what is copied, the new data, and what comes after. */
  lemma SweepFromFront(src: string, n: nat, ops: seq<Operation>, offset: int, ps: nat, room: nat, head: string)
    returns (x: string, a: string)
    requires ops != [] && Fits(ops, offset + ps, offset + n) && Fits(ops, offset, offset + n)
    requires n + TotalNew(ops) <= |src| && ps + room == n + TotalDelta(ops)
    requires ops[0].start - offset <= |src| && head == src[ps..ops[0].start - offset] + ops[0].newdata
    ensures x == Sweep(src, n, ops, offset, ps, room) && a == AfterFirst(src, n, ops, offset)
    ensures Same(x, head + a)
  {
    var st := ops[0].start - offset;
    RoomLeft(ops, ops[0].start, offset + n);
    x, a := Sweep(src, n, ops, offset, ps, room), AfterFirst(src, n, ops, offset);
    SweepCopies(src, n, ops, offset, ps, room, st);
    SweepAtStart(src, n, ops, offset, st, room - (st - ps));
    Associates(src[ps..st], ops[0].newdata, a);
  }

  // ----- when that is the splice

  /** Nothing is written after the start of the first of these operations. */
  predicate NothingLeft(ops: seq<Operation>, hi: int) {
    ops != [] && hi - ops[0].start + TotalDelta(ops) == 0
  }

  /** Stepping over these operations does no harm: they change nothing, or they cut off the end. */
  predicate MayBeSkipped(ops: seq<Operation>, hi: int) {
    || ops == []
    || NothingLeft(ops, hi)
    || (ops[0].start == ops[0].end && ops[0].newdata == "" && MayBeSkipped(ops[1..], hi))
  }

  /** At the first place where an empty replacement touches the next operation, the rest may be skipped. */
  predicate Sweepable(ops: seq<Operation>, hi: int) {
    if ops == [] then true
    else if EmptyThenAdjacent(ops) then MayBeSkipped(ops[1..], hi)
    else Sweepable(ops[1..], hi)
  }

  lemma {:induction false} SkippedIsCopied(s: string, ops: seq<Operation>, offset: int)
    requires Fits(ops, offset, offset + |s|) && MayBeSkipped(ops, offset + |s|)
    ensures Splice(s, ops, offset) <= s
    decreases |ops|
  {
    if ops != [] {
      var st, q := ops[0].start - offset, ops[0].end - offset;
      SpliceFromFront(s, ops, offset);
      if NothingLeft(ops, offset + |s|) {
        assert Splice(s, ops, offset) == s[..st];
      } else {
        SkippedIsCopied(s[q..], ops[1..], ops[0].end);
        assert s[..st] + ops[0].newdata == s[..st];
        assert s == s[..st] + s[q..];
      }
    }
  }

  lemma SkippedIsPrefix(src: string, n: nat, ops: seq<Operation>, q: nat, after: nat, lo: int, hi: int)
    requires q <= n <= |src| && hi - lo == n - q && Fits(ops, lo, hi) && MayBeSkipped(ops, hi)
    requires q + after == n + TotalDelta(ops)
    ensures q + after <= |src| && Same(Splice(src[q..n], ops, lo), src[q..q + after])
  {
    var s := src[q..n];
    SkippedIsCopied(s, ops, lo);
    RoomLeft(ops, lo, hi);
    var r := Splice(s, ops, lo);
    assert r == s[..|r|] == src[q..q + |r|];
  }

  /** The same for the splice y of what lies between ps and n: y is the head followed by b. */
  lemma SpliceBetween(src: string, n: nat, ops: seq<Operation>, offset: int, ps: nat)
    returns (head: string, y: string, b: string)
    requires ps <= n <= |src| && ops != [] && Fits(ops, offset + ps, offset + n)
    ensures head == src[ps..ops[0].start - offset] + ops[0].newdata && y == head + b
    ensures y == Splice(src[ps..n], ops, offset + ps)
    ensures b == Splice(src[ops[0].end - offset..n], ops[1..], ops[0].end)
  {
    var st, q := ops[0].start - offset, ops[0].end - offset;
    var s := src[ps..n];
    SpliceFromFront(s, ops, offset + ps);
    assert s[..st - ps] == src[ps..st] && s[q - ps..] == src[q..n];
    head, y, b := src[ps..st] + ops[0].newdata, Splice(s, ops, offset + ps), Splice(src[q..n], ops[1..], ops[0].end);
  }

  lemma SameHead(x: string, y: string, head: string, a: string, b: string)
    requires x == head + a && y == head + b
    ensures x == y <==> a == b
  {
    assert x[|head|..] == a && y[|head|..] == b;
  }

  /** Loop and splice agree on a packet when they agree on what follows the first operation. */
  lemma SweepVersusSplice(src: string, n: nat, ops: seq<Operation>, offset: int, ps: nat, room: nat, lo: int, hi: int)
    requires lo == offset + ps && hi == offset + n
    requires ops != [] && Fits(ops, lo, hi) && Fits(ops, offset, hi)
    requires n + TotalNew(ops) <= |src| && ps + room == n + TotalDelta(ops)
    ensures Same(Sweep(src, n, ops, offset, ps, room), Splice(src[ps..n], ops, lo))
       <==> Same(AfterFirst(src, n, ops, offset), Splice(src[ops[0].end - offset..n], ops[1..], ops[0].end))
  {
    var head, y, b := SpliceBetween(src, n, ops, offset, ps);
    var x, a := SweepFromFront(src, n, ops, offset, ps, room, head);
    SameHead(x, y, head, a, b);
  }

  /** From here on the loop writes the splice of the rest of the packet. */
  ghost predicate SweepsRight(src: string, n: nat, ops: seq<Operation>, offset: int, ps: nat, room: nat, lo: int) {
    && lo == offset + ps && Fits(ops, lo, offset + n) && Fits(ops, offset, offset + n) && ps <= n
    && n + TotalNew(ops) <= |src| && ps + room == n + TotalDelta(ops)
    && Same(Sweep(src, n, ops, offset, ps, room), Splice(src[ps..n], ops, lo))
  }

  lemma {:induction false} SweepableIsSplice(src: string, n: nat, ops: seq<Operation>, offset: int, ps: nat, room: nat,
                                             lo: int, hi: int)
    requires lo == offset + ps && hi == offset + n && Fits(ops, lo, hi) && Fits(ops, offset, hi)
    requires n + TotalNew(ops) <= |src| && ps + room == n + TotalDelta(ops)
    requires Sweepable(ops, hi)
    ensures SweepsRight(src, n, ops, offset, ps, room, lo)
    decreases |ops|
  {
    InPacket(ops, lo, hi, ps, n);
    if ops == [] {
      SweepOfNothing(src, n, offset, ps, room);
    } else if EmptyThenAdjacent(ops) {
      SkippedSweepsRight(src, n, ops, offset, ps, room, lo, hi);
    } else {
      var q: nat, after: nat := RestFits(ops, n, offset, ps, hi);
      SweepableIsSplice(src, n, ops[1..], offset, q, after, ops[0].end, hi);
      FirstSweepsRight(src, n, ops, offset, ps, room, lo, hi, q, after);
    }
  }

  lemma RestFits(ops: seq<Operation>, n: nat, offset: int, ps: nat, hi: int) returns (q: nat, after: nat)
    requires ops != [] && hi == offset + n && Fits(ops, offset + ps, hi) && Fits(ops, offset, hi)
    ensures q == ops[0].end - offset && q + after == n + TotalDelta(ops[1..])
    ensures Fits(ops[1..], ops[0].end, hi) && Fits(ops[1..], offset, hi) && TotalNew(ops[1..]) <= TotalNew(ops)
  {
    TailFits(ops, offset, hi);
    q, after := ops[0].end - offset, n + TotalDelta(ops[1..]) - (ops[0].end - offset);
  }

  lemma FirstSweepsRight(src: string, n: nat, ops: seq<Operation>, offset: int, ps: nat, room: nat, lo: int, hi: int,
                         q: nat, after: nat)
    requires lo == offset + ps && hi == offset + n && Fits(ops, lo, hi) && Fits(ops, offset, hi) && ps <= n
    requires n + TotalNew(ops) <= |src| && ps + room == n + TotalDelta(ops)
    requires ops != [] && !EmptyThenAdjacent(ops) && q == ops[0].end - offset && q + after == n + TotalDelta(ops[1..])
    requires SweepsRight(src, n, ops[1..], offset, q, after, ops[0].end)
    ensures SweepsRight(src, n, ops, offset, ps, room, lo)
  {
    FirstThenSweep(src, n, ops, offset, q, after);
    SweepVersusSplice(src, n, ops, offset, ps, room, lo, hi);
  }

  lemma FirstThenSweep(src: string, n: nat, ops: seq<Operation>, offset: int, q: nat, after: nat)
    requires ops != [] && Fits(ops, offset, offset + n) && n + TotalNew(ops) <= |src| && !EmptyThenAdjacent(ops)
    requires q == ops[0].end - offset && q + after == n + TotalDelta(ops[1..])
    requires Fits(ops[1..], offset, offset + n) && n + TotalNew(ops[1..]) <= |src| && q <= n
    ensures Same(AfterFirst(src, n, ops, offset), Sweep(src, n, ops[1..], offset, q, after))
  {
    var q', after' := AfterFirstIs(src, n, ops, offset);
  }

  lemma SkippedSweepsRight(src: string, n: nat, ops: seq<Operation>, offset: int, ps: nat, room: nat, lo: int, hi: int)
    requires lo == offset + ps && hi == offset + n && Fits(ops, lo, hi) && Fits(ops, offset, hi) && ps <= n
    requires n + TotalNew(ops) <= |src| && ps + room == n + TotalDelta(ops)
    requires EmptyThenAdjacent(ops) && MayBeSkipped(ops[1..], hi)
    ensures SweepsRight(src, n, ops, offset, ps, room, lo)
  {
    var q, after := AfterFirstIs(src, n, ops, offset);
    SkippedIsPrefix(src, n, ops[1..], q, after, ops[0].end, hi);
    SweepVersusSplice(src, n, ops, offset, ps, room, lo, hi);
  }

  lemma InPacket(ops: seq<Operation>, lo: int, hi: int, ps: nat, n: nat)
    requires Fits(ops, lo, hi) && hi - lo == n - ps
    ensures ps <= n
  {
    RoomLeft(ops, lo, hi);
  }

  lemma SweepOfNothing(src: string, n: nat, offset: int, ps: nat, room: nat)
    requires n <= |src| && ps + room == n
    ensures Same(Sweep(src, n, [], offset, ps, room), Splice(src[ps..n], [], offset + ps))
  {
    SweepCopies(src, n, [], offset, ps, room, n);
    EmptyIsNeutral(src[ps..n]);
  }

  lemma AfterFirstIs(src: string, n: nat, ops: seq<Operation>, offset: int) returns (q: nat, after: nat)
    requires ops != [] && Fits(ops, offset, offset + n) && n + TotalNew(ops) <= |src|
    ensures q == ops[0].end - offset <= n && q + after == n + TotalDelta(ops[1..]) <= |src|
    ensures Fits(ops[1..], offset, offset + n) && Fits(ops[1..], ops[0].end, offset + n) && n + TotalNew(ops[1..]) <= |src|
    ensures Same(AfterFirst(src, n, ops, offset),
                 if EmptyThenAdjacent(ops) then src[q..q + after] else Sweep(src, n, ops[1..], offset, q, after))
  {
    TailFits(ops, offset, offset + n);
    RoomLeft(ops, offset, offset + n);
    q, after := ops[0].end - offset, n + TotalDelta(ops[1..]) - (ops[0].end - offset);
  }

  // ----- and when it is not

  /** A buffer whose byte at the first operation is not the byte that the splice puts there. */
  lemma AwayFrom(cap: nat, n: nat, ops: seq<Operation>, offset: int, ps: nat, lo: int, st: nat)
    returns (src: string, r: string)
    requires lo == offset + ps && ps <= n <= cap && ops != [] && Fits(ops, lo, offset + n) && !NothingLeft(ops, offset + n)
    requires (ops[0].start < ops[0].end || ops[0].newdata != "") && ps <= st == ops[0].start - offset < cap
    ensures |src| == cap && Same(r, Splice(src[ps..n], ops, lo)) && st - ps < |r| && r[st - ps] != src[st]
  {
    var q := ops[0].end - offset;
    var fill := Blank(cap);
    var first, y := FirstWritten(fill, n, ops, offset, ps, lo, st, q);
    src := fill[st := if first == 'a' then 'b' else 'a'];
    var first';
    first', r := FirstWritten(src, n, ops, offset, ps, lo, st, q);
    if ops[0].newdata == "" {
      SameBehind(fill, src, st, src[st], q, n);
    }
  }

  function Blank(k: nat): (r: string)
    ensures |r| == k
  {
    seq(k, _ => ' ')
  }

  /** The byte that the splice puts at the start of the first operation. */
  lemma FirstWritten(src: string, n: nat, ops: seq<Operation>, offset: int, ps: nat, lo: int, st: nat, q: nat)
    returns (first: char, y: string)
    requires lo == offset + ps && ps <= n <= |src| && ops != [] && Fits(ops, lo, offset + n) && !NothingLeft(ops, offset + n)
    requires st == ops[0].start - offset && q == ops[0].end - offset
    ensures ps <= st <= q <= n && Fits(ops[1..], ops[0].end, offset + n) && Same(y, Splice(src[ps..n], ops, lo))
    ensures st - ps < |y| && y[st - ps] == first
    ensures var rest := Splice(src[q..n], ops[1..], ops[0].end);
      (ops[0].newdata != "" || rest != "") && first == FirstOf(ops[0].newdata, rest)
  {
    RoomLeft(ops[1..], ops[0].end, offset + n);
    var head, y0, b := SpliceBetween(src, n, ops, offset, ps);
    y := y0;
    first := FirstOf(ops[0].newdata, b);
    assert head[st - ps..] == ops[0].newdata;
  }

  function FirstOf(newdata: string, rest: string): char
    requires newdata != "" || rest != ""
  {
    if newdata != "" then newdata[0] else rest[0]
  }

  lemma SameBehind(a: string, b: string, st: nat, c: char, q: nat, n: nat)
    requires st < q <= n <= |a| && b == a[st := c]
    ensures Same(b[q..n], a[q..n])
  {
    assert b[q..n] == a[q..n];
  }

  lemma NoChange(s: string, ops: seq<Operation>, lo: int)
    requires ops != [] && Fits(ops, lo, lo + |s|) && ops[0].start == ops[0].end && ops[0].newdata == ""
    ensures Fits(ops[1..], lo, lo + |s|) && Same(Splice(s, ops, lo), Splice(s, ops[1..], lo))
  {
    FitsWider(ops[1..], ops[0].end, lo + |s|, lo, lo + |s|);
    RoomLeft(ops[1..], ops[0].end, lo + |s|);
    var r, st := Splice(s, ops[1..], lo), ops[0].start - lo;
    assert ReplaceOne(r, st, st, "") == r;
  }

  /** Where the operations do change something, some contents of the buffer show the difference. */
  lemma {:induction false} SkippedDiffers(cap: nat, n: nat, ops: seq<Operation>, offset: int, ps: nat, room: nat,
                                          lo: int, hi: int)
    returns (src: string)
    requires lo == offset + ps && hi == offset + n && ps <= n && Fits(ops, lo, hi) && !MayBeSkipped(ops, hi)
    requires n + TotalNew(ops) <= cap && ps + room == n + TotalDelta(ops) <= cap
    ensures |src| == cap && src[ps..ps + room] != Splice(src[ps..n], ops, lo)
    decreases |ops|
  {
    var st, q := ops[0].start - offset, ops[0].end - offset;
    RoomLeft(ops, ops[0].start, hi);
    if st == q && ops[0].newdata == "" {
      FitsWider(ops[1..], ops[0].end, hi, lo, hi);
      src := SkippedDiffers(cap, n, ops[1..], offset, ps, room, lo, hi);
      StillDiffers(src[ps..ps + room], src[ps..n], ops, lo);
    } else {
      src := FirstDiffers(cap, n, ops, offset, ps, room, lo, hi, st);
    }
  }

  lemma StillDiffers(a: string, s: string, ops: seq<Operation>, lo: int)
    requires ops != [] && Fits(ops, lo, lo + |s|) && ops[0].start == ops[0].end && ops[0].newdata == ""
    requires Fits(ops[1..], lo, lo + |s|) && a != Splice(s, ops[1..], lo)
    ensures a != Splice(s, ops, lo)
  {
    NoChange(s, ops, lo);
  }

  lemma FirstDiffers(cap: nat, n: nat, ops: seq<Operation>, offset: int, ps: nat, room: nat, lo: int, hi: int, st: nat)
    returns (src: string)
    requires lo == offset + ps && hi == offset + n && ps <= n && Fits(ops, lo, hi) && ops != [] && !NothingLeft(ops, hi)
    requires (ops[0].start < ops[0].end || ops[0].newdata != "") && ps <= st == ops[0].start - offset < ps + room <= cap && n <= cap
    ensures |src| == cap && src[ps..ps + room] != Splice(src[ps..n], ops, lo)
  {
    var r;
    src, r := AwayFrom(cap, n, ops, offset, ps, lo, st);
    DiffersThere(src[ps..ps + room], r, st - ps, src, st);
  }

  lemma DiffersThere(a: string, b: string, i: nat, src: string, st: nat)
    requires i < |a| && st < |src| && a[i] == src[st] && (i < |b| ==> b[i] != src[st])
    ensures a != b
  {
  }

  lemma {:induction false} NotSweepableDiffers(cap: nat, n: nat, ops: seq<Operation>, offset: int, ps: nat, room: nat,
                                               lo: int, hi: int)
    returns (src: string)
    requires lo == offset + ps && hi == offset + n && ps <= n && Fits(ops, lo, hi) && Fits(ops, offset, hi)
    requires n + TotalNew(ops) <= cap && ps + room == n + TotalDelta(ops)
    requires !Sweepable(ops, hi)
    ensures |src| == cap && Sweep(src, n, ops, offset, ps, room) != Splice(src[ps..n], ops, lo)
    decreases |ops|
  {
    TailFits(ops, offset, hi);
    var q: nat := ops[0].end - offset;
    var after := n + TotalDelta(ops[1..]) - q;
    if EmptyThenAdjacent(ops) {
      src := SkippedDiffers(cap, n, ops[1..], offset, q, after, ops[0].end, hi);
    } else {
      src := NotSweepableDiffers(cap, n, ops[1..], offset, q, after, ops[0].end, hi);
    }
    SweepVersusSplice(src, n, ops, offset, ps, room, lo, hi);
  }

  /** No empty replacement touches the next operation. */
  predicate Separated(ops: seq<Operation>) {
    forall i :: 0 <= i < |ops| - 1 ==> ops[i].newdata != "" || ops[i + 1].start != ops[i].end
  }

  /** The everyday case: separated operations are sweepable in every packet. */
  lemma {:induction false} SeparatedIsSweepable(ops: seq<Operation>, hi: int)
    requires Separated(ops)
    ensures Sweepable(ops, hi)
  {
    if ops != [] {
      assert |ops| >= 2 ==> ops[0].newdata != "" || ops[0 + 1].start != ops[0].end;
      forall i | 0 <= i < |ops[1..]| - 1
        ensures ops[1..][i].newdata != "" || ops[1..][i + 1].start != ops[1..][i].end
      {
        assert ops[1..][i] == ops[i + 1] && ops[1..][i + 1] == ops[i + 1 + 1];
      }
      SeparatedIsSweepable(ops[1..], hi);
    }
  }
}
