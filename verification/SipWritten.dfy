/**
  What Flow::modify writes for a SIP message, also when an address of the session description
  serves two m= lines, so that the recorded operations overlap.
 */
module SipWritten {
  import opened Words
  import opened Operations
  import opened Splicing
  import opened ByteLoop
  import opened Numerals
  import opened SipRepair

  // ----- sorting what is recorded

  lemma {:induction false} InsertCommutes(a: Operation, b: Operation, ops: seq<Operation>)
    requires a.start != b.start
    ensures Insert(a, Insert(b, ops)) == Insert(b, Insert(a, ops))
  {
    if ops != [] {
      var rest := ops[1..];
      InsertCommutes(a, b, rest);
      InsertSteps(a, ops);
      InsertSteps(b, ops);
      InsertSteps(a, Insert(b, ops));
      InsertSteps(b, Insert(a, ops));
      assert ([ops[0]] + Insert(a, rest))[1..] == Insert(a, rest) && ([ops[0]] + Insert(b, rest))[1..] == Insert(b, rest);
      assert ([a] + ops)[1..] == ops && ([b] + ops)[1..] == ops;
    }
  }

  lemma InsertSteps(a: Operation, ops: seq<Operation>)
    requires ops != []
    ensures Insert(a, ops) == if a.start <= ops[0].start then [a] + ops else [ops[0]] + Insert(a, ops[1..])
  {
  }

  predicate StartsElsewhere(op: Operation, ops: seq<Operation>) {
    forall i :: 0 <= i < |ops| ==> ops[i].start != op.start
  }

  /** An operation recorded last at a place of its own is sorted as if it were inserted. */
  lemma {:induction false} LastIsInserted(ops: seq<Operation>, op: Operation)
    requires StartsElsewhere(op, ops)
    ensures Sort(ops + [op]) == Insert(op, Sort(ops))
    decreases |ops|
  {
    if ops == [] {
      assert [op][1..] == [] && [] + [op] == [op];
    } else {
      var rest := ops[1..];
      assert (ops + [op])[0] == ops[0] && (ops + [op])[1..] == rest + [op];
      assert forall i :: 0 <= i < |rest| ==> rest[i] == ops[i + 1];
      LastIsInserted(rest, op);
      InsertCommutes(ops[0], op, Sort(rest));
    }
  }

  predicate AllStartBefore(ops: seq<Operation>, at: int) {
    forall i :: 0 <= i < |ops| ==> ops[i].start < at
  }

  predicate AllStartFrom(ops: seq<Operation>, at: int) {
    forall i :: 0 <= i < |ops| ==> at <= ops[i].start
  }

  /** A sorted part in front of all others stays where it is. */
  lemma {:induction false} SortedFrontStays(a: seq<Operation>, b: seq<Operation>, at: int)
    requires SortedByStart(a) && AllStartBefore(a, at) && AllStartFrom(b, at)
    ensures Sort(a + b) == a + Sort(b)
    decreases |a|
  {
    if a == [] {
      assert a + b == b && [] + Sort(b) == Sort(b);
    } else {
      assert (a + b)[0] == a[0] && (a + b)[1..] == a[1..] + b;
      assert forall i :: 0 <= i < |a[1..]| ==> a[1..][i] == a[i + 1];
      SortedFrontStays(a[1..], b, at);
      FrontStays(a[0], a[1..] + Sort(b), a[1..], b, at);
      assert [a[0]] + (a[1..] + Sort(b)) == a + Sort(b);
    }
  }

  lemma FrontStays(op: Operation, ops: seq<Operation>, a: seq<Operation>, b: seq<Operation>, at: int)
    requires ops == a + Sort(b) && op.start < at && AllStartFrom(b, at)
    requires forall i :: 0 <= i < |a| ==> op.start <= a[i].start
    ensures Insert(op, ops) == [op] + ops
  {
    if ops != [] && a == [] {
      SortSorts(b);
      assert Sort(b)[0] in multiset(Sort(b));
      assert Sort(b)[0] in b;
    }
  }

  lemma {:induction false} InsertBetween(op: Operation, a: seq<Operation>, b: seq<Operation>)
    requires AllStartBefore(a, op.start) && (b == [] || op.start <= b[0].start)
    ensures Insert(op, a + b) == a + ([op] + b)
    decreases |a|
  {
    if a == [] {
      assert a + b == b && a + ([op] + b) == [op] + b;
    } else {
      assert (a + b)[0] == a[0] && (a + b)[1..] == a[1..] + b;
      InsertBetween(op, a[1..], b);
      assert [a[0]] + (a[1..] + ([op] + b)) == a + ([op] + b);
    }
  }

  // ----- the length, whatever the description

  /** The edits of the description start in the body. */
  lemma {:induction false} BodyStarts(lines: seq<Line>, cIp: Token, floor: int, lo: int, hi: int)
    requires BodyFrom(lines, lo, hi) && Remembers(cIp, floor, lo)
    ensures AllStartFrom(LinesOps(lines, cIp), floor)
    decreases |lines|
  {
    if lines != [] {
      BodyStarts(lines[1..], if lines[0].Connection? then lines[0].ip else cIp, floor, EndOf(lines[0], lo), hi);
    }
  }

  lemma HeaderStarts(ops: seq<Operation>, lo: int, hi: int)
    requires Fits(ops, lo, hi) && NoneEmptyRange(ops)
    ensures SortedByStart(ops) && AllStartBefore(ops, hi) && AllStartFrom(ops, lo)
  {
    FitsMeansOrderedDisjointInRange(ops, lo, hi);
  }

  /** However the edits of the body lie, those of the header are sorted in front of them, with the length edit in its place. */
  lemma SortedMessage(h1: seq<Operation>, edit: Operation, h2: seq<Operation>, b: seq<Operation>, lo: int, mid: int)
    requires Fits(h1, lo, edit.start) && edit.start < edit.end && Fits(h2, edit.end, mid) && edit.end <= mid
    requires NoneEmptyRange(h1) && NoneEmptyRange(h2) && AllStartFrom(b, mid)
    ensures Same(Sort((h1 + (h2 + b)) + [edit]), h1 + (([edit] + h2) + Sort(b)))
  {
    Associates([edit], h2, Sort(b));
    HeaderStarts(h1, lo, edit.start);
    HeaderStarts(h2, edit.end, mid);
    assert AllStartFrom(h2 + b, edit.end);
    SortedFrontStays(h2, b, mid);
    SortedFrontStays(h1, h2 + b, edit.start);
    assert StartsElsewhere(edit, h1 + (h2 + b));
    LastIsInserted(h1 + (h2 + b), edit);
    FirstStartsFrom(h2, b, edit.end, mid);
    InsertBetween(edit, h1, h2 + Sort(b));
  }

  lemma FirstStartsFrom(h2: seq<Operation>, b: seq<Operation>, q: int, mid: int)
    requires AllStartFrom(h2, q) && AllStartFrom(b, mid) && q <= mid
    ensures h2 + Sort(b) == [] || q <= (h2 + Sort(b))[0].start
  {
    SortSorts(b);
    if h2 == [] && Sort(b) != [] {
      assert Sort(b)[0] in multiset(Sort(b));
      assert Sort(b)[0] in b;
    }
  }

  lemma SplitAt(text: string, a: string, b: string, opsA: seq<Operation>, opsB: seq<Operation>, ops: seq<Operation>,
                rest: string)
    requires Fits(opsA, 0, |a|) && Fits(opsB, |a|, |a| + |b|) && Same(Splice(b, opsB, |a|), rest)
    requires Same(text, a + b) && Same(ops, opsA + opsB)
    ensures Fits(ops, 0, |text|) && |text| == |a| + |b| && Same(Splice(text, ops, 0), Splice(a, opsA, 0) + rest)
  {
    SpliceSplits(a, b, opsA, opsB, 0);
  }

  lemma TailPiece(text: string, v: string, c: string, ops: seq<Operation>, edit: Operation, h2: seq<Operation>,
                  lo: int, q: int)
    requires edit.start == lo && q == edit.end == lo + |v| && Fits(h2, q, q + |c|)
    requires Same(text, v + c) && Same(ops, [edit] + h2)
    requires edit.newdata != "" && AllHaveData(h2)
    ensures |text| == |v| + |c| && Fits(ops, lo, lo + |text|) && AllHaveData(ops)
    ensures Same(Splice(text, ops, lo), edit.newdata + Splice(c, h2, q))
  {
    ReplacedPiece(v, c, edit, h2, lo, q);
  }

  /** Header edits h1 and tail with data, and any operations b that start in the body: the header comes out as it should. */
  lemma WrittenHeader(src: string, text: string, a: string, vc: string, n: nat, h1: seq<Operation>, tail: seq<Operation>,
                      b: seq<Operation>, mid: nat, rest: nat, tailText: string)
    requires mid == |a| + |vc| <= |src| && Same(src[..mid], text) && Same(text, a + vc)
    requires Fits(h1, 0, |a|) && Fits(tail, |a|, |a| + |vc|) && AllHaveData(h1) && AllHaveData(tail)
    requires Same(Splice(vc, tail, |a|), tailText)
    requires AllStartFrom(b, mid) && mid <= n && rest == n - mid + TotalDelta(b)
    requires InBounds(|src|, Spot(mid, false, b), 0, rest)
    ensures Runs(|src|, n, h1 + (tail + b), 0)
    ensures Same(Written(src, n, h1 + (tail + b), 0),
                 (Splice(a, h1, 0) + tailText) + Output(src, Spot(mid, false, b), 0, rest))
  {
    SplitAt(text, a, vc, h1, tail, h1 + tail, tailText);
    Associates(h1, tail, b);
    WrittenFront(src, text, n, h1 + tail, b, mid, rest);
  }

  lemma WrittenFront(src: string, text: string, n: nat, front: seq<Operation>, b: seq<Operation>, mid: nat, rest: nat)
    requires mid == |text| <= |src| && Same(src[..mid], text) && Fits(front, 0, mid) && AllHaveData(front)
    requires AllStartFrom(b, mid) && mid <= n && rest == n - mid + TotalDelta(b)
    requires InBounds(|src|, Spot(mid, false, b), 0, rest)
    ensures Runs(|src|, n, front + b, 0)
    ensures Same(Written(src, n, front + b, 0), Splice(text, front, 0) + Output(src, Spot(mid, false, b), 0, rest))
  {
    RoomLeft(front, 0, mid);
    TotalDeltaAppend(front, b);
    var room, head := mid + TotalDelta(front) + rest, src[0..mid];
    StartsAtZero(src, mid);
    FirstPart(src, front, b, 0, 0, mid, room, rest);
    WrittenAsOutput(src, n, front + b, room);
    SpliceOfSame(head, text, front);
  }

  lemma WrittenAsOutput(src: string, n: nat, ops: seq<Operation>, room: nat)
    requires n + TotalDelta(ops) == room && InBounds(|src|, Begin(ops), 0, room)
    ensures Runs(|src|, n, ops, 0) && Same(Written(src, n, ops, 0), Output(src, Begin(ops), 0, room))
  {
  }

  lemma SpliceOfSame(s: string, t: string, ops: seq<Operation>)
    requires Fits(ops, 0, |s|) && Same(s, t)
    ensures Same(Splice(s, ops, 0), Splice(t, ops, 0))
  {
  }

  lemma StartsAtZero(src: string, mid: nat)
    requires mid <= |src|
    ensures Same(src[0..mid], src[..mid])
  {
  }

  /** The same for the operations in the order in which they are sorted. */
  lemma WrittenPieces(src: string, text: string, a: string, v: string, c: string, vc: string, n: nat, h1: seq<Operation>,
                      edit: Operation, h2: seq<Operation>, tail: seq<Operation>, b: seq<Operation>, ops: seq<Operation>,
                      q: nat, mid: nat, rest: nat)
    requires edit.start == |a| && q == edit.end == |a| + |v| && mid == q + |c| <= |src|
    requires Same(src[..mid], text) && Same(text, a + vc) && Same(vc, v + c)
    requires Same(tail, [edit] + h2) && Same(ops, h1 + (tail + b))
    requires Fits(h1, 0, |a|) && Fits(h2, q, mid) && AllHaveData(h1) && AllHaveData(h2) && edit.newdata != ""
    requires AllStartFrom(b, mid) && mid <= n && rest == n - mid + TotalDelta(b)
    requires InBounds(|src|, Spot(mid, false, b), 0, rest)
    ensures Runs(|src|, n, ops, 0)
    ensures Same(Written(src, n, ops, 0),
                 (Splice(a, h1, 0) + (edit.newdata + Splice(c, h2, q))) + Output(src, Spot(mid, false, b), 0, rest))
  {
    TailPiece(vc, v, c, tail, edit, h2, |a|, q);
    WrittenHeader(src, text, a, vc, n, h1, tail, b, mid, rest, edit.newdata + Splice(c, h2, q));
  }

  /** The texts of mapped addresses and ports are not empty. */
  predicate MappedTexts(lines: seq<Line>) {
    forall i :: 0 <= i < |lines| && lines[i].Address? ==> lines[i].to.ip != "" && lines[i].to.port != ""
  }

  lemma {:induction false} HeaderHasData(lines: seq<Line>, lo: int, hi: int)
    requires HeadersFrom(lines, lo, hi) && MappedTexts(lines)
    ensures AllHaveData(LinesOps(lines, NoToken))
    decreases |lines|
  {
    if lines != [] {
      assert forall i :: 0 <= i < |lines[1..]| ==> lines[1..][i] == lines[i + 1];
      HeaderHasData(lines[1..], EndOf(lines[0], lo), hi);
    }
  }

  /** The sorted operations of a message, and those of its parts. */
  datatype Edits = Edits(before: seq<Operation>, after: seq<Operation>, body: seq<Operation>, all: seq<Operation>)

  function EditsOf(before: seq<Line>, length: Line, after: seq<Line>, sdp: seq<Line>): Edits {
    Edits(LinesOps(before, NoToken), LinesOps(after, NoToken), Sort(LinesOps(sdp, NoToken)),
          Sort(Recorded(before, length, after, sdp)))
  }

  /**
    The loop writes the header a, v, c rewritten, with the value in the place of v, and behind it rest
    bytes. The value reads as their number exactly if v read as the length of the body, n - mid.
   */
  ghost predicate LengthFollows(src: string, a: string, v: string, c: string, e: Edits, q: nat, mid: nat, n: nat,
                                value: string, rest: nat) {
    && Runs(|src|, n, e.all, 0) && Fits(e.before, 0, |a|) && Fits(e.after, q, q + |c|)
    && InBounds(|src|, Spot(mid, false, e.body), 0, rest)
    && Same(Written(src, n, e.all, 0),
            (Splice(a, e.before, 0) + (value + Splice(c, e.after, q))) + Output(src, Spot(mid, false, e.body), 0, rest))
    && (ScanInt(value) == rest <==> ScanInt(v) == n - mid)
  }

  /**
    Length repair in what modify writes, for any session description. src is the packet's buffer, head
    the header; growth counts all edits of the body.
   */
  lemma WrittenLengthExactly(src: string, head: string, a: string, v: string, c: string, before: seq<Line>,
                             length: Line, after: seq<Line>, sdp: seq<Line>, e: Edits, q: nat, mid: nat, n: nat,
                             value: string, growth: int, rest: nat)
    requires v != "" && q == |a| + |v| && mid == q + |c| <= n <= |src| && Same(src[..mid], head) && Same(head, a + (v + c))
    requires IsLength(length) && length.value == Token(v, |a|, q) && NoLength(after)
    requires HeadersFrom(before, 0, |a|) && HeadersFrom(after, q, mid) && BodyFrom(sdp, mid, n)
    requires MappedTexts(before) && MappedTexts(after) && e == EditsOf(before, length, after, sdp)
    requires growth == TotalDelta(e.body) && value == PrintInt(ScanInt(v) + growth) && rest == n - mid + growth
    requires InBounds(|src|, Spot(mid, false, e.body), 0, rest)
    ensures LengthFollows(src, a, v, c, e, q, mid, n, value, rest)
  {
    MessageEdits(before, length, after, sdp, e, |a|, q, mid, n);
    PrintIntIsText(ScanInt(v) + growth);
    RepairedValue(ScanInt(v), growth, value, n - mid, rest);
    WrittenWithLength(src, head, a, v, c, e, LengthEdit(length.value, growth), q, mid, n, value, rest);
  }

  lemma MessageEdits(before: seq<Line>, length: Line, after: seq<Line>, sdp: seq<Line>, e: Edits,
                     p: nat, q: nat, mid: nat, n: nat)
    requires IsLength(length) && length.value.pos == p < q == length.value.posEnd <= mid && length.value.s != "" && NoLength(after)
    requires HeadersFrom(before, 0, p) && HeadersFrom(after, q, mid) && BodyFrom(sdp, mid, n)
    requires MappedTexts(before) && MappedTexts(after) && e == EditsOf(before, length, after, sdp)
    ensures WellSorted(e, LengthEdit(length.value, TotalDelta(e.body)), p, q, mid)
  {
    RecordedIsSorted(before, length, after, sdp, 0, mid, n);
    HeaderHasData(before, 0, p);
    HeaderHasData(after, q, mid);
    SortKeepsDelta(LinesOps(sdp, NoToken));
  }

  /** The edits of the header fit and have data, those of the body start behind it. */
  ghost predicate WellSorted(e: Edits, edit: Operation, p: int, q: int, mid: int) {
    && Fits(e.before, 0, p) && Fits(e.after, q, mid) && AllHaveData(e.before) && AllHaveData(e.after)
    && AllStartFrom(e.body, mid)
    && Same(e.all, e.before + (([edit] + e.after) + e.body))
  }

  lemma WrittenWithLength(src: string, head: string, a: string, v: string, c: string, e: Edits, edit: Operation,
                          q: nat, mid: nat, n: nat, value: string, rest: nat)
    requires q == |a| + |v| && mid == q + |c| <= n <= |src| && Same(src[..mid], head) && Same(head, a + (v + c))
    requires edit == Operation(|a|, q, value, false) && value != "" && WellSorted(e, edit, |a|, q, mid)
    requires rest == n - mid + TotalDelta(e.body) && InBounds(|src|, Spot(mid, false, e.body), 0, rest)
    requires ScanInt(value) == rest <==> ScanInt(v) == n - mid
    ensures LengthFollows(src, a, v, c, e, q, mid, n, value, rest)
  {
    WrittenSorted(src, head, a, v, c, e, edit, q, mid, n, rest);
  }

  /** The same for edits that are sorted well, whatever stands for the value. */
  lemma WrittenSorted(src: string, head: string, a: string, v: string, c: string, e: Edits, edit: Operation,
                      q: nat, mid: nat, n: nat, rest: nat)
    requires edit.start == |a| && q == edit.end == |a| + |v| && mid == q + |c| <= n <= |src| && edit.newdata != ""
    requires Same(src[..mid], head) && Same(head, a + (v + c)) && WellSorted(e, edit, |a|, q, mid)
    requires rest == n - mid + TotalDelta(e.body) && InBounds(|src|, Spot(mid, false, e.body), 0, rest)
    ensures Runs(|src|, n, e.all, 0)
    ensures Same(Written(src, n, e.all, 0),
                 (Splice(a, e.before, 0) + (edit.newdata + Splice(c, e.after, q))) + Output(src, Spot(mid, false, e.body), 0, rest))
  {
    WrittenPieces(src, head, a, v, c, v + c, n, e.before, edit, e.after, [edit] + e.after, e.body, e.all, q, mid, rest);
  }

  /** What is recorded for the message, sorted. */
  lemma RecordedIsSorted(before: seq<Line>, length: Line, after: seq<Line>, sdp: seq<Line>, lo: int, mid: int, hi: int)
    requires IsLength(length) && length.value.s != "" && length.value.pos < length.value.posEnd <= mid && NoLength(after)
    requires HeadersFrom(before, lo, length.value.pos) && HeadersFrom(after, length.value.posEnd, mid) && BodyFrom(sdp, mid, hi)
    ensures var h1, h2, b := LinesOps(before, NoToken), LinesOps(after, NoToken), LinesOps(sdp, NoToken);
      && Fits(h1, lo, length.value.pos) && Fits(h2, length.value.posEnd, mid) && AllStartFrom(Sort(b), mid)
      && Same(Sort(Recorded(before, length, after, sdp)),
              h1 + (([LengthEdit(length.value, TotalDelta(b))] + h2) + Sort(b)))
  {
    var h1, h2, b := LinesOps(before, NoToken), LinesOps(after, NoToken), LinesOps(sdp, NoToken);
    RecordedInOrder(before, length, after, sdp, lo, mid, hi);
    HeaderEdits(before, lo, length.value.pos, NoToken);
    HeaderEdits(after, length.value.posEnd, mid, NoToken);
    BodyStarts(sdp, NoToken, mid, mid, hi);
    SortedMessage(h1, LengthEdit(length.value, TotalDelta(b)), h2, b, lo, mid);
    SortedStarts(b, mid);
  }

  lemma PrintIntIsText(k: int)
    ensures PrintInt(k) != ""
  {
    ValueOfPrint(if k < 0 then -k else k, 10);
  }

  lemma SortedStarts(b: seq<Operation>, at: int)
    requires AllStartFrom(b, at)
    ensures AllStartFrom(Sort(b), at)
  {
    SortSorts(b);
    forall i | 0 <= i < |Sort(b)| ensures at <= Sort(b)[i].start {
      assert Sort(b)[i] in multiset(Sort(b));
      assert Sort(b)[i] in b;
    }
  }

  lemma {:induction false} InsertDelta(op: Operation, ops: seq<Operation>)
    ensures TotalDelta(Insert(op, ops)) == op.Delta() + TotalDelta(ops)
  {
    if ops == [] || op.start <= ops[0].start {
      assert ([op] + ops)[1..] == ops;
    } else {
      InsertDelta(op, ops[1..]);
      assert ([ops[0]] + Insert(op, ops[1..]))[1..] == Insert(op, ops[1..]);
    }
  }

  lemma {:induction false} SortKeepsDelta(ops: seq<Operation>)
    ensures TotalDelta(Sort(ops)) == TotalDelta(ops)
  {
    if ops != [] {
      SortKeepsDelta(ops[1..]);
      InsertDelta(ops[0], Sort(ops[1..]));
    }
  }

  // ----- an audio and a video line

  /**
    The ordinary description with one c= line and two m= lines: the second edit of the address is
    recorded at the place of the first. The family and the address are rewritten; both ports are left
    as they are, and behind the address the packet is copied up to a length that counts all five edits.
   */
  lemma TwoMediaLinesLoseThePorts(src: string, n: nat, family: Token, ip: Token, p1: Token, p2: Token, to1: Mapped, to2: Mapped,
                                  room: nat)
    requires n <= |src| && Within(family, 0, n) && Within(ip, family.posEnd, n) && Within(p1, ip.posEnd, n) && Within(p2, p1.posEnd, n)
    requires to1.ip != ""
    requires var lines := [Connection(family, ip), Media(p1, to1), Media(p2, to2)];
      n + TotalDelta(Sort(LinesOps(lines, NoToken)))
        == ip.posEnd + (3 - |family.s|) + (|to1.ip| - |ip.s|) + room && ip.posEnd + room <= |src|
    ensures var lines := [Connection(family, ip), Media(p1, to1), Media(p2, to2)];
      var ops, done := Sort(LinesOps(lines, NoToken)), [Replace(family, "IP4", true), Replace(ip, to1.ip, true)];
      && BodyFrom(lines, 0, n) && !Fits(ops, 0, n)
      && Runs(|src|, n, ops, 0) && Fits(done, 0, ip.posEnd)
      && Same(Written(src, n, ops, 0), Splice(src[..ip.posEnd], done, 0) + src[ip.posEnd..ip.posEnd + room])
  {
    var lines := [Connection(family, ip), Media(p1, to1), Media(p2, to2)];
    TwoMediaLayout(lines, family, ip, p1, p2, to1, to2, n);
    BodyEditsFitExactly(lines, 0, n);
    TwoMediaSorted(family, ip, p1, p2, to1, to2, LinesOps(lines, NoToken), n);
    var done := [Replace(family, "IP4", true), Replace(ip, to1.ip, true)];
    var lost := [Replace(ip, to2.ip, true), Replace(p1, to1.port, true), Replace(p2, to2.port, true)];
    TwoDone(done, family, ip, to1, n);
    OverlapIsLost(src, n, done, lost, 0, ip.posEnd, room);
  }

  lemma TwoMediaLayout(lines: seq<Line>, family: Token, ip: Token, p1: Token, p2: Token, to1: Mapped, to2: Mapped, n: nat)
    requires lines == [Connection(family, ip), Media(p1, to1), Media(p2, to2)]
    requires Within(family, 0, n) && Within(ip, family.posEnd, n) && Within(p1, ip.posEnd, n) && Within(p2, p1.posEnd, n)
    ensures BodyFrom(lines, 0, n) && !OneMediaEach(lines, NoToken, false)
    ensures LinesOps(lines, NoToken) == [Replace(family, "IP4", true), Replace(ip, to1.ip, true), Replace(p1, to1.port, true),
                                         Replace(ip, to2.ip, true), Replace(p2, to2.port, true)]
  {
    var two, one := [Media(p1, to1), Media(p2, to2)], [Media(p2, to2)];
    assert lines[1..] == two && two[1..] == one && one[1..] == [];
    assert BodyFrom(one, p1.posEnd, n) && BodyFrom(two, ip.posEnd, n);
    assert !OneMediaEach(one, ip, true) && !OneMediaEach(two, ip, false);
    assert LinesOps(one, ip) == [Replace(ip, to2.ip, true), Replace(p2, to2.port, true)];
  }

  lemma TwoMediaSorted(family: Token, ip: Token, p1: Token, p2: Token, to1: Mapped, to2: Mapped, ops: seq<Operation>, n: nat)
    requires Within(family, 0, n) && Within(ip, family.posEnd, n) && Within(p1, ip.posEnd, n) && Within(p2, p1.posEnd, n)
    requires ops == [Replace(family, "IP4", true), Replace(ip, to1.ip, true), Replace(p1, to1.port, true),
                     Replace(ip, to2.ip, true), Replace(p2, to2.port, true)]
    ensures Sort(ops) == [Replace(family, "IP4", true), Replace(ip, to1.ip, true)]
                       + [Replace(ip, to2.ip, true), Replace(p1, to1.port, true), Replace(p2, to2.port, true)]
  {
    var o3, o4, o5 := Replace(p1, to1.port, true), Replace(ip, to2.ip, true), Replace(p2, to2.port, true);
    SortOfSorted([o4, o5]);
    assert ops[2..][1..] == [o4, o5] && ops[1..][1..] == ops[2..];
    assert [o4, o5][1..] == [o5];
    assert ops[2..][0] == o3 && Sort(ops[2..]) == Insert(o3, [o4, o5]);
    assert Insert(o3, [o5]) == [o3, o5];
    assert Sort(ops[2..]) == [o4, o3, o5];
    assert Sort(ops[1..]) == [ops[1], o4, o3, o5];
    assert Sort(ops) == [ops[0], ops[1], o4, o3, o5];
  }

  lemma TwoDone(done: seq<Operation>, family: Token, ip: Token, to: Mapped, n: nat)
    requires done == [Replace(family, "IP4", true), Replace(ip, to.ip, true)] && to.ip != ""
    requires Within(family, 0, n) && Within(ip, family.posEnd, n)
    ensures Fits(done, 0, n) && AllHaveData(done) && TotalDelta(done) == (3 - |family.s|) + (|to.ip| - |ip.s|)
  {
    assert done[1..] == [done[1]] && done[1..][1..] == [];
    assert done[0].Delta() == 3 - |family.s| && done[1].Delta() == |to.ip| - |ip.s|;
    assert TotalDelta(done[1..]) == done[1].Delta();
  }
}
