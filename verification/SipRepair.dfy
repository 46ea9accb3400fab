/**
  SIP rewriting (sip/grammar, sip/SIPScanner.h, common/tokentype.h): addresses and ports in headers
  and in the session description are replaced, and Content-Length follows the new body.
 */
module SipRepair {
  import opened Words
  import opened Operations
  import opened Splicing
  import opened Numerals
  import opened Parsers

  // ----- tokens

  datatype Token = Token(s: string, pos: int, posEnd: int) {
    /** operator+ (const TokenType&, string) */
    function Append(text: string): Token {
      Token(s + text, pos, posEnd)
    }

    /** operator+ (const TokenType&, const TokenType&) */
    function Join(other: Token): Token {
      Token(s + other.s, pos, other.posEnd)
    }

    /** operator+ (const TokenType&, int) */
    function Plus(n: int): Token {
      Token(PrintInt(ScanInt(s) + n), pos, posEnd)
    }

    /** The token is what stands at its position. */
    predicate StandsIn(text: string) {
      0 <= pos <= posEnd <= |text| && text[pos..posEnd] == s
    }
  }

  const NoToken := Token("", 0, 0)

  /** The scanner's position: scanned is the text matched so far. */
  class Scanner {
    var cnt: int
    var val: Token
    ghost var scanned: string

    ghost predicate Valid()
      reads this
    {
      cnt == |scanned|
    }

    constructor ()
      ensures Valid() && scanned == "" && val == NoToken
    {
      cnt, val, scanned := 0, NoToken, "";
    }

    /** postCode: every match becomes the token that stands where the text scanned so far ends. */
    method PostCode(matched: string)
      requires Valid()
      modifies this
      ensures Valid() && scanned == old(scanned) + matched
      ensures val.s == matched && val.StandsIn(scanned) && val.posEnd == |scanned|
    {
      val := Token(matched, cnt, cnt + |matched|);
      cnt := cnt + |matched|;
      scanned := scanned + matched;
    }

    /** A scan: the tokens that are left one after the other. */
    method Scan(matches: seq<string>) returns (tokens: seq<Token>)
      requires Valid()
      modifies this
      ensures Valid() && scanned == old(scanned) + Concat(matches)
      ensures tokens == Tokens(matches, old(cnt))
      ensures forall i :: 0 <= i < |tokens| ==> tokens[i].StandsIn(scanned)
    {
      tokens := [];
      ghost var before, first := scanned, cnt;
      assert matches[0..] == matches;
      assert before + Concat(matches) == before + Concat(matches[0..]);
      for k := 0 to |matches|
        invariant Valid() && scanned + Concat(matches[k..]) == before + Concat(matches)
        invariant tokens + Tokens(matches[k..], cnt) == Tokens(matches, first)
      {
        assert matches[k..][0] == matches[k] && matches[k..][1..] == matches[k + 1..];
        Associates(scanned, matches[k], Concat(matches[k + 1..]));
        PostCode(matches[k]);
        assert val == Token(matches[k], cnt - |matches[k]|, cnt);
        tokens := tokens + [val];
      }
      assert matches[|matches|..] == [] && scanned + "" == scanned && tokens + [] == tokens;
      forall i | 0 <= i < |tokens| ensures tokens[i].StandsIn(scanned) {
        TokensStandInText(before, matches, i);
      }
    }
  }

  /** The tokens that successive calls of PostCode leave. */
  function Tokens(matches: seq<string>, cnt: int): (r: seq<Token>)
    ensures |r| == |matches|
  {
    if matches == [] then [] else [Token(matches[0], cnt, cnt + |matches[0]|)] + Tokens(matches[1..], cnt + |matches[0]|)
  }

  /** Positions are true: a token is found in the scanned text where it says. */
  lemma {:induction false} TokensStandInText(before: string, matches: seq<string>, i: nat)
    requires i < |matches|
    ensures Tokens(matches, |before|)[i].StandsIn(before + Concat(matches))
    decreases |matches|
  {
    var rest := Concat(matches[1..]);
    Associates(before, matches[0], rest);
    if i == 0 {
      assert ((before + matches[0]) + rest)[|before|..|before| + |matches[0]|] == matches[0];
    } else {
      TokensStandInText(before + matches[0], matches[1..], i - 1);
    }
  }

  /** Joining two tokens with a separator is true exactly when the separator is what stands between them. */
  lemma JoinStandsExactly(text: string, a: Token, sep: string, b: Token)
    requires a.StandsIn(text) && b.StandsIn(text) && a.posEnd <= b.pos
    ensures a.Append(sep).Join(b).StandsIn(text) <==> text[a.posEnd..b.pos] == sep
  {
    var between := text[a.posEnd..b.pos];
    assert text[a.pos..b.posEnd] == a.s + between + b.s;
    SameMiddle(a.s, between, sep, b.s);
  }

  lemma SameMiddle(a: string, x: string, y: string, b: string)
    ensures a + x + b == a + y + b <==> x == y
  {
    if a + x + b == a + y + b {
      assert |x| == |y|;
      assert (a + x + b)[|a|..|a| + |x|] == x && (a + y + b)[|a|..|a| + |y|] == y;
    }
  }

  // ----- the grammar's actions

  /** The mapping that StateManager::doMapping gave: the IPv4 address and the port as texts. */
  datatype Mapped = Mapped(ip: string, port: string)

  /** A reduced line: a header, a Via or Contact header, a c= line, an m= line, or any other. */
  datatype Line =
    | Header(ident: Token, value: Token)
    | Address(ip: Token, port: Token, to: Mapped)
    | Connection(family: Token, ip: Token)
    | Media(port: Token, to: Mapped)
    | Other

  predicate IsLength(line: Line) {
    line.Header? && line.ident.s == "Content-Length"
  }

  datatype SipState = SipState(ops: seq<Operation>, cIp: Token, contentLen: Token)

  function Replace(t: Token, newdata: string, cnt: bool): Operation {
    Operation(t.pos, t.posEnd, newdata, cnt)
  }

  /** What one line adds, given the address of the last c= line. */
  function LineOps(line: Line, cIp: Token): seq<Operation> {
    match line
    case Address(ip, port, to) => [Replace(ip, to.ip, false), Replace(port, to.port, false)]
    case Connection(family, _) => [Replace(family, "IP4", true)]
    case Media(port, to) => if cIp.s != "" then [Replace(cIp, to.ip, true), Replace(port, to.port, true)] else []
    case _ => []
  }

  function Reduce(st: SipState, line: Line): SipState {
    SipState(st.ops + LineOps(line, st.cIp),
             if line.Connection? then line.ip else st.cIp,
             if IsLength(line) then line.value else st.contentLen)
  }

  function ReduceAll(st: SipState, lines: seq<Line>): SipState
    decreases |lines|
  {
    if lines == [] then st else ReduceAll(Reduce(st, lines[0]), lines[1..])
  }

  function Finish(st: SipState): SipState {
    if st.contentLen.s != ""
    then st.(ops := st.ops + [Replace(st.contentLen, st.contentLen.Plus(CountedDelta(st.ops)).s, false)])
    else st
  }

  class SipGrammar {
    const parser: Parser
    var cIp: Token
    var contentLen: Token

    constructor (parser: Parser)
      ensures this.parser == parser && cIp == contentLen == NoToken
    {
      this.parser, cIp, contentLen := parser, NoToken, NoToken;
    }

    ghost function State(): SipState
      reads this, parser
    {
      SipState(parser.ops, cIp, contentLen)
    }

    method OnHeader(ident: Token, value: Token)
      modifies this`contentLen
      ensures State() == Reduce(old(State()), Header(ident, value))
    {
      if ident.s == "Content-Length" {
        contentLen := value;
      }
    }

    /** Via and Contact headers. */
    method OnAddress(ip: Token, port: Token, to: Mapped)
      modifies parser`ops
      ensures State() == Reduce(old(State()), Address(ip, port, to))
    {
      parser.AddOperation(ip.pos, ip.posEnd, to.ip, false);
      parser.AddOperation(port.pos, port.posEnd, to.port, false);
    }

    method OnConnection(family: Token, ip: Token)
      modifies this`cIp, parser`ops
      ensures State() == Reduce(old(State()), Connection(family, ip))
    {
      cIp := ip;
      parser.AddOperation(family.pos, family.posEnd, "IP4", true);
    }

    method OnMedia(port: Token, to: Mapped)
      modifies parser`ops
      ensures State() == Reduce(old(State()), Media(port, to))
    {
      if |cIp.s| > 0 {
        parser.AddOperation(cIp.pos, cIp.posEnd, to.ip, true);
        parser.AddOperation(port.pos, port.posEnd, to.port, true);
      }
    }

    method OnMessage()
      modifies parser`ops
      ensures State() == Finish(old(State()))
    {
      if |contentLen.s| > 0 {
        var delta := parser.TotalDelta();
        parser.AddOperation(contentLen.pos, contentLen.posEnd, contentLen.Plus(delta).s, false);
      }
    }
  }

  // ----- the lines in the order of the text

  /** The token is not empty (the scanner prefers the longest match) and lies between lo and hi. */
  predicate Within(t: Token, lo: int, hi: int) {
    lo <= t.pos < t.posEnd <= hi && |t.s| == t.posEnd - t.pos
  }

  /** Where the rest of the message starts behind the tokens of a line that starts at lo or later. */
  function EndOf(line: Line, lo: int): int {
    match line
    case Header(_, value) => value.posEnd
    case Address(_, port, _) => port.posEnd
    case Connection(_, ip) => ip.posEnd
    case Media(port, _) => port.posEnd
    case Other => lo
  }

  /** Header lines from position lo on, before hi. */
  predicate HeadersFrom(lines: seq<Line>, lo: int, hi: int) {
    if lines == [] then lo <= hi
    else
      && HeadersFrom(lines[1..], EndOf(lines[0], lo), hi)
      && match lines[0]
         case Header(_, value) => Within(value, lo, hi)
         case Address(ip, port, _) => Within(ip, lo, hi) && Within(port, ip.posEnd, hi)
         case _ => lines[0].Other?
  }

  /** Lines of the session description from position lo on, before hi. */
  predicate BodyFrom(lines: seq<Line>, lo: int, hi: int) {
    if lines == [] then lo <= hi
    else
      && BodyFrom(lines[1..], EndOf(lines[0], lo), hi)
      && match lines[0]
         case Connection(family, ip) => Within(family, lo, hi) && Within(ip, family.posEnd, hi)
         case Media(port, _) => Within(port, lo, hi)
         case _ => lines[0].Other?
  }

  function LinesOps(lines: seq<Line>, cIp: Token): seq<Operation> {
    if lines == [] then []
    else LineOps(lines[0], cIp) + LinesOps(lines[1..], if lines[0].Connection? then lines[0].ip else cIp)
  }

  function LastLength(lines: seq<Line>, last: Token): Token {
    if lines == [] then last
    else LastLength(lines[1..], if IsLength(lines[0]) then lines[0].value else last)
  }

  function LastAddress(lines: seq<Line>, last: Token): Token {
    if lines == [] then last else LastAddress(lines[1..], if lines[0].Connection? then lines[0].ip else last)
  }

  /** A run of the actions: what is recorded and remembered at its end. */
  lemma {:induction false} RunRecords(st: SipState, lines: seq<Line>)
    ensures ReduceAll(st, lines) ==
      SipState(st.ops + LinesOps(lines, st.cIp), LastAddress(lines, st.cIp), LastLength(lines, st.contentLen))
    decreases |lines|
  {
    if lines == [] {
      assert st.ops + [] == st.ops;
    } else {
      RunRecords(Reduce(st, lines[0]), lines[1..]);
      var next := if lines[0].Connection? then lines[0].ip else st.cIp;
      assert (st.ops + LineOps(lines[0], st.cIp)) + LinesOps(lines[1..], next)
        == st.ops + (LineOps(lines[0], st.cIp) + LinesOps(lines[1..], next));
    }
  }

  lemma {:induction false} LinesOpsAppend(a: seq<Line>, b: seq<Line>, cIp: Token)
    ensures LinesOps(a + b, cIp) == LinesOps(a, cIp) + LinesOps(b, LastAddress(a, cIp))
    decreases |a|
  {
    if a == [] {
      assert a + b == b;
    } else {
      assert (a + b)[0] == a[0] && (a + b)[1..] == a[1..] + b;
      LinesOpsAppend(a[1..], b, if a[0].Connection? then a[0].ip else cIp);
    }
  }

  // ----- the header's edits

  predicate NoneCounted(ops: seq<Operation>) {
    forall i :: 0 <= i < |ops| ==> !ops[i].cnt
  }

  predicate AllCounted(ops: seq<Operation>) {
    forall i :: 0 <= i < |ops| ==> ops[i].cnt
  }

  predicate NoneEmptyRange(ops: seq<Operation>) {
    forall i :: 0 <= i < |ops| ==> ops[i].start < ops[i].end
  }

  /** Header lines record disjoint operations in the order of the text, and none counts for the body. */
  lemma TwoInFront(a: Operation, b: Operation, rest: seq<Operation>, lo: int, from: int, hi: int)
    requires lo <= a.start < a.end <= b.start < b.end <= from && !a.cnt && !b.cnt
    requires Fits(rest, from, hi) && NoneCounted(rest) && NoneEmptyRange(rest)
    ensures var ops := [a] + ([b] + rest); Fits(ops, lo, hi) && NoneCounted(ops) && NoneEmptyRange(ops)
  {
    assert ([b] + rest)[1..] == rest && ([a] + ([b] + rest))[1..] == [b] + rest;
    FitsWider(rest, from, hi, b.end, hi);
  }

  lemma {:induction false} HeaderEdits(lines: seq<Line>, lo: int, hi: int, cIp: Token)
    requires HeadersFrom(lines, lo, hi)
    ensures var ops := LinesOps(lines, cIp); Fits(ops, lo, hi) && NoneCounted(ops) && NoneEmptyRange(ops)
    ensures LastAddress(lines, cIp) == cIp
    decreases |lines|
  {
    if lines != [] {
      var from := EndOf(lines[0], lo);
      HeaderEdits(lines[1..], from, hi, cIp);
      var rest := LinesOps(lines[1..], cIp);
      if lines[0].Address? {
        var a, b := LineOps(lines[0], cIp)[0], LineOps(lines[0], cIp)[1];
        assert LinesOps(lines, cIp) == [a] + ([b] + rest);
        TwoInFront(a, b, rest, lo, from, hi);
      } else {
        assert LinesOps(lines, cIp) == rest;
        FitsWider(rest, from, hi, lo, hi);
      }
    }
  }

  // ----- the edits of the session description

  /** No address of a c= line is replaced for two m= lines. */
  predicate OneMediaEach(lines: seq<Line>, cIp: Token, used: bool) {
    lines == [] ||
    match lines[0]
    case Connection(_, ip) => OneMediaEach(lines[1..], ip, false)
    case Media(_, _) => if cIp.s == "" then OneMediaEach(lines[1..], cIp, used)
                        else !used && OneMediaEach(lines[1..], cIp, true)
    case _ => OneMediaEach(lines[1..], cIp, used)
  }

  /** The remembered address is a token in front of lo. */
  predicate Remembers(cIp: Token, floor: int, lo: int) {
    floor <= lo && (cIp.s != "" ==> Within(cIp, floor, lo))
  }

  /** Where the remembered address may still be replaced. */
  function Open(cIp: Token, used: bool, lo: int): int {
    if cIp.s == "" || used then lo else cIp.pos
  }

  lemma TwoMore(a: Operation, b: Operation, rest: seq<Operation>, lo: int, hi: int)
    requires lo <= a.start < a.end <= b.start < b.end && Fits(rest, b.end, hi)
    ensures Fits([a, b] + rest, lo, hi)
  {
    RoomLeft(rest, b.end, hi);
    assert ([a, b] + rest)[1..] == [b] + rest && ([b] + rest)[1..] == rest;
  }

  lemma OneMore(a: Operation, rest: seq<Operation>, lo: int, hi: int)
    requires lo <= a.start <= a.end && Fits(rest, a.end, hi)
    ensures Fits([a] + rest, lo, hi)
  {
    RoomLeft(rest, a.end, hi);
    assert ([a] + rest)[1..] == rest;
  }

  /** All edits of the body count. */
  lemma {:induction false} BodyCounts(lines: seq<Line>, cIp: Token, floor: int, lo: int, hi: int)
    requires BodyFrom(lines, lo, hi) && Remembers(cIp, floor, lo)
    ensures AllCounted(LinesOps(lines, cIp)) && NoneEmptyRange(LinesOps(lines, cIp))
    decreases |lines|
  {
    if lines != [] {
      BodyCounts(lines[1..], if lines[0].Connection? then lines[0].ip else cIp, floor, EndOf(lines[0], lo), hi);
    }
  }

  /** Where every address has one m= line, the edits are in order and disjoint. */
  lemma {:induction false} BodyEdits(lines: seq<Line>, cIp: Token, used: bool, floor: int, lo: int, hi: int)
    requires BodyFrom(lines, lo, hi) && Remembers(cIp, floor, lo) && OneMediaEach(lines, cIp, used)
    ensures Fits(LinesOps(lines, cIp), Open(cIp, used, lo), hi)
    decreases |lines|
  {
    if lines != [] {
      match lines[0]
      case Connection(family, ip) =>
        BodyEdits(lines[1..], ip, false, floor, ip.posEnd, hi);
        var rest := LinesOps(lines[1..], ip);
        FitsWider(rest, ip.pos, hi, family.posEnd, hi);
        OneMore(Replace(family, "IP4", true), rest, Open(cIp, used, lo), hi);
      case Media(port, to) =>
        BodyEdits(lines[1..], cIp, used || cIp.s != "", floor, port.posEnd, hi);
        MediaEdits(port, to, cIp, LinesOps(lines[1..], cIp), floor, lo, hi);
      case Other =>
        BodyEdits(lines[1..], cIp, used, floor, lo, hi);
        assert [] + LinesOps(lines[1..], cIp) == LinesOps(lines[1..], cIp);
    }
  }

  lemma MediaEdits(port: Token, to: Mapped, cIp: Token, rest: seq<Operation>, floor: int, lo: int, hi: int)
    requires Within(port, lo, hi) && Remembers(cIp, floor, lo) && Fits(rest, port.posEnd, hi)
    ensures Fits(LineOps(Media(port, to), cIp) + rest, Open(cIp, false, lo), hi)
  {
    if cIp.s == "" {
      assert [] + rest == rest;
      FitsWider(rest, port.posEnd, hi, lo, hi);
    } else {
      TwoMore(Replace(cIp, to.ip, true), Replace(port, to.port, true), rest, cIp.pos, hi);
    }
  }

  /** How many operations replace a range that is not empty and starts at the position. */
  function CountAt(ops: seq<Operation>, start: int): nat {
    if ops == [] then 0 else (if ops[0].start == start < ops[0].end then 1 else 0) + CountAt(ops[1..], start)
  }

  lemma {:induction false} CountAtAppend(a: seq<Operation>, b: seq<Operation>, start: int)
    ensures CountAt(a + b, start) == CountAt(a, start) + CountAt(b, start)
  {
    if a == [] {
      assert a + b == b;
    } else {
      assert (a + b)[1..] == a[1..] + b;
      CountAtAppend(a[1..], b, start);
    }
  }

  lemma {:induction false} CountAtInsert(op: Operation, ops: seq<Operation>, start: int)
    ensures CountAt(Insert(op, ops), start) == CountAt([op], start) + CountAt(ops, start)
  {
    if ops == [] || op.start <= ops[0].start {
      CountAtAppend([op], ops, start);
    } else {
      CountAtInsert(op, ops[1..], start);
      CountAtAppend([ops[0]], Insert(op, ops[1..]), start);
      CountAtAppend([ops[0]], ops[1..], start);
      assert [ops[0]] + ops[1..] == ops;
    }
  }

  lemma {:induction false} CountAtSort(ops: seq<Operation>, start: int)
    ensures CountAt(Sort(ops), start) == CountAt(ops, start)
  {
    if ops != [] {
      CountAtSort(ops[1..], start);
      CountAtInsert(ops[0], Sort(ops[1..]), start);
    }
  }

  lemma {:induction false} CountAtOfFits(ops: seq<Operation>, lo: int, hi: int, start: int)
    requires Fits(ops, lo, hi)
    ensures CountAt(ops, start) <= if start < lo then 0 else 1
  {
    if ops != [] {
      CountAtOfFits(ops[1..], ops[0].end, hi, start);
    }
  }

  /** A second m= line makes a second operation at the same place. */
  lemma {:induction false} SecondMediaOverlaps(lines: seq<Line>, cIp: Token, used: bool, floor: int, lo: int, hi: int)
    returns (start: int)
    requires BodyFrom(lines, lo, hi) && Remembers(cIp, floor, lo) && !OneMediaEach(lines, cIp, used)
    ensures CountAt(LinesOps(lines, cIp), start) + (if used && cIp.s != "" && start == cIp.pos then 1 else 0) >= 2
    decreases |lines|
  {
    var next := if lines[0].Connection? then lines[0].ip else cIp;
    var first, rest := LineOps(lines[0], cIp), LinesOps(lines[1..], next);
    match lines[0]
    case Connection(family, ip) =>
      start := SecondMediaOverlaps(lines[1..], ip, false, floor, ip.posEnd, hi);
      CountAtAppend(first, rest, start);
    case Media(port, to) =>
      if cIp.s == "" {
        start := SecondMediaOverlaps(lines[1..], cIp, used, floor, port.posEnd, hi);
      } else if used {
        start := cIp.pos;
      } else {
        start := SecondMediaOverlaps(lines[1..], cIp, true, floor, port.posEnd, hi);
      }
      CountAtAppend(first, rest, start);
    case Other =>
      start := SecondMediaOverlaps(lines[1..], cIp, used, floor, lo, hi);
      CountAtAppend(first, rest, start);
  }

  /** The recorded operations can be applied exactly when no address serves two m= lines. */
  lemma BodyEditsFitExactly(lines: seq<Line>, lo: int, hi: int)
    requires BodyFrom(lines, lo, hi)
    ensures Fits(Sort(LinesOps(lines, NoToken)), lo, hi) <==> OneMediaEach(lines, NoToken, false)
  {
    var ops := LinesOps(lines, NoToken);
    if OneMediaEach(lines, NoToken, false) {
      BodyEdits(lines, NoToken, false, lo, lo, hi);
      FitsIsSorted(ops, lo, hi);
      SortOfSorted(ops);
    } else {
      var start := SecondMediaOverlaps(lines, NoToken, false, lo, lo, hi);
      CountAtSort(ops, start);
      if Fits(Sort(ops), lo, hi) {
        CountAtOfFits(Sort(ops), lo, hi, start);
      }
    }
  }

  lemma FitsIsSorted(ops: seq<Operation>, lo: int, hi: int)
    requires Fits(ops, lo, hi)
    ensures SortedByStart(ops)
    ensures NoneEmptyRange(ops) ==> StrictlySorted(ops)
  {
    FitsMeansOrderedDisjointInRange(ops, lo, hi);
  }

  // ----- Content-Length

  predicate NoLength(lines: seq<Line>) {
    forall i :: 0 <= i < |lines| ==> !IsLength(lines[i])
  }

  /** Every message with the header has one that decides, with no other behind it. */
  lemma {:induction false} LengthHeaderSplits(lines: seq<Line>, lo: int, hi: int)
    returns (before: seq<Line>, line: Line, after: seq<Line>)
    requires HeadersFrom(lines, lo, hi) && !NoLength(lines)
    ensures lines == before + ([line] + after) && IsLength(line) && NoLength(after)
    ensures HeadersFrom(before, lo, line.value.pos) && HeadersFrom(after, line.value.posEnd, hi)
    decreases |lines|
  {
    if NoLength(lines[1..]) {
      before, line, after := [], lines[0], lines[1..];
    } else {
      var first := lines[0];
      var from := EndOf(first, lo);
      before, line, after := LengthHeaderSplits(lines[1..], from, hi);
      HeadersEnd(before, from, line.value.pos);
      assert ([first] + before)[1..] == before;
      assert lines == [first] + lines[1..];
      assert [first] + (before + ([line] + after)) == ([first] + before) + ([line] + after);
      before := [first] + before;
    }
  }

  lemma {:induction false} HeadersEnd(lines: seq<Line>, lo: int, hi: int)
    requires HeadersFrom(lines, lo, hi)
    ensures lo <= hi
    decreases |lines|
  {
    if lines != [] {
      HeadersEnd(lines[1..], EndOf(lines[0], lo), hi);
    }
  }

  lemma {:induction false} LastLengthStays(lines: seq<Line>, last: Token)
    requires NoLength(lines)
    ensures LastLength(lines, last) == last
    decreases |lines|
  {
    if lines != [] {
      LastLengthStays(lines[1..], last);
    }
  }

  lemma {:induction false} BodyHasNoLength(lines: seq<Line>, lo: int, hi: int)
    requires BodyFrom(lines, lo, hi)
    ensures NoLength(lines)
    decreases |lines|
  {
    if lines != [] {
      BodyHasNoLength(lines[1..], EndOf(lines[0], lo), hi);
    }
  }

  const Start := SipState([], NoToken, NoToken)

  /** What the actions have recorded for a message when its end is reached. */
  function Recorded(before: seq<Line>, length: Line, after: seq<Line>, sdp: seq<Line>): seq<Operation> {
    Finish(ReduceAll(Start, before + ([length] + (after + sdp)))).ops
  }

  function LengthEdit(v: Token, growth: int): Operation {
    Replace(v, PrintInt(ScanInt(v.s) + growth), false)
  }

  lemma {:induction false} LastLengthAppend(a: seq<Line>, b: seq<Line>, last: Token)
    ensures LastLength(a + b, last) == LastLength(b, LastLength(a, last))
    decreases |a|
  {
    if a == [] {
      assert a + b == b;
    } else {
      assert (a + b)[0] == a[0] && (a + b)[1..] == a[1..] + b;
      LastLengthAppend(a[1..], b, if IsLength(a[0]) then a[0].value else last);
    }
  }

  lemma LengthRemembered(before: seq<Line>, length: Line, rest: seq<Line>)
    requires IsLength(length) && NoLength(rest)
    ensures LastLength(before + ([length] + rest), NoToken) == length.value
  {
    LastLengthAppend(before, [length] + rest, NoToken);
    assert ([length] + rest)[1..] == rest;
    LastLengthStays(rest, length.value);
  }

  /** The edit of the header is recorded last, although it stands before all edits of the body. */
  lemma RecordedInOrder(before: seq<Line>, length: Line, after: seq<Line>, sdp: seq<Line>, lo: int, mid: int, hi: int)
    requires IsLength(length) && length.value.s != "" && NoLength(after)
    requires HeadersFrom(before, lo, length.value.pos) && HeadersFrom(after, length.value.posEnd, mid)
    requires BodyFrom(sdp, mid, hi)
    ensures var h1, h2, b := LinesOps(before, NoToken), LinesOps(after, NoToken), LinesOps(sdp, NoToken);
      Recorded(before, length, after, sdp) == (h1 + (h2 + b)) + [LengthEdit(length.value, TotalDelta(b))]
  {
    BodyHasNoLength(sdp, mid, hi);
    LengthRemembered(before, length, after + sdp);
    var lines := before + ([length] + (after + sdp));
    RunRecords(Start, lines);
    HeaderEdits(before, lo, length.value.pos, NoToken);
    HeaderEdits(after, length.value.posEnd, mid, NoToken);
    BodyCounts(sdp, NoToken, mid, mid, hi);
    LinesOpsAppend(before, [length] + (after + sdp), NoToken);
    LengthRecordsNothing(length, after + sdp);
    LinesOpsAppend(after, sdp, NoToken);
    CountsTheBody(LinesOps(before, NoToken), LinesOps(after, NoToken), LinesOps(sdp, NoToken));
    assert Start.ops + LinesOps(lines, NoToken) == LinesOps(lines, NoToken);
    LengthIsLast(ReduceAll(Start, lines), length.value, LinesOps(before, NoToken) + (LinesOps(after, NoToken) + LinesOps(sdp, NoToken)),
                 TotalDelta(LinesOps(sdp, NoToken)));
  }

  lemma LengthIsLast(st: SipState, v: Token, ops: seq<Operation>, growth: int)
    requires st.ops == ops && st.contentLen == v && v.s != "" && CountedDelta(ops) == growth
    ensures Finish(st).ops == ops + [LengthEdit(v, growth)]
  {
  }

  lemma LengthRecordsNothing(length: Line, rest: seq<Line>)
    requires IsLength(length)
    ensures LinesOps([length] + rest, NoToken) == LinesOps(rest, NoToken)
  {
    assert ([length] + rest)[1..] == rest;
    assert [] + LinesOps(rest, NoToken) == LinesOps(rest, NoToken);
  }

  lemma CountsTheBody(h1: seq<Operation>, h2: seq<Operation>, b: seq<Operation>)
    requires NoneCounted(h1) && NoneCounted(h2) && AllCounted(b)
    ensures CountedDelta(h1 + (h2 + b)) == TotalDelta(b)
  {
    CountedDeltaAppend(h1, h2 + b);
    CountedDeltaAppend(h2, b);
    NothingCounted(h1);
    NothingCounted(h2);
    EverythingCounted(b);
  }

  lemma {:induction false} NothingCounted(ops: seq<Operation>)
    requires NoneCounted(ops)
    ensures CountedDelta(ops) == 0
  {
    if ops != [] {
      NothingCounted(ops[1..]);
    }
  }

  lemma {:induction false} EverythingCounted(ops: seq<Operation>)
    requires AllCounted(ops)
    ensures CountedDelta(ops) == TotalDelta(ops)
  {
    if ops != [] {
      EverythingCounted(ops[1..]);
    }
  }

  /** Sorting moves the edit that was recorded last to its place. */
  lemma LengthEditSortsForward(h1: seq<Operation>, edit: Operation, rest: seq<Operation>, lo: int, hi: int)
    requires Fits(h1, lo, edit.start) && edit.start < edit.end && Fits(rest, edit.end, hi)
    requires NoneEmptyRange(h1) && NoneEmptyRange(rest)
    ensures Fits(h1 + ([edit] + rest), lo, hi) && Sort((h1 + rest) + [edit]) == h1 + ([edit] + rest)
  {
    var sorted, recorded := h1 + ([edit] + rest), (h1 + rest) + [edit];
    OneMore(edit, rest, edit.start, hi);
    FitsAppend(h1, [edit] + rest, lo, edit.start, hi);
    FitsIsSorted(sorted, lo, hi);
    assert multiset(sorted) == multiset(recorded);
    SortSorts(recorded);
    SortedArrangementUnique(sorted, Sort(recorded));
  }

  /** The operations can be applied exactly when no address of the body serves two m= lines. */
  lemma MessageFitsExactly(before: seq<Line>, length: Line, after: seq<Line>, sdp: seq<Line>, lo: int, mid: int,
                 hi: int)
    requires IsLength(length) && length.value.pos < length.value.posEnd && length.value.s != "" && NoLength(after)
    requires HeadersFrom(before, lo, length.value.pos) && HeadersFrom(after, length.value.posEnd, mid)
    requires BodyFrom(sdp, mid, hi)
    ensures Fits(Sort(Recorded(before, length, after, sdp)), lo, hi) <==> OneMediaEach(sdp, NoToken, false)
    ensures OneMediaEach(sdp, NoToken, false) ==>
      var h1, h2, b := LinesOps(before, NoToken), LinesOps(after, NoToken), LinesOps(sdp, NoToken);
      && Fits(b, mid, hi)
      && Sort(Recorded(before, length, after, sdp)) == h1 + ([LengthEdit(length.value, TotalDelta(b))] + (h2 + b))
  {
    var h1, h2, b := LinesOps(before, NoToken), LinesOps(after, NoToken), LinesOps(sdp, NoToken);
    var edit := LengthEdit(length.value, TotalDelta(b));
    RecordedInOrder(before, length, after, sdp, lo, mid, hi);
    HeaderEdits(before, lo, length.value.pos, NoToken);
    HeaderEdits(after, length.value.posEnd, mid, NoToken);
    if OneMediaEach(sdp, NoToken, false) {
      BodyCounts(sdp, NoToken, mid, mid, hi);
      BodyEdits(sdp, NoToken, false, mid, mid, hi);
      FitsAppend(h2, b, length.value.posEnd, mid, hi);
      Associates(h1, h2, b);
      LengthEditSortsForward(h1, edit, h2 + b, lo, hi);
    } else {
      var start := SecondMediaOverlaps(sdp, NoToken, false, mid, mid, hi);
      CountAtAppend(h1 + (h2 + b), [edit], start);
      CountAtAppend(h1, h2 + b, start);
      CountAtAppend(h2, b, start);
      TwiceDoesNotFit(Recorded(before, length, after, sdp), lo, hi, start);
    }
  }

  lemma TwiceDoesNotFit(ops: seq<Operation>, lo: int, hi: int, start: int)
    requires CountAt(ops, start) >= 2
    ensures !Fits(Sort(ops), lo, hi)
  {
    CountAtSort(ops, start);
    if Fits(Sort(ops), lo, hi) {
      CountAtOfFits(Sort(ops), lo, hi, start);
    }
  }

  /** The rewritten message, piece by piece. */
  lemma MessageSplices(a: string, v: string, c: string, body: string,
                       h1: seq<Operation>, edit: Operation, h2: seq<Operation>, b: seq<Operation>, q: int, mid: int)
    requires edit.start == |a| && q == edit.end == |a| + |v| && mid == q + |c|
    requires Fits(h1, 0, |a|) && Fits(h2, q, mid) && Fits(b, mid, mid + |body|)
    ensures Fits(h1 + ([edit] + (h2 + b)), 0, |a + (v + (c + body))|)
    ensures Same(Splice(a + (v + (c + body)), h1 + ([edit] + (h2 + b)), 0),
                 Splice(a, h1, 0) + (edit.newdata + (Splice(c, h2, q) + Splice(body, b, mid))))
  {
    SpliceSplits(c, body, h2, b, q);
    OneMore(edit, h2 + b, |a|, mid + |body|);
    SpliceSplits(a, v + (c + body), h1, [edit] + (h2 + b), 0);
    ReplacedPiece(v, c + body, edit, h2 + b, |a|, q);
  }

  lemma ReplacedPiece(v: string, rest: string, edit: Operation, ops: seq<Operation>, lo: int, q: int)
    requires edit.start == lo && q == edit.end == lo + |v| && Fits(ops, q, q + |rest|)
    ensures Fits([edit] + ops, lo, lo + |v + rest|)
    ensures Same(Splice(v + rest, [edit] + ops, lo), edit.newdata + Splice(rest, ops, q))
  {
    OneMore(edit, ops, lo, q + |rest|);
    SpliceFromFront(v + rest, [edit] + ops, lo);
    assert ([edit] + ops)[1..] == ops;
    assert (v + rest)[..0] == "" && (v + rest)[|v|..] == rest;
    EmptyIsNeutral(edit.newdata);
  }

  /**
    Length repair: in the rewritten message the value of Content-Length is the length of the rewritten
    body exactly when the original value was the length of the original body.
   */
  lemma LengthRepairedExactly(a: string, v: string, c: string, body: string, before: seq<Line>, length: Line,
                              after: seq<Line>, sdp: seq<Line>, q: int, mid: int)
    returns (value: string)
    requires v != "" && q == |a| + |v| && mid == q + |c|
    requires IsLength(length) && length.value == Token(v, |a|, q) && NoLength(after)
    requires HeadersFrom(before, 0, |a|) && HeadersFrom(after, q, mid)
    requires BodyFrom(sdp, mid, mid + |body|) && OneMediaEach(sdp, NoToken, false)
    ensures var ops, text := Sort(Recorded(before, length, after, sdp)), a + (v + (c + body));
      var h1, h2, b := LinesOps(before, NoToken), LinesOps(after, NoToken), LinesOps(sdp, NoToken);
      && Fits(ops, 0, |text|) && Fits(h1, 0, |a|) && Fits(h2, q, mid) && Fits(b, mid, mid + |body|)
      && Same(Splice(text, ops, 0), Splice(a, h1, 0) + (value + (Splice(c, h2, q) + Splice(body, b, mid))))
      && (ScanInt(value) == |Splice(body, b, mid)| <==> ScanInt(v) == |body|)
      && (ScanInt(v) == |body| ==> value == PrintInt(|Splice(body, b, mid)|))
  {
    var h1, h2, b := LinesOps(before, NoToken), LinesOps(after, NoToken), LinesOps(sdp, NoToken);
    var growth := TotalDelta(b);
    MessageFitsExactly(before, length, after, sdp, 0, mid, mid + |body|);
    HeaderEdits(before, 0, |a|, NoToken);
    HeaderEdits(after, q, mid, NoToken);
    MessageSplices(a, v, c, body, h1, LengthEdit(length.value, growth), h2, b, q, mid);
    value := PrintInt(ScanInt(v) + growth);
    RepairedValue(ScanInt(v), growth, value, |body|, |Splice(body, b, mid)|);
  }

  /** The repaired value reads as the new length exactly if the original one reads as the had length. */
  lemma RepairedValue(had: int, growth: int, value: string, len: int, newLen: int)
    requires value == PrintInt(had + growth) && newLen == len + growth
    ensures (ScanInt(value) == newLen <==> had == len) && (had == len ==> value == PrintInt(newLen))
  {
    ScanIntOfPrintInt(had + growth);
  }
}
