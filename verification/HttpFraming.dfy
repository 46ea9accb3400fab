/**
  Repair of HTTP framing (http/grammar:39-50, http/HTTPParser.h:30-40, flow.cc:166-188): a body of
  declared length becomes a first chunk of that size, and what the edits add becomes a second one.
 */
module HttpFraming {
  import opened Words
  import opened Operations
  import opened Splicing
  import opened ByteMachine
  import opened ByteLoop
  import opened Numerals
  import opened Parsers
  import opened FlowRewrite
  import opened Chunks

  // ----- the grammar's actions

  class HttpGrammar {
    const parser: Parser
    var chunked: bool
    var len: int
    var ignore: int
    var curTag: string

    constructor (parser: Parser)
      ensures this.parser == parser && !chunked && len == 0 && ignore == 0 && curTag == ""
    {
      this.parser, chunked, len, ignore, curTag := parser, false, 0, 0, "";
    }

    /** The empty line after the headers, ending at posEnd. */
    method EmptyLine(posEnd: int)
      modifies this`ignore, parser`ops, parser`endPos, parser`maxPos, parser`maxLen
      ensures ignore == 0
      ensures if !chunked && len > 0 then
          && parser.ops == old(parser.ops) + [SizeLine(posEnd, len)]
          && parser.endPos == posEnd + len && parser.maxPos == posEnd && parser.maxLen == len
        else
          && parser.ops == old(parser.ops) && parser.endPos == old(parser.endPos)
          && parser.maxPos == old(parser.maxPos) && parser.maxLen == old(parser.maxLen)
    {
      ignore := 0;
      if chunked {
      } else if len > 0 {
        parser.AddOperation(posEnd, posEnd, Print(len, 16) + CRLF, false);
        parser.SetLengthEnd(posEnd, len);
        parser.SetLengthMax(posEnd, len);
      }
    }

    ghost function Tags(): TagState
      reads this
    {
      TagState(curTag, ignore)
    }

    method BeginTag(tag: string)
      modifies this`curTag, this`ignore
      ensures Tags() == AfterTag(old(Tags()), Open(tag))
    {
      if ignore != 0 {
        return;
      }
      curTag := tag;
      if tag == "textarea" || tag == "script" {
        ignore := ignore + 1;
      }
    }

    method EndTag(tag: string)
      modifies this`ignore
      ensures Tags() == AfterTag(old(Tags()), Close(tag))
    {
      if tag == "textarea" || tag == "script" {
        ignore := ignore - 1;
      }
    }

    /** An address in a link; only inside an <a> tag it is rewritten. */
    method ReportIp(ip: string, pos: int, posEnd: int)
      modifies parser`ops
      ensures parser.ops == old(parser.ops) + Reported(Tags(), ip, pos, posEnd)
    {
      if curTag == "a" {
        var ip2 := "";
        for i := 0 to |ip|
          invariant ip2 == Barred(ip[..i])
        {
          assert ip[..i + 1][..i] == ip[..i];
          if ip[i] != '.' {
            ip2 := ip2 + [ip[i]];
          } else {
            ip2 := ip2 + "|";
          }
        }
        assert ip[..|ip|] == ip;
        parser.AddOperation(pos, posEnd, ip2, false);
      }
    }
  }

  // ----- runs of tags

  datatype Tag = Open(name: string) | Close(name: string)

  datatype TagState = TagState(curTag: string, ignore: int)

  /** Inside these no other tag counts. */
  predicate HidesTags(tag: string) {
    tag == "textarea" || tag == "script"
  }

  function AfterTag(s: TagState, tag: Tag): TagState {
    match tag
    case Open(name) => if s.ignore != 0 then s else TagState(name, if HidesTags(name) then 1 else 0)
    case Close(name) => if HidesTags(name) then s.(ignore := s.ignore - 1) else s
  }

  function AfterTags(s: TagState, tags: seq<Tag>): TagState
    decreases |tags|
  {
    if tags == [] then s else AfterTags(AfterTag(s, tags[0]), tags[1..])
  }

  /** What is recorded for an address: only inside an <a> tag it is rewritten. */
  function Reported(s: TagState, ip: string, pos: int, posEnd: int): seq<Operation> {
    if s.curTag == "a" then [Operation(pos, posEnd, Barred(ip), false)] else []
  }

  /** Every hiding end tag closes a hiding tag; inside one, hiding tags are not opened anew. */
  predicate Nested(tags: seq<Tag>, hidden: bool) {
    tags == [] ||
    match tags[0]
    case Open(name) => Nested(tags[1..], hidden || HidesTags(name))
    case Close(name) => if HidesTags(name) then hidden && Nested(tags[1..], false) else Nested(tags[1..], hidden)
  }

  /** At every point of the run ignore is 0 or 1. */
  predicate IgnoreIsFlag(s: TagState, tags: seq<Tag>)
    decreases |tags|
  {
    0 <= s.ignore <= 1 && (tags == [] || IgnoreIsFlag(AfterTag(s, tags[0]), tags[1..]))
  }

  /** ignore works as the flag it is meant to be exactly in runs in which hiding tags are nested properly. */
  lemma {:induction false} IgnoreIsFlagExactly(s: TagState, tags: seq<Tag>)
    requires 0 <= s.ignore <= 1
    ensures IgnoreIsFlag(s, tags) <==> Nested(tags, s.ignore == 1)
    decreases |tags|
  {
    if tags != [] && 0 <= AfterTag(s, tags[0]).ignore <= 1 {
      IgnoreIsFlagExactly(AfterTag(s, tags[0]), tags[1..]);
    }
  }

  /** Once ignore is negative it never comes back, and the current tag is frozen for the rest of the message. */
  lemma {:induction false} NegativeIgnoreFreezes(s: TagState, tags: seq<Tag>)
    requires s.ignore < 0
    ensures AfterTags(s, tags).ignore < 0 && AfterTags(s, tags).curTag == s.curTag
    decreases |tags|
  {
    if tags != [] {
      NegativeIgnoreFreezes(AfterTag(s, tags[0]), tags[1..]);
    }
  }

  /**
    What a stray hiding end tag does, whatever tags follow: if it comes inside an <a> tag, every later
    address is rewritten, wherever it stands; otherwise none is, not even inside <a> tags.
   */
  lemma StrayEndFreezesReports(s: TagState, name: string, later: seq<Tag>, ip: string, pos: int, posEnd: int)
    requires s.ignore == 0 && HidesTags(name)
    ensures Reported(AfterTags(s, [Close(name)] + later), ip, pos, posEnd) == Reported(s, ip, pos, posEnd)
  {
    assert ([Close(name)] + later)[1..] == later;
    NegativeIgnoreFreezes(AfterTag(s, Close(name)), later);
  }

  /** A message with one stray </script> in front of a link: the link's address is left as it is. */
  lemma StrayEndHidesLink(ip: string, pos: int, posEnd: int)
    ensures var s := TagState("", 0);
      && Reported(AfterTags(s, [Close("script"), Open("a")]), ip, pos, posEnd) == []
      && Reported(AfterTags(s, [Open("a")]), ip, pos, posEnd) == [Operation(pos, posEnd, Barred(ip), false)]
  {
    var s := TagState("", 0);
    assert [Close("script"), Open("a")] == [Close("script")] + [Open("a")] && [Open("a")][1..] == [];
    StrayEndFreezesReports(s, "script", [Open("a")], ip, pos, posEnd);
  }

  /** Links inside a script or a text area are left alone, those behind it are not. */
  lemma LinksInsideAreHidden(name: string, ip: string, pos: int, posEnd: int)
    requires name == "script" || name == "textarea"
    ensures var s := TagState("", 0);
      && Reported(AfterTags(s, [Open(name), Open("a")]), ip, pos, posEnd) == []
      && Reported(AfterTags(s, [Open(name), Close(name), Open("a")]), ip, pos, posEnd)
         == [Operation(pos, posEnd, Barred(ip), false)]
  {
    assert [Open(name), Open("a")][1..] == [Open("a")] && [Open("a")][1..] == [];
    assert [Open(name), Close(name), Open("a")][1..] == [Close(name), Open("a")];
    assert [Close(name), Open("a")][1..] == [Open("a")];
    assert AfterTags(TagState(name, 0), [Open("a")]) == TagState("a", 0);
    assert AfterTags(TagState(name, 1), [Close(name), Open("a")]) == TagState("a", 0);
  }

  function SizeLine(pos: int, len: int): Operation
    requires len > 0
  {
    Operation(pos, pos, Print(len, 16) + CRLF, false)
  }

  /** HTTPParser.h:81: dots become bars. */
  function Barred(ip: string): (r: string)
    ensures |r| == |ip| && forall i :: 0 <= i < |ip| ==> r[i] == if ip[i] == '.' then '|' else ip[i]
  {
    if ip == "" then ""
    else Barred(ip[..|ip| - 1]) + if ip[|ip| - 1] == '.' then "|" else [ip[|ip| - 1]]
  }

  /** The grammar's edits keep the length: they are neutral for the stream. */
  lemma ReportedIpIsNeutral(ip: string, pos: int)
    ensures Operation(pos, pos + |ip|, Barred(ip), false).Delta() == 0
  {
  }

  // ----- the limit that modify moves

  /** The everyday case: no edit that changes the length ends inside the moved limit. */
  predicate Beyond(ops: seq<Operation>, limit: int) {
    ops == [] || ops[0].end > limit || (ops[0].Delta() == 0 && Beyond(ops[1..], limit))
  }

  lemma {:induction false} TrackedHeader(header: seq<Operation>, rest: seq<Operation>, lo: int, hi: int, limit: int)
    requires Fits(header, lo, hi) && NoneShrinks(header) && hi <= limit
    ensures Tracked(header + rest, limit) == Tracked(rest, limit + TotalDelta(header)) && 0 <= TotalDelta(header)
    decreases |header|
  {
    if header == [] {
      assert header + rest == rest;
    } else {
      assert (header + rest)[1..] == header[1..] + rest;
      RoomLeft(header[1..], header[0].end, hi);
      NoneShrinksTail(header);
      TrackedHeader(header[1..], rest, header[0].end, hi, limit + header[0].Delta());
    }
  }

  lemma {:induction false} TrackedBody(body: seq<Operation>, lo: int, hi: int, limit: int)
    requires Fits(body, lo, hi) && Beyond(body, limit)
    ensures Tracked(body, limit) == limit
    decreases |body|
  {
    if body != [] {
      if body[0].end > limit {
        BeyondAll(body[1..], body[0].end, hi, limit);
      }
      TrackedBody(body[1..], body[0].end, hi, limit);
    }
  }

  /** The limit is moved back by no more than the range of the operations. */
  lemma {:induction false} TrackedAtLeast(body: seq<Operation>, lo: int, hi: int, limit: int)
    requires Fits(body, lo, hi)
    ensures Tracked(body, limit) - limit >= lo - hi
    decreases |body|
  {
    if body != [] {
      TrackedAtLeast(body[1..], body[0].end, hi, if body[0].end <= limit then limit + body[0].Delta() else limit);
    }
  }

  lemma {:induction false} BeyondAll(body: seq<Operation>, lo: int, hi: int, limit: int)
    requires Fits(body, lo, hi) && limit < lo
    ensures Beyond(body, limit)
  {
  }

  // ----- a message in one packet

  /** The operations of a message: those in the header, the size line, and those in the body. */
  function MessageOps(p: nat, len: nat, header: seq<Operation>, body: seq<Operation>): seq<Operation>
    requires len > 0
  {
    header + ([SizeLine(p, len)] + body)
  }

  /** The rewritten message, before its end is repaired. */
  lemma MessageSplice(h: string, b: string, header: seq<Operation>, body: seq<Operation>)
    requires b != "" && Fits(header, 0, |h|) && Fits(body, |h|, |h| + |b|)
    ensures var ops := MessageOps(|h|, |b|, header, body);
      && Fits(ops, 0, |h + b|)
      && Same(Splice(h + b, ops, 0),
              Splice(h, header, 0) + ((Print(|b|, 16) + CRLF) + Splice(b, body, |h|)))
  {
    var p, size := |h|, SizeLine(|h|, |b|);
    SizeInFront(b, size, body, p);
    SpliceSplits(h, b, header, [size] + body, 0);
  }

  lemma SizeInFront(b: string, size: Operation, body: seq<Operation>, p: int)
    requires size.start == size.end == p && Fits(body, p, p + |b|)
    ensures Fits([size] + body, p, p + |b|)
    ensures Same(Splice(b, [size] + body, p), size.newdata + Splice(b, body, p))
  {
    assert ([size] + body)[1..] == body;
    SpliceFromFront(b, [size] + body, p);
    assert b[..0] == "" && b[0..] == b;
    EmptyIsNeutral(size.newdata);
  }

  /** How far the moved limit is from the start of the rewritten body. */
  function LimitError(p: nat, len: nat, header: seq<Operation>, body: seq<Operation>): int
    requires len > 0
  {
    Tracked(MessageOps(p, len, header, body), p) - BodyStart(p, len, header)
  }

  /** Where the body starts in the rewritten message: behind the header and the size line. */
  function BodyStart(p: nat, len: nat, header: seq<Operation>): int {
    p + TotalDelta(header) + |Print(len, 16) + CRLF|
  }

  /** If header edits do not shrink, only the body's own edits can lead the limit astray, and not out of the body. */
  lemma LimitErrorOfBody(p: nat, len: nat, header: seq<Operation>, body: seq<Operation>)
    requires len > 0 && Fits(header, 0, p) && Fits(body, p, p + len) && NoneShrinks(header)
    ensures var start := BodyStart(p, len, header);
      LimitError(p, len, header, body) == Tracked(body, start) - start >= -(len as int)
  {
    var size := SizeLine(p, len);
    TrackedHeader(header, [size] + body, 0, p, p);
    assert ([size] + body)[1..] == body && ([size] + body)[0] == size;
    TrackedAtLeast(body, p, p + len, BodyStart(p, len, header));
  }

  /** If the header shrinks and the limit with it, the size line is behind the limit and is not counted. */
  lemma LimitErrorOfShrunkHeader(p: nat, len: nat, header: seq<Operation>, body: seq<Operation>)
    requires len > 0 && Fits(header, 0, p) && Fits(body, p, p + len)
    requires TotalDelta(header) < 0 && Tracked(header, p) == p + TotalDelta(header)
    ensures LimitError(p, len, header, body) == -|Print(len, 16) + CRLF|
  {
    TrackedAppend(header, [SizeLine(p, len)] + body, p);
    var size, limit := SizeLine(p, len), p + TotalDelta(header);
    assert ([size] + body)[1..] == body && ([size] + body)[0] == size;
    BeyondAll(body, p, p + len, limit);
    TrackedBody(body, p, p + len, limit);
  }

  lemma {:induction false} TrackedAppend(a: seq<Operation>, b: seq<Operation>, limit: int)
    ensures Tracked(a + b, limit) == Tracked(b, Tracked(a, limit))
    decreases |a|
  {
    if a == [] {
      assert a + b == b;
    } else {
      assert (a + b)[0] == a[0] && (a + b)[1..] == a[1..] + b;
      TrackedAppend(a[1..], b, if a[0].end <= limit then limit + a[0].Delta() else limit);
    }
  }

  /** The packet as sent: behind the header come chunks that decode to the text. */
  predicate Framed(sent: string, header: string, text: string) {
    StartsWith(sent, header) && Decode(sent[|header|..]) == Some(text)
  }

  /** Header, size line, and a body with a tail put in at some place. */
  lemma TailInMessage(h: string, line: string, b: string, at: nat)
    requires |h + line| > 0
    ensures Same(WithTail(h + (line + b), |h| + |line| + at, true), h + (line + Tailed(b, at)))
  {
    if at <= |b| {
      Halves(b, at);
      CutBehind(h, line, b[..at], b[at..]);
      Associates(h, line + b[..at], HttpExceed(b[at..]));
      Associates(line, b[..at], HttpExceed(b[at..]));
    }
  }

  lemma CutBehind(h: string, line: string, first: string, excess: string)
    ensures var text, at := h + (line + (first + excess)), |h| + |line| + |first|;
      Same(text[..at], h + (line + first)) && Same(text[at..], excess)
  {
    var text, at := h + (line + (first + excess)), |h| + |line| + |first|;
    assert text == (h + (line + first)) + excess;
    assert text[..at] == h + (line + first) && text[at..] == excess;
  }

  lemma HeaderThenRest(h: string, rest: string)
    ensures StartsWith(h + rest, h) && Same((h + rest)[|h|..], rest)
  {
    assert (h + rest)[..|h|] == h && (h + rest)[|h|..] == rest;
  }

  /** The packet is header, size line and body, with the tail at the place at of the body. */
  ghost predicate SentAs(sent: string, h: string, line: string, b: string, at: int) {
    sent == WithTail(h + (line + b), |h| + |line| + at, true)
  }

  /** A tail at the place at of the body makes proper framing if and only if it is the right place. */
  lemma FramedExactly(sent: string, h: string, line: string, len: nat, b: string, at: nat)
    requires len > 0 && Same(line, Print(len, 16) + CRLF) && SentAs(sent, h, line, b, at)
    ensures Framed(sent, h, b) <==> at == len && len <= |b|
  {
    TailInMessage(h, line, b, at);
    FramedBy(sent, h, len, b, Tailed(b, at));
    TailDecodesExactly(len, b, at);
  }

  lemma FramedBy(sent: string, h: string, len: nat, b: string, data: string)
    requires Same(sent, h + ((Print(len, 16) + CRLF) + data))
    ensures Framed(sent, h, b) <==> DecodeData(len, data) == Some(b)
  {
    HeaderThenRest(h, (Print(len, 16) + CRLF) + data);
    DecodeLine(len, data);
  }

  lemma DecodeLine(len: nat, data: string)
    ensures Same(Decode((Print(len, 16) + CRLF) + data), DecodeData(len, data))
  {
    Associates(Print(len, 16), CRLF, data);
    DecodeSize(len, data);
  }

  /**
    What modify sends for a message: the rewritten header h', the size line, and the rewritten body
    b', with the parser's tail where the moved limit and the declared length lead to.
   */
  ghost predicate Sent(sent: string, p: nat, len: nat, header: seq<Operation>, body: seq<Operation>, h': string, b': string)
    requires len > 0
  {
    SentAs(sent, h', Print(len, 16) + CRLF, b', len + LimitError(p, len, header, body))
  }

  /** This is what Flow::modify writes, if its loop handles the operations; src is the packet's buffer. */
  lemma WrittenIsSent(src: string, h: string, b: string, header: seq<Operation>, body: seq<Operation>)
    requires h != "" && b != "" && Fits(header, 0, |h|) && Fits(body, |h|, |h| + |b|)
    requires |h + b| <= |src| && src[..|h + b|] == h + b
    requires var ops := MessageOps(|h|, |b|, header, body); Runs(|src|, |h + b|, ops, 0) && Sweepable(ops, |h + b|)
    ensures var ops := MessageOps(|h|, |b|, header, body);
      Sent(Rewritten(src, |h + b|, ops, 0, |h|, |b|, true), |h|, |b|, header, body, Splice(h, header, 0), Splice(b, body, |h|))
  {
    var ops := MessageOps(|h|, |b|, header, body);
    MessageSplice(h, b, header, body);
    WrittenIsSplice(src, |h + b|, ops, 0);
    var written := Splice(h + b, ops, 0);
    SentIfWritten(written, |h|, |b|, header, body, Splice(h, header, 0), Splice(b, body, |h|), Boundary(ops, 0, |h|, |b|));
  }

  lemma SentIfWritten(written: string, p: nat, len: nat, header: seq<Operation>, body: seq<Operation>, h': string, b': string,
                      at: int)
    requires p > 0 && len > 0 && |h'| == p + TotalDelta(header) && at == Boundary(MessageOps(p, len, header, body), 0, p, len)
    requires Same(written, h' + ((Print(len, 16) + CRLF) + b'))
    ensures Sent(WithTail(written, at, true), p, len, header, body, h', b')
  {
  }

  /**
    Framing, for a limit that is not led out of the body: behind the rewritten header come chunks that
    decode to the rewritten body if and only if the limit has come out at the start of the body and
    the body is no shorter than declared.
   */
  lemma FramingByLimit(p: nat, len: nat, header: seq<Operation>, body: seq<Operation>, h': string, b': string, sent: string)
    requires len > 0 && LimitError(p, len, header, body) >= -(len as int)
    requires Sent(sent, p, len, header, body, h', b')
    ensures Framed(sent, h', b') <==> LimitError(p, len, header, body) == 0 && |b'| >= len
  {
    FramedExactly(sent, h', Print(len, 16) + CRLF, len, b', len + LimitError(p, len, header, body));
  }

  /**
    If header edits do not shrink: framing is repaired if and only if the body's edits inside the
    moved limit leave the limit where it is, and the edits do not make the body shorter.
   */
  lemma ChunkFramingExactly(p: nat, len: nat, header: seq<Operation>, body: seq<Operation>,
                            h': string, b': string, sent: string)
    requires len > 0 && Fits(header, 0, p) && Fits(body, p, p + len) && NoneShrinks(header)
    requires Sent(sent, p, len, header, body, h', b')
    ensures var limit := BodyStart(p, len, header);
      Framed(sent, h', b') <==> Tracked(body, limit) == limit && |b'| >= len
  {
    LimitErrorOfBody(p, len, header, body);
    FramingByLimit(p, len, header, body, h', b', sent);
  }

  /** If the header shrinks, no body that is at least as long as its size line is ever framed. */
  lemma ShrunkHeaderNeverFrames(p: nat, len: nat, header: seq<Operation>, body: seq<Operation>,
                                h': string, b': string, sent: string)
    requires len > 0 && Fits(header, 0, p) && Fits(body, p, p + len) && |Print(len, 16) + CRLF| <= len
    requires TotalDelta(header) < 0 && Tracked(header, p) == p + TotalDelta(header)
    requires Sent(sent, p, len, header, body, h', b')
    ensures !Framed(sent, h', b')
  {
    LimitErrorOfShrunkHeader(p, len, header, body);
    FramingByLimit(p, len, header, body, h', b', sent);
  }

  /** An edit that grows the body inside the moved limit: nothing decodes. */
  lemma EditInsideLimitBreaksFraming(edit: seq<Operation>, sent: string)
    requires edit == [Operation(1, 2, "XY", false)] && Sent(sent, 1, 2, [], edit, "\n", "XYb")
    ensures Fits(edit, 1, 3) && Splice("ab", edit, 1) == "XYb" && !Framed(sent, "\n", "XYb")
  {
    assert edit[1..] == [];
    assert Splice("ab", edit, 1) == "XYb";
    assert BodyStart(1, 2, []) == 4 && Tracked(edit, 4) == 5;
    ChunkFramingExactly(1, 2, [], edit, "\n", "XYb", sent);
  }
}
