/** The parser object shared by all protocols (parser.h:34-84, parser.cc) and the HTTP override. */
module Parsers {
  import opened Operations
  import opened Numerals

  const CRLF := "\r\n"
  const END_OF_CHUNKS := "0" + (CRLF + CRLF)
  const LAST_CHUNK := CRLF + END_OF_CHUNKS

  /** HTTPParser::getContentLengthExceed: the text past the first chunk becomes a second chunk and the end. */
  function HttpExceed(content: string): string {
    if |content| > 0 then CRLF + Print(|content|, 16) + CRLF + content + LAST_CHUNK else LAST_CHUNK
  }

  class Parser {
    const http: bool
    var ops: seq<Operation>
    var endPos: int
    var end: bool
    var maxPos: int
    var maxLen: int

    constructor (http: bool)
      ensures this.http == http && ops == [] && endPos == -1 && maxPos == -1 && !end
    {
      this.http := http;
      ops, endPos, maxPos, maxLen, end := [], -1, -1, 0, false;
    }

    /** Only the HTTP parser overrides the identity of parser.h:64. */
    function Exceed(content: string): string {
      if http then HttpExceed(content) else content
    }

    method AddOperation(start: int, end: int, newdata: string, count: bool)
      modifies this`ops
      ensures ops == old(ops) + [Operation(start, end, newdata, count)]
    {
      ops := ops + [Operation(start, end, newdata, count)];
    }

    method TotalDelta() returns (delta: int)
      ensures delta == CountedDelta(ops)
    {
      delta := 0;
      for i := 0 to |ops|
        invariant delta + CountedDelta(ops[i..]) == CountedDelta(ops)
      {
        if ops[i].cnt {
          delta := delta + |ops[i].newdata| - (ops[i].end - ops[i].start);
        }
      }
    }

    method SetLengthEnd(pos: int, len: int)
      modifies this`endPos
      ensures endPos == pos + len
    {
      endPos := pos + len;
    }

    method SetLengthMax(pos: int, len: int)
      modifies this`maxPos, this`maxLen
      ensures maxPos == pos && maxLen == len
    {
      maxPos, maxLen := pos, len;
    }

    /** The part of Parser::process after addData has answered (parser.cc:31-36). */
    method TakeOperations(answer: int) returns (taken: seq<Operation>)
      modifies this`ops, this`end
      ensures taken == old(ops) && ops == [] && end == (old(end) || answer < 0)
    {
      if answer < 0 {
        end := true;
      }
      taken := ops;
      ops := [];
    }
  }
}
