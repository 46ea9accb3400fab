/**
  The scanner's input (http/input.h): characters come from pushed-back ones, then from the current
  stream, then from the streams that the communicator hands out one by one (communicator.cc:23-30).
 */
module ScannerInput {
  import opened Words

  const NEWLINE: byte := 10

  /** static_cast<size_t>(-1); all that matters is that it is no character. */
  const AT_EOF: int := 0x1_0000_0000_0000_0000 - 1

  /** The unread part of an Input object: d_deque, the rest of *d_in, and the streams still to come. */
  datatype Feed = Feed(deque: seq<byte>, current: seq<byte>, pending: seq<seq<byte>>, lineNr: int)

  /** Everything the scanner has still to see. */
  function Remaining(f: Feed): seq<byte> {
    f.deque + (f.current + Concat(f.pending))
  }

  /** doApp passes no empty text on (nat.cc:270-271). */
  predicate NoEmptyChunk(f: Feed) {
    forall i :: 0 <= i < |f.pending| ==> f.pending[i] != []
  }

  datatype Got = Got(feed: Feed, ch: int)

  /** input.h:58-80: next. A stream that is used up is replaced once; a new stream without bytes reads as the end. */
  function Next(f: Feed): Got {
    if f.deque != [] then Got(f.(deque := f.deque[1..]), f.deque[0])
    else if f.current != [] then Got(f.(current := f.current[1..]), f.current[0])
    else if f.pending == [] then Got(f, AT_EOF)
    else if f.pending[0] == [] then Got(f.(pending := f.pending[1..]), AT_EOF)
    else Got(f.(current := f.pending[0][1..], pending := f.pending[1..]), f.pending[0][0])
  }

  /** input.h:24-35 */
  function Get(f: Feed): Got {
    var g := Next(f);
    if g.ch == NEWLINE then g.(feed := g.feed.(lineNr := g.feed.lineNr + 1)) else g
  }

  /** input.h:36-43 */
  function ReRead(f: Feed, ch: int): Feed {
    if 0 <= ch < 0x100 then
      f.(deque := [ch] + f.deque, lineNr := if ch == NEWLINE then f.lineNr - 1 else f.lineNr)
    else f
  }

  /** A char of a std::string converted to size_t: the sign is extended. */
  function AsSize(b: byte): int {
    if b < 0x80 then b else b - 256 + 0x1_0000_0000_0000_0000
  }

  /** input.h:45-48 from the start of the text */
  function ReReadText(f: Feed, text: seq<byte>): Feed
    decreases |text|
  {
    if text == [] then f else ReReadText(ReRead(f, AsSize(text[|text| - 1])), text[..|text| - 1])
  }

  function Newlines(s: seq<byte>): nat {
    if s == [] then 0 else (if s[|s| - 1] == NEWLINE then 1 else 0) + Newlines(s[..|s| - 1])
  }

  function Ascii(s: seq<byte>): seq<byte> {
    if s == [] then [] else Ascii(s[..|s| - 1]) + if s[|s| - 1] < 0x80 then [s[|s| - 1]] else []
  }

  predicate AllAscii(s: seq<byte>) {
    forall i :: 0 <= i < |s| ==> s[i] < 0x80
  }

  /** An empty chunk reads as the end once; it is used up by that, and reading goes on with the chunk behind it. */
  lemma EmptyChunkIsUsedUp(f: Feed)
    requires f.deque == [] && f.current == [] && f.pending != [] && f.pending[0] == []
    ensures Get(f).ch == AT_EOF && Get(f).feed == f.(pending := f.pending[1..])
    ensures Remaining(Get(f).feed) == Remaining(f)
  {
  }

  // ----- one call

  /** get returns the next byte and takes it off; the line number counts the newlines taken. */
  lemma GetTakesOne(f: Feed)
    requires NoEmptyChunk(f)
    ensures NoEmptyChunk(Get(f).feed)
    ensures Remaining(f) == [] ==> Get(f) == Got(f, AT_EOF)
    ensures Remaining(f) != [] ==>
      var r, g := Remaining(f), Get(f);
      && g.ch == r[0] && Remaining(g.feed) == r[1..]
      && g.feed.lineNr == f.lineNr + (if r[0] == NEWLINE then 1 else 0)
  {
    var g := Get(f);
    if f.deque != [] {
      assert Remaining(f)[1..] == f.deque[1..] + (f.current + Concat(f.pending));
    } else if f.current != [] {
      assert Remaining(f) == f.current + Concat(f.pending);
      assert Remaining(f)[1..] == f.current[1..] + Concat(f.pending);
      assert Remaining(g.feed) == f.current[1..] + Concat(f.pending);
    } else if f.pending != [] {
      var c, rest := f.pending[0], Concat(f.pending[1..]);
      assert Remaining(f) == c + rest;
      assert (c + rest)[1..] == c[1..] + rest == Remaining(g.feed);
    } else {
      assert Remaining(f) == [];
    }
  }

  /** The end is reported too early exactly when the next chunk is empty. */
  lemma EarlyEndExactly(f: Feed)
    requires Remaining(f) != []
    ensures Get(f).ch == AT_EOF <==> f.deque == [] && f.current == [] && f.pending != [] && f.pending[0] == []
  {
    assert f.deque == [] && f.current == [] && f.pending == [] ==> Remaining(f) == [];
  }

  /** Re-reading a text puts its characters below 0x80 in front; the others are lost. */
  lemma {:induction false} ReReadPutsBack(f: Feed, text: seq<byte>)
    ensures Same(Remaining(ReReadText(f, text)), Ascii(text) + Remaining(f))
    ensures ReReadText(f, text).lineNr == f.lineNr - Newlines(text)
    ensures ReReadText(f, text).pending == f.pending
    decreases |text|
  {
    var r := Remaining(f);
    if text == [] {
      assert [] + r == r;
    } else {
      var last, rest := text[|text| - 1], text[..|text| - 1];
      var f' := ReRead(f, AsSize(last));
      ReReadPutsBack(f', rest);
      if last < 0x80 {
        assert Remaining(f') == [last] + r;
        Associates(Ascii(rest), [last], r);
      } else {
        assert Ascii(rest) + [] == Ascii(rest);
      }
    }
  }

  lemma {:induction false} AsciiOfAscii(s: seq<byte>)
    ensures |Ascii(s)| <= |s| && (Ascii(s) == s <==> AllAscii(s))
    decreases |s|
  {
    if s != [] {
      var rest, last := s[..|s| - 1], s[|s| - 1];
      AsciiOfAscii(rest);
      assert s == rest + [last];
      if last < 0x80 {
        assert Ascii(s) == s <==> Ascii(rest) == rest by {
          assert Ascii(s)[..|Ascii(rest)|] == Ascii(rest);
        }
        assert AllAscii(s) <==> AllAscii(rest);
      }
    }
  }

  /** Text is put back unharmed exactly when all its bytes are below 0x80. */
  lemma ReReadRestoresExactly(f: Feed, text: seq<byte>)
    ensures Remaining(ReReadText(f, text)) == text + Remaining(f) <==> AllAscii(text)
  {
    ReReadPutsBack(f, text);
    AsciiOfAscii(text);
    var r := Remaining(f);
    if Ascii(text) + r == text + r {
      assert |Ascii(text)| == |text|;
      assert (Ascii(text) + r)[..|text|] == Ascii(text) && (text + r)[..|text|] == text;
    }
  }

  // ----- any interleaving

  /** The scanner reads a character, or puts back the last ones it has read. */
  datatype Action = GetOne | PutBack(n: nat)

  datatype Scan = Scan(feed: Feed, consumed: seq<byte>, chars: seq<int>)

  function Act(s: Scan, a: Action): Scan {
    match a
    case GetOne =>
      var g := Get(s.feed);
      Scan(g.feed, if 0 <= g.ch < 0x100 then s.consumed + [g.ch] else s.consumed, s.chars + [g.ch])
    case PutBack(n) =>
      var k := if n <= |s.consumed| then |s.consumed| - n else 0;
      Scan(ReReadText(s.feed, s.consumed[k..]), s.consumed[..k], s.chars)
  }

  function Run(s: Scan, actions: seq<Action>): Scan
    decreases |actions|
  {
    if actions == [] then s else Run(Act(s, actions[0]), actions[1..])
  }

  /** The same actions on the whole stream in memory: a position and the characters seen. */
  datatype Cursor = Cursor(pos: nat, chars: seq<int>)

  function Move(stream: seq<byte>, c: Cursor, a: Action): (r: Cursor)
    requires c.pos <= |stream|
    ensures r.pos <= |stream|
  {
    match a
    case GetOne =>
      if c.pos < |stream| then Cursor(c.pos + 1, c.chars + [stream[c.pos]])
      else Cursor(c.pos, c.chars + [AT_EOF])
    case PutBack(n) => Cursor(if n <= c.pos then c.pos - n else 0, c.chars)
  }

  function Walk(stream: seq<byte>, c: Cursor, actions: seq<Action>): (r: Cursor)
    requires c.pos <= |stream|
    ensures r.pos <= |stream|
    decreases |actions|
  {
    if actions == [] then c else Walk(stream, Move(stream, c, actions[0]), actions[1..])
  }

  /** The scan stands at the cursor's place in the stream, in the right line. */
  predicate Stands(s: Scan, stream: seq<byte>, c: Cursor, firstLine: int) {
    && NoEmptyChunk(s.feed) && c.pos <= |stream|
    && s.consumed == stream[..c.pos] && Remaining(s.feed) == stream[c.pos..]
    && s.feed.lineNr == firstLine + Newlines(s.consumed) && s.chars == c.chars
  }

  lemma {:induction false} NewlinesSplit(a: seq<byte>, b: seq<byte>)
    ensures Newlines(a + b) == Newlines(a) + Newlines(b)
    decreases |b|
  {
    if b == [] {
      assert a + b == a;
    } else {
      assert (a + b)[..|a + b| - 1] == a + b[..|b| - 1];
      NewlinesSplit(a, b[..|b| - 1]);
    }
  }

  lemma GetStands(s: Scan, stream: seq<byte>, c: Cursor, firstLine: int)
    requires Stands(s, stream, c, firstLine)
    ensures Stands(Act(s, GetOne), stream, Move(stream, c, GetOne), firstLine)
  {
    GetTakesOne(s.feed);
    if c.pos < |stream| {
      assert stream[..c.pos + 1] == stream[..c.pos] + [stream[c.pos]];
      assert stream[c.pos..][1..] == stream[c.pos + 1..];
      NewlinesSplit(s.consumed, [stream[c.pos]]);
      assert Newlines([stream[c.pos]]) == if stream[c.pos] == NEWLINE then 1 else 0;
    }
  }

  lemma PutBackStands(s: Scan, stream: seq<byte>, c: Cursor, firstLine: int, n: nat)
    requires Stands(s, stream, c, firstLine) && AllAscii(stream)
    ensures Stands(Act(s, PutBack(n)), stream, Move(stream, c, PutBack(n)), firstLine)
  {
    var k := if n <= c.pos then c.pos - n else 0;
    var text := stream[k..c.pos];
    CutPrefix(stream, k, c.pos);
    AsciiOfAscii(text);
    ReReadPutsBack(s.feed, text);
    NewlinesSplit(stream[..k], text);
    assert s.consumed[k..] == text;
    assert Same(Remaining(ReReadText(s.feed, text)), stream[k..]);
  }

  lemma CutPrefix(stream: seq<byte>, k: nat, pos: nat)
    requires k <= pos <= |stream|
    ensures Same(stream[..pos][k..], stream[k..pos]) && Same(stream[..pos][..k], stream[..k])
    ensures Same(stream[k..pos] + stream[pos..], stream[k..]) && Same(stream[..k] + stream[k..pos], stream[..pos])
  {
    assert stream[..pos][k..] == stream[k..pos] && stream[..pos][..k] == stream[..k];
    assert stream[k..pos] + stream[pos..] == stream[k..] && stream[..k] + stream[k..pos] == stream[..pos];
  }

  lemma {:induction false} RunStands(s: Scan, stream: seq<byte>, c: Cursor, firstLine: int, actions: seq<Action>)
    requires Stands(s, stream, c, firstLine) && AllAscii(stream)
    ensures Stands(Run(s, actions), stream, Walk(stream, c, actions), firstLine)
    decreases |actions|
  {
    if actions != [] {
      match actions[0] {
        case GetOne => GetStands(s, stream, c, firstLine);
        case PutBack(n) => PutBackStands(s, stream, c, firstLine, n);
      }
      RunStands(Act(s, actions[0]), stream, Move(stream, c, actions[0]), firstLine, actions[1..]);
    }
  }

  /** A scan of the given chunks, before the first character. */
  function Start(chunks: seq<seq<byte>>): Scan {
    Scan(Feed([], [], chunks, 1), [], [])
  }

  /**
    Packet boundaries do not matter: however the stream is cut into chunks, any interleaving of get
    and reRead yields the characters of the stream, and the line number is one more than the
    newlines consumed and not put back.
   */
  lemma SegmentationIndependence(chunks: seq<seq<byte>>, actions: seq<Action>)
    requires (forall i :: 0 <= i < |chunks| ==> chunks[i] != []) && AllAscii(Concat(chunks))
    ensures var s, c := Run(Start(chunks), actions), Walk(Concat(chunks), Cursor(0, []), actions);
      && s.chars == c.chars && s.consumed == Concat(chunks)[..c.pos]
      && s.feed.lineNr == 1 + Newlines(Concat(chunks)[..c.pos])
  {
    var stream := Concat(chunks);
    assert [] + ([] + stream) == stream == stream[0..];
    RunStands(Start(chunks), stream, Cursor(0, []), 1, actions);
  }

  // ----- the object

  class Input {
    var deque: seq<byte>
    var open: bool
    var current: seq<byte>
    var pending: seq<seq<byte>>   // what the communicator will hand out
    var lineNr: int

    /** input.h:12-16: the stream passed holds only the communicator's address, which resolve() reads. */
    constructor (pending: seq<seq<byte>>)
      ensures open && Value() == Feed([], [], pending, 1)
    {
      deque, open, current, this.pending, lineNr := [], true, [], pending, 1;
    }

    function Value(): Feed
      reads this
    {
      Feed(deque, current, pending, lineNr)
    }

    method NextChar() returns (ch: int)
      modifies this`deque, this`current, this`pending
      ensures open == old(open)
      ensures open || old(deque) != [] ==> Got(Value(), ch) == Next(old(Value()))
      ensures !open && old(deque) == [] ==> ch == AT_EOF && Value() == old(Value())
    {
      if |deque| == 0 {
        if !open {
          return AT_EOF;
        }
        var good := |current| > 0;
        if good {
          ch := current[0];
          current := current[1..];
        } else if |pending| > 0 {
          current := pending[0];
          pending := pending[1..];
          good := |current| > 0;
          if good {
            ch := current[0];
            current := current[1..];
          }
        }
        return if good then ch else AT_EOF;
      }
      ch := deque[0];
      deque := deque[1..];
    }

    method GetChar() returns (ch: int)
      modifies this`deque, this`current, this`pending, this`lineNr
      ensures open == old(open)
      ensures open || old(deque) != [] ==> Got(Value(), ch) == Get(old(Value()))
      ensures !open && old(deque) == [] ==> ch == AT_EOF && Value() == old(Value())
    {
      ch := NextChar();
      if ch == NEWLINE {
        lineNr := lineNr + 1;
      }
    }

    method ReReadChar(ch: int)
      modifies this`deque, this`lineNr
      ensures Value() == ReRead(old(Value()), ch)
    {
      if 0 <= ch < 0x100 {
        if ch == NEWLINE {
          lineNr := lineNr - 1;
        }
        deque := [ch] + deque;
      }
    }

    method ReReadFrom(str: seq<byte>, fmIdx: nat)
      requires fmIdx <= |str|
      modifies this`deque, this`lineNr
      ensures Value() == ReReadText(old(Value()), str[fmIdx..])
    {
      var idx := |str|;
      assert str[fmIdx..idx] == str[fmIdx..];
      while idx > fmIdx
        invariant fmIdx <= idx <= |str|
        invariant ReReadText(Value(), str[fmIdx..idx]) == ReReadText(old(Value()), str[fmIdx..])
      {
        idx := idx - 1;
        assert str[fmIdx..idx + 1][..idx - fmIdx] == str[fmIdx..idx];
        ReReadChar(AsSize(str[idx]));
      }
    }

    method Close()
      modifies this`open, this`current
      ensures !open && deque == old(deque)
    {
      open, current := false, [];
    }
  }
}
