/**
  Chunked bodies (section 4.1 of RFC 7230, without extensions and trailers), and the tail that
  HTTPParser::getContentLengthExceed makes (http/HTTPParser.h:30-40): `TailDecodesExactly` says
  where the tail must start for the body to decode to what it should.
 */
module Chunks {
  import opened Words
  import opened Numerals
  import opened Parsers

  // ----- decoding

  predicate StartsWith(s: string, prefix: string) {
    |prefix| <= |s| && s[..|prefix|] == prefix
  }

  /** A sequence of chunks up to the last one: the size in hexadecimal, CRLF, and what DecodeData reads. */
  function Decode(s: string): Option<string>
    decreases |s|, 0
  {
    var k := DigitPrefix(s, 16);
    if k == 0 || !StartsWith(s[k..], CRLF) then None else DecodeData(Value(s[..k], 16), s[k + 2..])
  }

  /** The data of a chunk of the given size, CRLF, and the chunks behind it; size 0 is the last chunk. */
  function DecodeData(size: nat, s: string): Option<string>
    decreases |s|, 1
  {
    if size == 0 then if s == CRLF then Some("") else None
    else if |s| < size + 2 || s[size..size + 2] != CRLF then None
    else Before(s[..size], Decode(s[size + 2..]))
  }

  function Before(data: string, more: Option<string>): Option<string> {
    match more
    case None => None
    case Some(text) => Some(data + text)
  }

  lemma HexThenOther(hex: string, rest: string)
    requires hex != "" && AllDigits(hex, 16)
    ensures var s := hex + (CRLF + rest);
      DigitPrefix(s, 16) == |hex| && Same(s[..|hex|], hex) && StartsWith(s[|hex|..], CRLF) && Same(s[|hex| + 2..], rest)
  {
    DigitsThenOther(hex, CRLF + rest, 16);
    var s := hex + (CRLF + rest);
    assert s[..|hex|] == hex && s[|hex|..] == CRLF + rest && s[|hex| + 2..] == rest;
    assert (CRLF + rest)[..2] == CRLF;
  }

  lemma {:induction false} DigitsThenOther(digits: string, other: string, base: nat)
    requires AllDigits(digits, base) && (other == "" || !IsDigit(other[0], base))
    ensures DigitPrefix(digits + other, base) == |digits|
    decreases |digits|
  {
    if digits != "" {
      assert (digits + other)[1..] == digits[1..] + other;
      DigitsThenOther(digits[1..], other, base);
    } else {
      assert digits + other == other;
    }
  }

  lemma DecodeSize(size: nat, rest: string)
    ensures Same(Decode(Print(size, 16) + (CRLF + rest)), DecodeData(size, rest))
  {
    ValueOfPrint(size, 16);
    HexThenOther(Print(size, 16), rest);
  }

  lemma DataThenOther(data: string, rest: string)
    ensures var s := data + (CRLF + rest);
      && |s| == |data| + 2 + |rest| && s[|data|..|data| + 2] == CRLF
      && Same(s[..|data|], data) && Same(s[|data| + 2..], rest)
  {
    var s := data + (CRLF + rest);
    assert s[..|data|] == data && s[|data| + 2..] == rest;
  }

  /** The last chunk and the end. */
  lemma DecodeLast()
    ensures Decode(END_OF_CHUNKS) == Some("")
  {
    DecodeSize(0, CRLF);
  }

  /** One chunk in front of other chunks. */
  lemma DecodeChunk(data: string, rest: string)
    requires data != ""
    ensures Decode(Print(|data|, 16) + (CRLF + (data + (CRLF + rest)))) == Before(data, Decode(rest))
  {
    DecodeSize(|data|, data + (CRLF + rest));
    DataThenOther(data, rest);
  }

  lemma ExceedIsChunk(content: string)
    requires content != ""
    ensures Same(HttpExceed(content), CRLF + (Print(|content|, 16) + (CRLF + (content + LAST_CHUNK))))
  {
    Regroup(CRLF, Print(|content|, 16), CRLF, content, LAST_CHUNK);
  }

  lemma Regroup(a: string, b: string, c: string, d: string, e: string)
    ensures Same(a + b + c + d + e, a + (b + (c + (d + e))))
  {
    Associates(a, b, c);
    Associates(a, b + c, d);
    Associates(b, c, d);
    Associates(a, b + (c + d), e);
    Associates(b, c + d, e);
    Associates(c, d, e);
  }

  /** The tail that getContentLengthExceed appends closes the first chunk and carries the excess. */
  lemma DecodeWithTail(first: string, excess: string)
    requires first != ""
    ensures Decode(Print(|first|, 16) + (CRLF + (first + HttpExceed(excess)))) == Some(first + excess)
  {
    DecodeLast();
    if excess == "" {
      DecodeChunk(first, END_OF_CHUNKS);
    } else {
      ExceedIsChunk(excess);
      DecodeChunk(excess, END_OF_CHUNKS);
      EmptyIsNeutral(excess);
      DecodeChunk(first, Print(|excess|, 16) + (CRLF + (excess + LAST_CHUNK)));
    }
  }

  // ----- how long a coded text is

  /** The number of digits that are needed. */
  function HexLen(n: nat): (r: nat)
    ensures r >= 1
  {
    if n < 16 then 1 else HexLen(n / 16) + 1
  }

  lemma {:induction false} PrintLength(n: nat)
    ensures |Print(n, 16)| == HexLen(n)
  {
    if n >= 16 {
      PrintLength(n / 16);
    }
  }

  lemma {:induction false} HexLenGrows(a: nat, b: nat)
    requires a <= b
    ensures HexLen(a) <= HexLen(b)
  {
    if a >= 16 {
      HexLenGrows(a / 16, b / 16);
    }
  }

  /** A sum needs at most one digit more than the longer of its parts. */
  lemma {:induction false} HexLenOfSum(a: nat, b: nat, n: nat)
    requires n <= a + b + 1
    ensures HexLen(n) <= (if HexLen(a) < HexLen(b) then HexLen(b) else HexLen(a)) + 1
    decreases a + b
  {
    if a < 16 && b < 16 {
      HexLenGrows(n, 31);
    } else if n >= 16 {
      HexLenOfSum(a / 16, b / 16, n / 16);
    }
  }

  /** Leading zeros aside, digits are no fewer than their value needs. */
  lemma {:induction false} HexLenOfValue(s: string)
    requires AllDigits(s, 16) && s != ""
    ensures HexLen(Value(s, 16)) <= |s|
    decreases |s|
  {
    var front := s[..|s| - 1];
    if front != "" {
      HexLenOfValue(front);
    }
    var v, d := Value(front, 16), DigitValue(s[|s| - 1]);
    assert Value(s, 16) == v * 16 + d;
    assert (v * 16 + d) / 16 == v;
  }

  /** What coding adds to a text: five bytes to none, and to others at least what one single chunk adds. */
  lemma {:induction false} Overhead(s: string, t: string)
    requires Decode(s) == Some(t)
    ensures if t == "" then |s| >= 5 else |s| >= |t| + HexLen(|t|) + 9
    decreases |s|
  {
    var k := DigitPrefix(s, 16);
    var size, rest := Value(s[..k], 16), s[k + 2..];
    if size > 0 {
      var more := Decode(rest[size + 2..]).value;
      Overhead(rest[size + 2..], more);
      HexLenOfValue(s[..k]);
      if more != "" {
        HexLenOfSum(size, |more|, |t|);
      }
    }
  }

  lemma DataOverhead(size: nat, s: string, t: string)
    requires size > 0 && DecodeData(size, s) == Some(t)
    ensures |s| >= size + 7 && |t| + 7 <= |s|
  {
    Overhead(s[size + 2..], Decode(s[size + 2..]).value);
  }

  // ----- size lines inside a text

  /** CRLF, hexadecimal digits, CRLF: n bytes from lo on. */
  predicate LineAt(x: string, lo: nat, n: nat) {
    && 5 <= n && lo + n <= |x|
    && x[lo] == '\r' && x[lo + 1] == '\n' && x[lo + n - 2] == '\r' && x[lo + n - 1] == '\n'
    && forall i :: lo + 2 <= i < lo + n - 2 ==> IsDigit(x[i], 16)
  }

  function LineSize(x: string, lo: nat, n: nat): nat
    requires LineAt(x, lo, n)
  {
    var hex := x[lo + 2..lo + n - 2];
    assert forall i :: 0 <= i < |hex| ==> hex[i] == x[lo + 2 + i];
    Value(hex, 16)
  }

  lemma LineIsUnique(x: string, lo: nat, n: nat, m: nat)
    requires LineAt(x, lo, n) && LineAt(x, lo, m)
    ensures n == m
  {
    assert !IsDigit(x[lo + n - 2], 16) && !IsDigit(x[lo + m - 2], 16);
  }

  lemma LineIsText(x: string, lo: nat, n: nat, hex: string)
    requires LineAt(x, lo, n) && hex == x[lo + 2..lo + n - 2]
    ensures hex != "" && AllDigits(hex, 16) && Same(x[lo + 2..], hex + (CRLF + x[lo + n..]))
  {
    forall i | 0 <= i < |hex| ensures IsDigit(hex[i], 16) {
      assert hex[i] == x[lo + 2 + i];
    }
    assert x[lo + 2..] == hex + (CRLF + x[lo + n..]);
  }

  /** From a size line on: the size, and the data behind the line. */
  lemma DecodeAtLine(x: string, lo: nat, n: nat)
    requires LineAt(x, lo, n)
    ensures Decode(x[lo + 2..]) == DecodeData(LineSize(x, lo, n), x[lo + n..])
  {
    var hex := x[lo + 2..lo + n - 2];
    LineIsText(x, lo, n, hex);
    HexThenOther(hex, x[lo + n..]);
  }

  /** What decodes behind CRLF starts with a size line. */
  lemma LineOfDecoded(x: string, lo: nat) returns (n: nat)
    requires lo + 2 <= |x| && x[lo] == '\r' && x[lo + 1] == '\n' && Decode(x[lo + 2..]).Some?
    ensures LineAt(x, lo, n)
  {
    var s := x[lo + 2..];
    var k := DigitPrefix(s, 16);
    n := k + 4;
    assert s[k..][..2] == CRLF;
    assert s[k] == s[k..][..2][0] && s[k + 1] == s[k..][..2][1];
    forall i | lo + 2 <= i < lo + n - 2 ensures IsDigit(x[i], 16) {
      assert x[i] == s[..k][i - lo - 2];
    }
  }

  predicate Periodic(x: string, lo: nat, hi: nat, n: nat) {
    hi + n <= |x| && forall i :: lo <= i < hi ==> x[i + n] == x[i]
  }

  lemma LineRepeats(x: string, lo: nat, n: nat, hi: nat)
    requires LineAt(x, lo, n) && Periodic(x, lo, hi, n) && lo + n <= hi
    ensures LineAt(x, lo + n, n) && LineSize(x, lo + n, n) == LineSize(x, lo, n)
  {
    forall i | lo + n + 2 <= i < lo + n + n - 2 ensures IsDigit(x[i], 16) {
      assert x[(i - n) + n] == x[i - n];
    }
    assert x[lo + n + 2..lo + n + n - 2] == x[lo + 2..lo + n - 2];
  }

  /**
    A size line is repeated up to hi, and at hi stands a carriage return, with a digit two bytes on:
    then another copy of the line starts there, for a line overlaps itself nowhere else.
   */
  lemma {:induction false} LineOverlapsItself(x: string, lo: nat, hi: nat, n: nat)
    requires LineAt(x, lo, n) && Periodic(x, lo, hi, n) && lo < hi
    requires x[hi] == '\r' && IsDigit(x[hi + 2], 16)
    ensures LineAt(x, hi, n) && LineSize(x, hi, n) == LineSize(x, lo, n)
    decreases hi - lo
  {
    if lo + n < hi {
      LineRepeats(x, lo, n, hi);
      LineOverlapsItself(x, lo + n, hi, n);
    } else if lo + n == hi {
      LineRepeats(x, lo, n, hi);
    }
  }

  // ----- where the tail starts

  /** A body b cut at the position, with the tail of getContentLengthExceed behind the cut. */
  function Tailed(b: string, at: nat): string {
    if at <= |b| then b[..at] + HttpExceed(b[at..]) else b
  }

  predicate StandsAt(x: string, at: nat, text: string) {
    at + |text| <= |x| && forall i {:trigger text[i]} :: 0 <= i < |text| ==> x[at + i] == text[i]
  }

  /** x is the body with a tail in which a size line of n bytes stands at the cut. */
  predicate TailLine(x: string, b: string, at: nat, n: nat) {
    && at < |b| && |x| == |b| + n + 7 && n == HexLen(|b| - at) + 4
    && LineAt(x, at, n) && LineSize(x, at, n) == |b| - at
    && (forall i :: 0 <= i < at ==> x[i] == b[i])
    && (forall i :: at <= i < |b| ==> x[i + n] == b[i])
  }

  lemma TailedText(b: string, at: nat, hex: string)
    requires at < |b| && hex == Print(|b| - at, 16)
    ensures Same(Tailed(b, at), b[..at] + (CRLF + (hex + (CRLF + (b[at..] + LAST_CHUNK)))))
  {
    ExceedIsChunk(b[at..]);
  }

  lemma LineBetween(x: string, a: string, hex: string, c: string, n: nat)
    requires hex != "" && AllDigits(hex, 16) && n == |hex| + 4
    requires Same(x, a + (CRLF + (hex + (CRLF + (c + LAST_CHUNK)))))
    ensures |x| == |a| + n + |c| + 7 && LineAt(x, |a|, n) && LineSize(x, |a|, n) == Value(hex, 16)
    ensures StandsAt(x, 0, a) && StandsAt(x, |a| + n, c)
  {
    forall i | |a| + 2 <= i < |a| + n - 2 ensures IsDigit(x[i], 16) {
      assert x[i] == hex[i - |a| - 2];
    }
    assert x[|a| + 2..|a| + n - 2] == hex;
  }

  lemma StandsIn(x: string, b: string, at: nat, n: nat)
    requires at < |b| && StandsAt(x, 0, b[..at]) && StandsAt(x, at + n, b[at..])
    ensures forall i :: 0 <= i < at ==> x[i] == b[i]
    ensures |b| + n <= |x| && forall i :: at <= i < |b| ==> x[i + n] == b[i]
  {
    forall i | 0 <= i < at ensures x[i] == b[i] {
      assert x[0 + i] == b[..at][i];
    }
    forall i | at <= i < |b| ensures x[i + n] == b[i] {
      assert x[at + n + (i - at)] == b[at..][i - at];
    }
  }

  /** The tail of a body that goes on behind the cut. */
  lemma TailedHasLine(b: string, at: nat) returns (n: nat)
    requires at < |b|
    ensures TailLine(Tailed(b, at), b, at, n)
  {
    var hex := Print(|b| - at, 16);
    ValueOfPrint(|b| - at, 16);
    PrintLength(|b| - at);
    TailedText(b, at, hex);
    n := |hex| + 4;
    LineBetween(Tailed(b, at), b[..at], hex, b[at..], n);
    StandsIn(Tailed(b, at), b, at, n);
  }

  /** What it means that the data decodes to the body. */
  lemma DecodedParts(len: nat, x: string, b: string)
    requires len > 0 && DecodeData(len, x) == Some(b)
    ensures len + 2 <= |x| && x[len] == '\r' && x[len + 1] == '\n'
    ensures len <= |b| && StandsAt(x, 0, b[..len]) && Decode(x[len + 2..]) == Some(b[len..])
  {
    assert x[len..len + 2][0] == '\r' && x[len..len + 2][1] == '\n';
    var more := Decode(x[len + 2..]).value;
    assert b == x[..len] + more;
    assert b[..len] == x[..len] && b[len..] == more;
  }

  /** The tail starts before the declared length is full: the text would have to run into its own size line. */
  lemma CutTooEarly(len: nat, b: string, at: nat, x: string, n: nat)
    requires at < len <= |b| && TailLine(x, b, at, n)
    ensures DecodeData(len, x) != Some(b)
  {
    if DecodeData(len, x) == Some(b) {
      DecodedParts(len, x, b);
      EarlyNeverDecodes(len, b, at, x, n);
    }
  }

  lemma EarlyNeverDecodes(len: nat, b: string, at: nat, x: string, n: nat)
    requires at < len <= |b| && TailLine(x, b, at, n) && StandsAt(x, 0, b[..len])
    requires x[len] == '\r' && x[len + 1] == '\n'
    ensures Decode(x[len + 2..]) != Some(b[len..])
  {
    if Decode(x[len + 2..]) == Some(b[len..]) {
      var m := LineOfDecoded(x, len);
      EarlyIsPeriodic(len, b, at, x, n);
      LineOverlapsItself(x, at, len, n);
      TooShort(|b| - at, x[len + n..]);
      DecodeAtLine(x, len, n);
    }
  }

  lemma TooShort(size: nat, s: string)
    requires 0 < size && |s| < size + 7
    ensures DecodeData(size, s) == None
  {
    if DecodeData(size, s) != None {
      DataOverhead(size, s, DecodeData(size, s).value);
    }
  }

  lemma EarlyIsPeriodic(len: nat, b: string, at: nat, x: string, n: nat)
    requires at < len <= |b| && TailLine(x, b, at, n) && StandsAt(x, 0, b[..len])
    ensures Periodic(x, at, len, n)
  {
    forall i | at <= i < len ensures x[i + n] == x[i] {
      assert x[0 + i] == b[..len][i];
    }
  }

  /** The tail starts behind the end of the declared length, at the end of the body. */
  lemma CutTooLateAtEnd(len: nat, b: string, x: string)
    requires 0 < len < |b| && x == Tailed(b, |b|)
    ensures DecodeData(len, x) != Some(b)
  {
    assert b[..|b|] == b && b[|b|..] == "";
    if DecodeData(len, x) == Some(b) {
      DecodedParts(len, x, b);
      Overhead(x[len + 2..], b[len..]);
    }
  }

  /** A text coded with no more bytes than one chunk needs is coded in one chunk. */
  lemma OneChunkOnly(size: nat, rest: string, t: string, k: nat, e: nat)
    requires DecodeData(size, rest) == Some(t) && t != "" && HexLen(size) <= k && e <= |t|
    requires |rest| + k + 2 <= |t| + HexLen(e) + 9
    ensures size == |t| && StandsAt(rest, 0, t)
  {
    HexLenGrows(e, |t|);
    var more := Decode(rest[size + 2..]).value;
    Overhead(rest[size + 2..], more);
    if more != "" {
      HexLenOfSum(size, |more|, |t|);
    } else {
      EmptyIsNeutral(rest[..size]);
    }
  }

  /** The tail starts behind the end of the declared length, inside the body. */
  lemma CutTooLate(len: nat, b: string, at: nat, x: string, n: nat)
    requires 0 < len < at < |b| && TailLine(x, b, at, n)
    ensures DecodeData(len, x) != Some(b)
  {
    if DecodeData(len, x) == Some(b) {
      DecodedParts(len, x, b);
      LateNeverDecodes(len, b, at, x, n);
    }
  }

  lemma LateNeverDecodes(len: nat, b: string, at: nat, x: string, n: nat)
    requires len < at < |b| && TailLine(x, b, at, n) && x[len] == '\r' && x[len + 1] == '\n'
    ensures Decode(x[len + 2..]) != Some(b[len..])
  {
    if Decode(x[len + 2..]) == Some(b[len..]) {
      var m := LineOfDecoded(x, len);
      LateIsOneChunk(len, b, at, x, n, m);
      LateIsPeriodic(len, b, at, x, n, m);
      LineOverlapsItself(x, len, at, m);
      LineIsUnique(x, at, m, n);
    }
  }

  lemma LateIsOneChunk(len: nat, b: string, at: nat, x: string, n: nat, m: nat)
    requires len < at < |b| && TailLine(x, b, at, n) && LineAt(x, len, m) && Decode(x[len + 2..]) == Some(b[len..])
    ensures LineSize(x, len, m) == |b| - len && StandsAt(x[len + m..], 0, b[len..])
  {
    DecodeAtLine(x, len, m);
    var hex := x[len + 2..len + m - 2];
    LineIsText(x, len, m, hex);
    HexLenOfValue(hex);
    OneChunkOnly(LineSize(x, len, m), x[len + m..], b[len..], m - 4, |b| - at);
  }

  lemma LateIsPeriodic(len: nat, b: string, at: nat, x: string, n: nat, m: nat)
    requires len < at < |b| && TailLine(x, b, at, n) && len + m <= |x| && StandsAt(x[len + m..], 0, b[len..])
    ensures Periodic(x, len, at, m) && x[at] == '\r' && IsDigit(x[at + 2], 16)
  {
    assert |b[len..]| <= |x[len + m..]|;
    forall i | len <= i < at ensures x[i + m] == x[i] {
      assert x[len + m..][0 + (i - len)] == b[len..][i - len];
    }
  }

  /** The tail starts where the declared length is full. */
  lemma CutExactly(len: nat, b: string)
    requires 0 < len <= |b|
    ensures DecodeData(len, Tailed(b, len)) == Some(b)
  {
    DataWithTail(b[..len], b[len..]);
    Halves(b, len);
  }

  lemma DataWithTail(first: string, excess: string)
    requires first != ""
    ensures DecodeData(|first|, first + HttpExceed(excess)) == Some(first + excess)
  {
    DecodeWithTail(first, excess);
    DecodeSize(|first|, first + HttpExceed(excess));
  }

  lemma NoTailFails(len: nat, b: string)
    requires len > 0
    ensures DecodeData(len, b) != Some(b)
  {
    if DecodeData(len, b) == Some(b) {
      DataOverhead(len, b, b);
    }
  }

  /**
    Behind a size line for len bytes, a body with a tail put in at some place decodes to the body if
    and only if that place is the end of the first len bytes and the body is that long.
   */
  lemma TailDecodesExactly(len: nat, b: string, at: nat)
    requires len > 0
    ensures DecodeData(len, Tailed(b, at)) == Some(b) <==> at == len && len <= |b|
  {
    if at > |b| {
      NoTailFails(len, b);
    } else if at == len {
      CutExactly(len, b);
    } else if at == |b| && len < at {
      CutTooLateAtEnd(len, b, Tailed(b, at));
    } else if |b| < len {
      BodyTooShort(len, b, Tailed(b, at));
    } else {
      var n := TailedHasLine(b, at);
      if at > len {
        CutTooLate(len, b, at, Tailed(b, at), n);
      } else {
        CutTooEarly(len, b, at, Tailed(b, at), n);
      }
    }
  }

  lemma BodyTooShort(len: nat, b: string, x: string)
    requires |b| < len
    ensures DecodeData(len, x) != Some(b)
  {
    if DecodeData(len, x) == Some(b) {
      DecodedParts(len, x, b);
    }
  }
}
