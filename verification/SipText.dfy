/**
  The text of a rewritten SIP message, read from left to right: which text stands where, without
  operations. SipRepair's operations make exactly this text.
 */
module SipText {
  import opened Words
  import opened Operations
  import opened Splicing
  import opened Numerals
  import opened SipRepair

  function OneIn(s: string, i: int, x: string, rest: string): string
    requires 0 <= i <= |s|
  {
    s[..i] + x + rest
  }

  /** x in the place of what stands from i to j, y behind the text from j to k, and the rest. */
  function TwoIn(s: string, i: int, j: int, k: int, x: string, y: string, rest: string): string
    requires 0 <= i <= j <= k <= |s|
  {
    s[..i] + x + s[j..k] + y + rest
  }

  // ----- the header

  /** Header lines: in a Via or Contact header the mapped address and port stand in the place of the client's. */
  function NewHeader(s: string, lines: seq<Line>, lo: int): string
    requires HeadersFrom(lines, lo, lo + |s|)
    decreases |lines|
  {
    if lines == [] then s
    else
      match lines[0]
      case Header(_, value) => s[..value.posEnd - lo] + NewHeader(s[value.posEnd - lo..], lines[1..], value.posEnd)
      case Address(ip, port, to) =>
        TwoIn(s, ip.pos - lo, ip.posEnd - lo, port.pos - lo, to.ip, to.port,
              NewHeader(s[port.posEnd - lo..], lines[1..], port.posEnd))
      case Other => NewHeader(s, lines[1..], lo)
  }

  /** Two replacements in front of others; the ranges are i to j and k to q of the text, which starts at lo. */
  lemma TwoReplaced(s: string, a: Operation, b: Operation, rest: seq<Operation>, lo: int, i: nat, j: nat, k: nat, q: nat,
                    end: int, newRest: string)
    requires i <= j <= k <= q <= |s| && a.start == lo + i && a.end == lo + j && b.start == lo + k && b.end == lo + q == end
    requires Fits(rest, end, lo + |s|) && Same(newRest, Splice(s[q..], rest, end))
    ensures Fits([a] + ([b] + rest), lo, lo + |s|)
    ensures Same(Splice(s, [a] + ([b] + rest), lo), TwoIn(s, i, j, k, a.newdata, b.newdata, newRest))
  {
    OneReplaced(s[j..], b, rest, lo + j, k - j, q - j, newRest);
    OneReplaced(s, a, [b] + rest, lo, i, j, OneIn(s[j..], k - j, b.newdata, newRest));
    assert s[j..][..k - j] == s[j..k];
    FiveTexts(s[..i], a.newdata, s[j..k], b.newdata, newRest);
  }

  /** One replacement in front of others. */
  lemma OneReplaced(s: string, a: Operation, rest: seq<Operation>, lo: int, i: nat, j: nat, newRest: string)
    requires i <= j <= |s| && a.start == lo + i && a.end == lo + j && Fits(rest, lo + j, lo + |s|)
    requires Same(newRest, Splice(s[j..], rest, lo + j))
    ensures Fits([a] + rest, lo, lo + |s|)
    ensures Same(Splice(s, [a] + rest, lo), OneIn(s, i, a.newdata, newRest))
  {
    assert ([a] + rest)[1..] == rest;
    SpliceFromFront(s, [a] + rest, lo);
  }

  lemma FiveTexts(a: string, b: string, c: string, d: string, e: string)
    ensures Same(a + b + (c + d + e), a + b + c + d + e)
  {
    assert a + b + (c + d + e) == a + b + c + d + e;
  }

  lemma HeaderLineText(s: string, value: Token, rest: seq<Operation>, lo: int, hi: int)
    requires hi == lo + |s| && Within(value, lo, hi) && Fits(rest, value.posEnd, hi)
    ensures Fits(rest, lo, hi)
    ensures Same(Splice(s, rest, lo), s[..value.posEnd - lo] + Splice(s[value.posEnd - lo..], rest, value.posEnd))
  {
    Halves(s, value.posEnd - lo);
    SpliceCopies(s, s[..value.posEnd - lo], s[value.posEnd - lo..], rest, lo, value.posEnd);
  }

  /** The text s from lo to hi comes out as the new one. */
  ghost predicate MadeBy(ops: seq<Operation>, s: string, lo: int, hi: int, text: string) {
    hi == lo + |s| && Fits(ops, lo, hi) && Same(Splice(s, ops, lo), text)
  }

  /** Two tokens are replaced, and behind them the rest. */
  lemma TwoTokens(s: string, x: Token, y: Token, newX: string, newY: string, cnt: bool, rest: seq<Operation>,
                  lo: int, hi: int, q: int, newRest: string)
    requires hi == lo + |s| && Within(x, lo, hi) && Within(y, x.posEnd, hi) && q == y.posEnd - lo
    requires MadeBy(rest, s[q..], y.posEnd, hi, newRest)
    ensures MadeBy([Replace(x, newX, cnt), Replace(y, newY, cnt)] + rest, s, lo, hi,
                   TwoIn(s, x.pos - lo, x.posEnd - lo, y.pos - lo, newX, newY, newRest))
  {
    var a, b := Replace(x, newX, cnt), Replace(y, newY, cnt);
    assert [a, b] + rest == [a] + ([b] + rest);
    TwoReplaced(s, a, b, rest, lo, x.pos - lo, x.posEnd - lo, y.pos - lo, q, y.posEnd, newRest);
  }

  /** The operations of header lines make the new header. */
  lemma {:induction false} HeaderText(s: string, lines: seq<Line>, cIp: Token, lo: int, hi: int)
    requires hi == lo + |s| && HeadersFrom(lines, lo, hi)
    ensures MadeBy(LinesOps(lines, cIp), s, lo, hi, NewHeader(s, lines, lo))
    decreases |lines|, 1
  {
    if lines != [] {
      match lines[0]
      case Header(_, value) => HeaderTextHeader(s, lines, cIp, lo, hi, value);
      case Address(ip, port, to) => HeaderTextAddress(s, lines, cIp, lo, hi, ip, port, to);
      case Other =>
        HeaderText(s, lines[1..], cIp, lo, hi);
        assert LinesOps(lines, cIp) == LinesOps(lines[1..], cIp);
    }
  }

  lemma {:induction false} HeaderTextHeader(s: string, lines: seq<Line>, cIp: Token, lo: int, hi: int, value: Token)
    requires hi == lo + |s| && HeadersFrom(lines, lo, hi) && lines != [] && lines[0].Header? && value == lines[0].value
    ensures MadeBy(LinesOps(lines, cIp), s, lo, hi, NewHeader(s, lines, lo))
    decreases |lines|, 0
  {
    HeaderText(s[value.posEnd - lo..], lines[1..], cIp, value.posEnd, hi);
    HeaderLineText(s, value, LinesOps(lines[1..], cIp), lo, hi);
    assert LinesOps(lines, cIp) == LinesOps(lines[1..], cIp);
  }

  lemma {:induction false} HeaderTextAddress(s: string, lines: seq<Line>, cIp: Token, lo: int, hi: int,
                                             ip: Token, port: Token, to: Mapped)
    requires hi == lo + |s| && HeadersFrom(lines, lo, hi) && lines != [] && lines[0] == Address(ip, port, to)
    ensures MadeBy(LinesOps(lines, cIp), s, lo, hi, NewHeader(s, lines, lo))
    decreases |lines|, 0
  {
    var q := port.posEnd - lo;
    var newRest := NewHeader(s[q..], lines[1..], port.posEnd);
    HeaderText(s[q..], lines[1..], cIp, port.posEnd, hi);
    TwoTokens(s, ip, port, to.ip, to.port, false, LinesOps(lines[1..], cIp), lo, hi, q, newRest);
  }

  /** A Via or Contact header: mapped address and port between the texts that stood around the client's. */
  lemma AddressIsReplaced(a: string, ip: Token, b: string, port: Token, c: string, to: Mapped, text: string)
    requires ip.s != "" && port.s != "" && text == a + ip.s + b + port.s + c
    requires ip.pos == |a| && ip.posEnd == |a + ip.s| && port.pos == |a + ip.s + b| && port.posEnd == |a + ip.s + b + port.s|
    ensures HeadersFrom([Address(ip, port, to)], 0, |text|)
    ensures NewHeader(text, [Address(ip, port, to)], 0) == a + to.ip + b + to.port + c
    ensures Fits(LinesOps([Address(ip, port, to)], NoToken), 0, |text|)
    ensures Splice(text, LinesOps([Address(ip, port, to)], NoToken), 0) == a + to.ip + b + to.port + c
  {
    var lines := [Address(ip, port, to)];
    assert lines[1..] == [];
    assert text[..ip.pos] == a && text[ip.posEnd..port.pos] == b && text[port.posEnd..] == c;
    HeaderText(text, lines, NoToken, 0, |text|);
  }

  // ----- the session description

  /**
    Lines of the description, with an address cIp of a c= line for which no m= line has come yet: the
    family becomes IP4, the first m= line behind it gives the mapped address and its own mapped port.
   */
  function NewBody(s: string, lines: seq<Line>, cIp: Token, floor: int, lo: int): string
    requires BodyFrom(lines, lo, floor + |s|) && Remembers(cIp, floor, lo)
    decreases |lines|
  {
    if lines == [] then s
    else
      match lines[0]
      case Connection(family, ip) =>
        OneIn(s, family.pos - floor, "IP4",
              NewBody(s[family.posEnd - floor..], lines[1..], ip, family.posEnd, ip.posEnd))
      case Media(port, to) =>
        if cIp.s == "" then NewBody(s, lines[1..], cIp, floor, port.posEnd)
        else
          TwoIn(s, cIp.pos - floor, cIp.posEnd - floor, port.pos - floor, to.ip, to.port,
                NewBody(s[port.posEnd - floor..], lines[1..], NoToken, port.posEnd, port.posEnd))
      case Other => NewBody(s, lines[1..], cIp, floor, lo)
  }

  /** An address that has served its m= line records nothing any more. */
  lemma {:induction false} UsedIsForgotten(lines: seq<Line>, cIp: Token)
    requires OneMediaEach(lines, cIp, true) && cIp.s != ""
    ensures LinesOps(lines, cIp) == LinesOps(lines, NoToken) && OneMediaEach(lines, NoToken, false)
    decreases |lines|
  {
    if lines != [] {
      match lines[0]
      case Connection(_, ip) =>
      case Media(_, _) =>
      case _ => UsedIsForgotten(lines[1..], cIp);
    }
  }

  /** The operations of a description in which every address serves one m= line make the new body. */
  lemma {:induction false} BodyText(s: string, lines: seq<Line>, cIp: Token, floor: int, lo: int, hi: int)
    requires hi == floor + |s| && BodyFrom(lines, lo, hi) && Remembers(cIp, floor, lo) && OneMediaEach(lines, cIp, false)
    ensures MadeBy(LinesOps(lines, cIp), s, floor, hi, NewBody(s, lines, cIp, floor, lo))
    decreases |lines|, 1
  {
    if lines != [] {
      match lines[0]
      case Connection(family, ip) =>
        BodyText(s[family.posEnd - floor..], lines[1..], ip, family.posEnd, ip.posEnd, hi);
        FamilyReplaced(s, family, LinesOps(lines[1..], ip), LinesOps(lines, cIp), floor);
      case Media(port, to) =>
        if cIp.s == "" {
          BodyText(s, lines[1..], cIp, floor, port.posEnd, hi);
          assert LinesOps(lines, cIp) == LinesOps(lines[1..], cIp);
        } else {
          BodyTextMedia(s, lines, cIp, floor, lo, hi, port, to);
        }
      case Other =>
        BodyText(s, lines[1..], cIp, floor, lo, hi);
        assert LinesOps(lines, cIp) == LinesOps(lines[1..], cIp);
    }
  }

  lemma {:induction false} BodyTextMedia(s: string, lines: seq<Line>, cIp: Token, floor: int, lo: int, hi: int,
                                         port: Token, to: Mapped)
    requires hi == floor + |s| && BodyFrom(lines, lo, hi) && Remembers(cIp, floor, lo) && OneMediaEach(lines, cIp, false)
    requires lines != [] && lines[0] == Media(port, to) && cIp.s != ""
    ensures MadeBy(LinesOps(lines, cIp), s, floor, hi, NewBody(s, lines, cIp, floor, lo))
    decreases |lines|, 0
  {
    var q := port.posEnd - floor;
    var newRest := NewBody(s[q..], lines[1..], NoToken, port.posEnd, port.posEnd);
    UsedIsForgotten(lines[1..], cIp);
    BodyText(s[q..], lines[1..], NoToken, port.posEnd, port.posEnd, hi);
    TwoTokens(s, cIp, port, to.ip, to.port, true, LinesOps(lines[1..], NoToken), floor, hi, q, newRest);
  }

  lemma FamilyReplaced(s: string, family: Token, rest: seq<Operation>, ops: seq<Operation>, floor: int)
    requires floor <= family.pos < family.posEnd <= floor + |s| && Fits(rest, family.posEnd, floor + |s|)
    requires ops == [Replace(family, "IP4", true)] + rest
    ensures Fits(ops, floor, floor + |s|)
    ensures Same(Splice(s, ops, floor),
                 OneIn(s, family.pos - floor, "IP4", Splice(s[family.posEnd - floor..], rest, family.posEnd)))
  {
    OneReplaced(s, Replace(family, "IP4", true), rest, floor, family.pos - floor, family.posEnd - floor,
                Splice(s[family.posEnd - floor..], rest, family.posEnd));
  }

  // ----- the message

  /**
    A message whose description has one m= line for each address: header lines, the repaired length, the
    other header lines and the description, each as above.
   */
  lemma MessageText(a: string, v: string, c: string, body: string, before: seq<Line>, length: Line,
                    after: seq<Line>, sdp: seq<Line>, q: int, mid: int) returns (value: string)
    requires v != "" && q == |a| + |v| && mid == q + |c|
    requires length.Header? && length.ident.s == "Content-Length" && length.value == Token(v, |a|, q)
    requires forall i :: 0 <= i < |after| && after[i].Header? ==> after[i].ident.s != "Content-Length"
    requires HeadersFrom(before, 0, |a|) && HeadersFrom(after, q, mid)
    requires BodyFrom(sdp, mid, mid + |body|) && OneMediaEach(sdp, NoToken, false)
    ensures var ops, text, newBody := Sort(Recorded(before, length, after, sdp)), a + (v + (c + body)),
                                      NewBody(body, sdp, NoToken, mid, mid);
      && Fits(ops, 0, |text|)
      && Same(Splice(text, ops, 0), NewHeader(a, before, 0) + (value + (NewHeader(c, after, q) + newBody)))
      && (ScanInt(value) == |newBody| <==> ScanInt(v) == |body|)
  {
    assert IsLength(length) && NoLength(after);
    value := LengthRepairedExactly(a, v, c, body, before, length, after, sdp, q, mid);
    HeaderText(a, before, NoToken, 0, |a|);
    HeaderText(c, after, NoToken, q, mid);
    BodyText(body, sdp, NoToken, mid, mid, mid + |body|);
  }
}
