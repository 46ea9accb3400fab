/** The scanner for literal IPv4 addresses in URLs, `parse` of main.cc:42-103. */
module UrlScanner {
  import opened Numerals

  const HTTP := "http://"

  /** The buffer holds exactly the text at the position. */
  predicate At(buf: string, i: int, text: string) {
    0 <= i && i + |text| <= |buf| && buf[i..i + |text|] == text
  }

  /** n digits at the position. */
  predicate Digits(buf: string, i: int, n: nat) {
    0 <= i && i + n <= |buf| && forall k :: i <= k < i + n ==> IsDigit(buf[k], 10)
  }

  /** One to three digits and a dot. */
  predicate Group(buf: string, i: int, n: nat) {
    1 <= n <= 3 && Digits(buf, i, n) && At(buf, i + n, ".")
  }

  /** Four groups of one to three digits, separated by dots; what follows the last one is not looked at. */
  predicate DottedQuad(buf: string, i: int, a: nat, b: nat, c: nat) {
    && Group(buf, i, a) && Group(buf, i + a + 1, b) && Group(buf, i + a + b + 2, c)
    && Digits(buf, i + a + b + c + 3, 1)
  }

  predicate UrlWith(buf: string, i: int, a: nat, b: nat, c: nat) {
    At(buf, i, HTTP) && DottedQuad(buf, i + |HTTP|, a, b, c)
  }

  ghost predicate LiteralUrl(buf: string, i: int) {
    exists a: nat, b: nat, c: nat :: UrlWith(buf, i, a, b, c)
  }

  predicate DecimalDigits(s: string) {
    forall i :: 0 <= i < |s| ==> '0' <= s[i] <= '9'
  }

  /** A number of one to three digits, a dot, and the rest. */
  predicate NumberDot(text: string, number: string, rest: string) {
    1 <= |number| <= 3 && DecimalDigits(number) && text == number + ("." + rest)
  }

  /** The scheme, three numbers with dots behind them, and a digit. */
  predicate UrlParts(text: string, a: string, b: string, c: string, t1: string, t2: string, t3: string, t4: string) {
    && text == "http://" + t1 && NumberDot(t1, a, t2) && NumberDot(t2, b, t3) && NumberDot(t3, c, t4)
    && t4 != "" && '0' <= t4[0] <= '9'
  }

  lemma GroupText(buf: string, j: nat, n: nat, next: nat)
    requires Group(buf, j, n) && next == j + n + 1
    ensures next <= |buf| && NumberDot(buf[j..], buf[j..j + n], buf[next..])
  {
    assert buf[j..] == buf[j..j + n] + (buf[j + n..next] + buf[next..]);
  }

  lemma GroupOfText(buf: string, j: nat, number: string, rest: string, next: nat)
    requires j <= |buf| && NumberDot(buf[j..], number, rest) && next == j + |number| + 1
    ensures Group(buf, j, |number|) && next <= |buf| && buf[next..] == rest
  {
    var t := buf[j..];
    assert t[|number|] == ("." + rest)[0] && t[|number| + 1..] == rest;
    forall k | j <= k < j + |number| ensures IsDigit(buf[k], 10) {
      assert buf[k] == t[k - j] == number[k - j];
    }
    assert buf[j + |number|..next] == ".";
  }

  lemma SchemeText(buf: string, i: nat)
    requires i <= |buf|
    ensures At(buf, i, HTTP) <==> i + 7 <= |buf| && buf[i..] == "http://" + buf[i + 7..]
  {
    if i + 7 <= |buf| {
      assert buf[i..] == buf[i..i + 7] + buf[i + 7..] && buf[i..][..7] == buf[i..i + 7];
    }
  }

  /** A literal URL as a text: the scheme, three numbers of one to three digits with dots behind them, and a digit. */
  lemma LiteralUrlExactly(buf: string, i: nat)
    requires i <= |buf|
    ensures LiteralUrl(buf, i) <==> exists a, b, c, t1, t2, t3, t4 :: UrlParts(buf[i..], a, b, c, t1, t2, t3, t4)
  {
    if LiteralUrl(buf, i) {
      var a: nat, b: nat, c: nat :| UrlWith(buf, i, a, b, c);
      PartsOfUrl(buf, i, a, b, c, i + 7, i + a + 8, i + a + b + 9, i + a + b + c + 10);
    }
    if exists a, b, c, t1, t2, t3, t4 :: UrlParts(buf[i..], a, b, c, t1, t2, t3, t4) {
      var a, b, c, t1, t2, t3, t4 :| UrlParts(buf[i..], a, b, c, t1, t2, t3, t4);
      UrlOfParts(buf, i, a, b, c, t1, t2, t3, t4);
    }
  }

  lemma PartsOfUrl(buf: string, i: nat, a: nat, b: nat, c: nat, j: nat, k: nat, l: nat, m: nat)
    requires i <= |buf| && UrlWith(buf, i, a, b, c) && j == i + 7 && k == j + a + 1 && l == k + b + 1 && m == l + c + 1
    ensures m < |buf| && UrlParts(buf[i..], buf[j..j + a], buf[k..k + b], buf[l..l + c], buf[j..], buf[k..], buf[l..], buf[m..])
  {
    SchemeText(buf, i);
    QuadParts(buf, j, a, b, c, k, l, m);
    GroupText(buf, j, a, k);
    GroupText(buf, k, b, l);
    GroupText(buf, l, c, m);
    assert IsDigit(buf[m], 10) && buf[m..][0] == buf[m];
  }

  lemma UrlOfParts(buf: string, i: nat, a: string, b: string, c: string, t1: string, t2: string, t3: string, t4: string)
    requires i <= |buf| && UrlParts(buf[i..], a, b, c, t1, t2, t3, t4)
    ensures UrlWith(buf, i, |a|, |b|, |c|)
  {
    var j := i + 7;
    assert buf[i..][7..] == t1 && buf[j..] == t1;
    SchemeText(buf, i);
    var k := j + |a| + 1;
    GroupOfText(buf, j, a, t2, k);
    var l := k + |b| + 1;
    GroupOfText(buf, k, b, t3, l);
    var m := l + |c| + 1;
    GroupOfText(buf, l, c, t4, m);
    assert buf[m] == t4[0];
  }

  /** How many digits the inner loops of main.cc take, at most three. */
  function Greedy(buf: string, i: nat): (n: nat)
    ensures n <= 3 && (i <= |buf| ==> Digits(buf, i, n))
    ensures n < 3 ==> i + n >= |buf| || !IsDigit(buf[i + n], 10)
  {
    if i >= |buf| || !IsDigit(buf[i], 10) then 0
    else if i + 1 >= |buf| || !IsDigit(buf[i + 1], 10) then 1
    else if i + 2 >= |buf| || !IsDigit(buf[i + 2], 10) then 2
    else 3
  }

  /** Being greedy loses nothing: a group can only be as long as its run of digits. */
  lemma GroupIsGreedy(buf: string, i: nat, n: nat)
    requires Group(buf, i, n)
    ensures n == Greedy(buf, i)
  {
    assert buf[i + n] == buf[i + n..i + n + 1][0] == '.';
    assert IsDigit(buf[i], 10) && (n > 1 ==> IsDigit(buf[i + 1], 10)) && (n > 2 ==> IsDigit(buf[i + 2], 10));
  }

  /** A group and its dot are taken, and the buffer goes on behind them. */
  predicate Taken(buf: string, j: nat) {
    Group(buf, j, Greedy(buf, j)) && Behind(buf, j) < |buf|
  }

  function Behind(buf: string, j: nat): nat {
    j + Greedy(buf, j) + 1
  }

  /** main.cc:48-51 */
  method TakeDigits(buf: string, j: nat) returns (t: nat)
    requires j <= |buf|
    ensures t == Greedy(buf, j)
  {
    t := 0;
    while t < 3
      invariant t <= 3 && Digits(buf, j, t)
    {
      if j + t >= |buf| || buf[j + t] < '0' || buf[j + t] > '9' {
        break;
      }
      t := t + 1;
    }
  }

  /** main.cc:48-58: a group and its dot. next is the position behind it. */
  method TakeGroup(buf: string, j: nat) returns (ok: bool, next: nat)
    requires j <= |buf|
    ensures ok <==> Taken(buf, j)
    ensures ok ==> next == Behind(buf, j) && next < |buf|
  {
    var t := TakeDigits(buf, j);
    ok, next := false, j;
    if t <= 0 {
      return;
    }
    next := j + t;
    if next >= |buf| || buf[next] != '.' {
      assert next < |buf| ==> buf[next..next + 1][0] != '.';
      return;
    }
    assert buf[next..next + 1] == ".";
    next := next + 1;
    ok := next < |buf|;
  }

  /** The part of main.cc:46-88 for one position. */
  method MatchAt(buf: string, i: nat) returns (found: bool)
    requires At(buf, i, HTTP)
    ensures found <==> LiteralUrl(buf, i)
  {
    var j := i + 7;
    QuadExactly(buf, i, j, Behind(buf, j), Behind(buf, Behind(buf, j)));
    var ok1, j1 := TakeGroup(buf, j);
    if !ok1 {
      return false;
    }
    var ok2, j2 := TakeGroup(buf, j1);
    if !ok2 {
      return false;
    }
    var ok3, j3 := TakeGroup(buf, j2);
    if !ok3 {
      return false;
    }
    var t := TakeDigits(buf, j3);
    found := t > 0;
  }

  /** What the nested loops look at decides whether there is a literal URL. */
  lemma QuadExactly(buf: string, i: nat, j: nat, j1: nat, j2: nat)
    requires At(buf, i, HTTP) && j == i + 7 && j1 == Behind(buf, j) && j2 == Behind(buf, j1)
    ensures LiteralUrl(buf, i) <==>
      Taken(buf, j) && Taken(buf, j1) && Taken(buf, j2) && Greedy(buf, Behind(buf, j2)) > 0
  {
    if LiteralUrl(buf, i) {
      QuadIsTaken(buf, i, j, j1, j2);
    }
    if Taken(buf, j) && Taken(buf, j1) && Taken(buf, j2) && Greedy(buf, Behind(buf, j2)) > 0 {
      TakenIsQuad(buf, i, j, j1, j2);
    }
  }

  lemma GroupIsTaken(buf: string, j: nat, n: nat)
    requires Group(buf, j, n) && j + n + 1 < |buf|
    ensures Taken(buf, j) && Behind(buf, j) == j + n + 1
  {
    GroupIsGreedy(buf, j, n);
  }

  lemma DigitIsTaken(buf: string, j: nat)
    requires Digits(buf, j, 1)
    ensures Greedy(buf, j) > 0
  {
    assert IsDigit(buf[j], 10);
  }

  lemma QuadParts(buf: string, j: nat, a: nat, b: nat, c: nat, j1: nat, j2: nat, j3: nat)
    requires DottedQuad(buf, j, a, b, c) && j1 == j + a + 1 && j2 == j1 + b + 1 && j3 == j2 + c + 1
    ensures Group(buf, j, a) && Group(buf, j1, b) && Group(buf, j2, c) && Digits(buf, j3, 1) && j3 < |buf|
  {
  }

  lemma PartsAreTaken(buf: string, j: nat, a: nat, b: nat, c: nat, j1: nat, j2: nat, j3: nat)
    requires Group(buf, j, a) && Group(buf, j1, b) && Group(buf, j2, c) && Digits(buf, j3, 1) && j3 < |buf|
    requires j1 == j + a + 1 && j2 == j1 + b + 1 && j3 == j2 + c + 1
    ensures Taken(buf, j) && j1 == Behind(buf, j) && Taken(buf, j1) && j2 == Behind(buf, j1)
    ensures Taken(buf, j2) && j3 == Behind(buf, j2) && Greedy(buf, j3) > 0
  {
    GroupIsTaken(buf, j, a);
    GroupIsTaken(buf, j1, b);
    GroupIsTaken(buf, j2, c);
    DigitIsTaken(buf, j3);
  }

  lemma QuadIsTaken(buf: string, i: nat, j: nat, j1: nat, j2: nat)
    requires LiteralUrl(buf, i) && j == i + 7 && j1 == Behind(buf, j) && j2 == Behind(buf, j1)
    ensures Taken(buf, j) && Taken(buf, j1) && Taken(buf, j2) && Greedy(buf, Behind(buf, j2)) > 0
  {
    var a: nat, b: nat, c: nat :| UrlWith(buf, i, a, b, c);
    var k1, k2 := j + a + 1, j + a + b + 2;
    QuadParts(buf, j, a, b, c, k1, k2, k2 + c + 1);
    PartsAreTaken(buf, j, a, b, c, k1, k2, k2 + c + 1);
  }

  lemma TakenIsQuad(buf: string, i: nat, j: nat, j1: nat, j2: nat)
    requires At(buf, i, HTTP) && j == i + 7 && j1 == Behind(buf, j) && j2 == Behind(buf, j1)
    requires Taken(buf, j) && Taken(buf, j1) && Taken(buf, j2) && Greedy(buf, Behind(buf, j2)) > 0
    ensures UrlWith(buf, i, Greedy(buf, j), Greedy(buf, j1), Greedy(buf, j2))
  {
  }

  /** A match needs 14 bytes, so the outer loop may stop 13 bytes before the end. */
  lemma MatchNeeds14(buf: string, i: nat)
    ensures LiteralUrl(buf, i) ==> i + 13 < |buf|
  {
  }

  lemma NotHttp(buf: string, i: nat)
    ensures At(buf, i, HTTP) ==>
      && buf[i] == 'h' && buf[i + 1] == 't' && buf[i + 2] == 't' && buf[i + 3] == 'p' && buf[i + 4] == ':'
      && buf[i + 5] == '/' && buf[i + 6] == '/'
  {
    if At(buf, i, HTTP) {
      var s := buf[i..i + 7];
      assert s[0] == 'h' && s[1] == 't' && s[2] == 't' && s[3] == 'p' && s[4] == ':' && s[5] == '/' && s[6] == '/';
    }
  }

  /**
    parse returns 1 exactly when the buffer contains "http://" followed by four dot-separated groups of
    one to three digits.
   */
  method Parse(buf: string) returns (r: int)
    ensures r == 0 || r == 1
    ensures r == 1 <==> exists i :: 0 <= i < |buf| && LiteralUrl(buf, i)
  {
    var i := 0;
    while i + 13 < |buf|
      invariant 0 <= i && forall k :: 0 <= k < i ==> !LiteralUrl(buf, k)
    {
      if buf[i] == 'h' && buf[i + 1] == 't' && buf[i + 2] == 't' && buf[i + 3] == 'p' && buf[i + 4] == ':'
         && buf[i + 5] == '/' && buf[i + 6] == '/' {
        assert buf[i..i + 7] == HTTP;
        var found := MatchAt(buf, i);
        if found {
          return 1;
        }
      } else {
        NotHttp(buf, i);
      }
      i := i + 1;
    }
    forall k | 0 <= k < |buf| ensures !LiteralUrl(buf, k) {
      MatchNeeds14(buf, k);
    }
    return 0;
  }
}
