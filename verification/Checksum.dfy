/**
  The Internet checksum (packet.cc:9-69, packet.cc:129-141) on a little-endian host, and what
  sections 1 and 2 of RFC 1071 ask of it.
 */
module Checksum {
  import opened Words

  const ONES: int := 0xFFFF
  const TOP: int := 0x8000_0000

  /** A 16-bit load on a little-endian host. */
  function Load(lo: byte, hi: byte): uint16 {
    lo + 256 * hi
  }

  /** The words of a buffer; an odd byte at the end counts as if followed by a zero. */
  function WordsOf(bytes: seq<byte>): seq<uint16>
    decreases |bytes|
  {
    if |bytes| == 0 then []
    else if |bytes| == 1 then [bytes[0]]
    else [Load(bytes[0], bytes[1])] + WordsOf(bytes[2..])
  }

  function Sum(ws: seq<uint16>): nat {
    if ws == [] then 0 else ws[0] + Sum(ws[1..])
  }

  /** One fold: the carries are added back in. */
  function Fold(x: nat): nat {
    x % 0x1_0000 + x / 0x1_0000
  }

  /** Folded until nothing is carried. */
  function FoldAll(x: nat): (r: uint16) {
    if x < 0x1_0000 then x else FoldAll(Fold(x))
  }

  /** The one's complement of a word. */
  function Complement(w: uint16): uint16 {
    ONES - w
  }

  // ----- folding

  /** A fold keeps the value modulo 65535, and gets smaller but for single words. */
  lemma FoldKeepsResidue(x: nat)
    ensures Fold(x) % ONES == x % ONES
    ensures x >= 0x1_0000 ==> 0 < Fold(x) < x
    ensures x < 0x1_0000 ==> Fold(x) == x
  {
    assert x == Fold(x) + ONES * (x / 0x1_0000);
    ModPlusMultiple(Fold(x), x / 0x1_0000);
  }

  lemma {:induction false} ModPlusMultiple(a: nat, k: nat)
    ensures (a + ONES * k) % ONES == a % ONES
  {
    if k > 0 {
      ModPlusMultiple(a, k - 1);
      assert a + ONES * k == (a + ONES * (k - 1)) + ONES;
      ModPlusOne(a + ONES * (k - 1));
    }
  }

  lemma ModPlusOne(a: nat)
    ensures (a + ONES) % ONES == a % ONES
  {
  }

  /** All folds together: the residue is kept, and only zero becomes zero. */
  lemma {:induction false} FoldAllIsResidue(x: nat)
    ensures FoldAll(x) % ONES == x % ONES
    ensures FoldAll(x) == 0 <==> x == 0
    ensures FoldAll(x) == if x == 0 then 0 else if x % ONES == 0 then ONES else x % ONES
  {
    FoldKeepsResidue(x);
    if x >= 0x1_0000 {
      FoldAllIsResidue(Fold(x));
    }
  }

  // ----- the sum of RFC 1071

  /** 16-bit one's complement addition: the end-around carry of section 1. */
  function OnesAdd(a: uint16, b: uint16): uint16 {
    if a + b > ONES then a + b - ONES else a + b
  }

  function OnesSum(ws: seq<uint16>): uint16 {
    if ws == [] then 0 else OnesAdd(ws[0], OnesSum(ws[1..]))
  }

  /** Deferred carries (section 2 (C)): folding the plain sum gives the one's complement sum. */
  lemma {:induction false} FoldedSumIsOnesSum(ws: seq<uint16>)
    ensures FoldAll(Sum(ws)) == OnesSum(ws)
  {
    FoldAllIsResidue(Sum(ws));
    if ws != [] {
      FoldedSumIsOnesSum(ws[1..]);
      FoldAllIsResidue(Sum(ws[1..]));
      AddResidues(ws[0], Sum(ws[1..]), OnesSum(ws[1..]));
    }
  }

  lemma AddResidues(w: uint16, s: nat, r: uint16)
    requires r == if s == 0 then 0 else if s % ONES == 0 then ONES else s % ONES
    ensures OnesAdd(w, r) == if w + s == 0 then 0 else if (w + s) % ONES == 0 then ONES else (w + s) % ONES
  {
    assert s == ONES * (s / ONES) + s % ONES;
    ModPlusMultiple(w + s % ONES, s / ONES);
    assert (w + s) % ONES == (w + s % ONES) % ONES;
  }

  function Swapped(ws: seq<uint16>): seq<uint16> {
    if ws == [] then [] else [Htons(ws[0])] + Swapped(ws[1..])
  }

  /** Swapping bytes multiplies by 256 modulo 65535. */
  lemma SwapIsTimes256(w: uint16)
    ensures Htons(w) % ONES == 256 * w % ONES
  {
    assert 256 * w == Htons(w) + ONES * (w / 256);
    ModPlusMultiple(Htons(w), w / 256);
  }

  lemma TimesResidue(k: nat, x: nat)
    ensures k * x % ONES == k * (x % ONES) % ONES
  {
    assert x == x % ONES + ONES * (x / ONES);
    assert k * x == k * (x % ONES) + ONES * (k * (x / ONES));
    ModPlusMultiple(k * (x % ONES), k * (x / ONES));
  }

  lemma SumResidue(a: nat, b: nat, c: nat, d: nat)
    requires a % ONES == c % ONES && b % ONES == d % ONES
    ensures (a + b) % ONES == (c + d) % ONES
  {
  }

  lemma {:induction false} SwappedSum(ws: seq<uint16>)
    ensures Sum(Swapped(ws)) % ONES == 256 * Sum(ws) % ONES
    ensures Sum(Swapped(ws)) == 0 <==> Sum(ws) == 0
  {
    if ws != [] {
      SwappedSum(ws[1..]);
      SwapIsTimes256(ws[0]);
      assert Swapped(ws)[1..] == Swapped(ws[1..]);
      var w: int := ws[0];
      SumResidue(Htons(w), Sum(Swapped(ws[1..])), 256 * w, 256 * Sum(ws[1..]));
    }
  }

  /**
    Byte order independence (section 2 (B)): the sum of the swapped words is the swapped sum. So the
    value computed from little-endian loads, stored little-endian, is the network-order checksum.
   */
  lemma ByteOrderIndependence(ws: seq<uint16>)
    ensures FoldAll(Sum(Swapped(ws))) == Htons(FoldAll(Sum(ws)))
    ensures Complement(FoldAll(Sum(Swapped(ws)))) == Htons(Complement(FoldAll(Sum(ws))))
  {
    var x: nat, r := Sum(ws), FoldAll(Sum(ws));
    SwappedSum(ws);
    FoldAllIsResidue(x);
    SwapOfResidue(r, x);
    SwapKeepsZero(r);
    SameFold(Htons(r), Sum(Swapped(ws)));
    SwapOfComplement(r);
  }

  lemma SwapOfResidue(r: uint16, x: nat)
    requires r % ONES == x % ONES
    ensures Htons(r) % ONES == 256 * x % ONES
  {
    SwapIsTimes256(r);
    TimesResidue(256, r);
    TimesResidue(256, x);
  }

  lemma SwapKeepsZero(r: uint16)
    ensures Htons(r) == 0 <==> r == 0
  {
  }

  lemma SwapOfComplement(r: uint16)
    ensures Htons(Complement(r)) == Complement(Htons(r))
  {
    var low, high := r % 256, r / 256;
    assert Complement(r) == (255 - high) * 256 + (255 - low);
    assert Complement(r) % 256 == 255 - low && Complement(r) / 256 == 255 - high;
  }

  /** Two sums with the same residue, zero together, fold to the same word. */
  lemma SameFold(a: nat, b: nat)
    requires a % ONES == b % ONES && (a == 0 <==> b == 0)
    ensures FoldAll(a) == FoldAll(b)
  {
    FoldAllIsResidue(a);
    FoldAllIsResidue(b);
  }

  // ----- verification of a stored checksum

  lemma {:induction false} SumAppend(a: seq<uint16>, b: seq<uint16>)
    ensures Sum(a + b) == Sum(a) + Sum(b)
  {
    if a == [] {
      assert a + b == b;
    } else {
      assert (a + b)[1..] == a[1..] + b;
      SumAppend(a[1..], b);
    }
  }

  /** Replacing a zero word by the complement of the folded sum makes the sum check out. */
  lemma StoredComplementChecks(x: nat)
    ensures Complement(FoldAll(x + Complement(FoldAll(x)))) == 0
  {
    var r := FoldAll(x);
    FoldAllIsResidue(x);
    FoldAllIsResidue(x + Complement(r));
    assert x == x % ONES + ONES * (x / ONES);
    if x == 0 {
    } else if x % ONES == 0 {
      assert Complement(r) == 0;
    } else {
      assert x + Complement(r) == ONES * (x / ONES + 1);
      ModPlusMultiple(0, x / ONES + 1);
    }
  }

  lemma {:induction false} WordsAppend(a: seq<byte>, b: seq<byte>)
    requires |a| % 2 == 0
    ensures WordsOf(a + b) == WordsOf(a) + WordsOf(b)
    decreases |a|
  {
    if a == [] {
      assert a + b == b;
    } else {
      assert (a + b)[0] == a[0] && (a + b)[1] == a[1] && (a + b)[2..] == a[2..] + b;
      WordsAppend(a[2..], b);
    }
  }

  /** Storing a word over a zero word at an even offset adds it to the sum, for even and odd lengths. */
  lemma StoreAdds(bytes: seq<byte>, off: nat, w: uint16)
    requires off % 2 == 0 && off + 2 <= |bytes| && bytes[off] == 0 && bytes[off + 1] == 0
    ensures Sum(WordsOf(bytes[off := w % 256][off + 1 := w / 256])) == Sum(WordsOf(bytes)) + w
  {
    var a, b := bytes[..off], bytes[off + 2..];
    var lo: byte, hi: byte := w % 256, w / 256;
    LoadOfStored(w);
    TwoBytesBetween(bytes, off, 0, 0);
    TwoBytesBetween(bytes[off := lo][off + 1 := hi], off, lo, hi);
    assert bytes[off := lo][off + 1 := hi][..off] == a && bytes[off := lo][off + 1 := hi][off + 2..] == b;
  }

  lemma LoadOfStored(w: uint16)
    ensures 0 <= w / 256 < 256 && Load(w % 256, w / 256) == w
  {
  }

  lemma WordsOfTwo(lo: byte, hi: byte)
    ensures WordsOf([lo, hi]) == [Load(lo, hi)] && Sum([Load(lo, hi)]) == Load(lo, hi)
  {
    assert [lo, hi][2..] == [];
  }

  lemma SumWordsAppend(a: seq<byte>, b: seq<byte>, all: seq<byte>)
    requires |a| % 2 == 0 && all == a + b
    ensures Sum(WordsOf(all)) == Sum(WordsOf(a)) + Sum(WordsOf(b))
  {
    WordsAppend(a, b);
    SumAppend(WordsOf(a), WordsOf(b));
  }

  lemma TwoBytesBetween(bytes: seq<byte>, off: nat, lo: byte, hi: byte)
    requires off % 2 == 0 && off + 2 <= |bytes| && bytes[off] == lo && bytes[off + 1] == hi
    ensures Sum(WordsOf(bytes)) == Sum(WordsOf(bytes[..off])) + (Load(lo, hi) + Sum(WordsOf(bytes[off + 2..])))
  {
    PartsOf(bytes, off, lo, hi);
    SumOfParts(bytes[..off], [lo, hi], bytes[off + 2..], bytes[off..], bytes);
    WordsOfTwo(lo, hi);
  }

  lemma PartsOf(bytes: seq<byte>, off: nat, lo: byte, hi: byte)
    requires off + 2 <= |bytes| && bytes[off] == lo && bytes[off + 1] == hi
    ensures Same(bytes, bytes[..off] + bytes[off..]) && Same(bytes[off..], [lo, hi] + bytes[off + 2..])
  {
    assert bytes == bytes[..off] + bytes[off..] && bytes[off..] == [lo, hi] + bytes[off + 2..];
  }

  lemma SumOfParts(a: seq<byte>, two: seq<byte>, b: seq<byte>, rest: seq<byte>, all: seq<byte>)
    requires |a| % 2 == 0 && |two| == 2 && Same(rest, two + b) && Same(all, a + rest)
    ensures Sum(WordsOf(all)) == Sum(WordsOf(a)) + (Sum(WordsOf(two)) + Sum(WordsOf(b)))
  {
    SumWordsAppend(a, rest, all);
    SumWordsAppend(two, b, rest);
  }

  // ----- the methods

  /** What a byte at place i counts. */
  function Worth(i: nat, b: int): int {
    if i % 2 == 0 then b else 256 * b
  }

  /** Every byte counts, those at odd places 256 times, also the last one of an odd number. */
  function ByteSum(bytes: seq<byte>): nat {
    if bytes == [] then 0 else ByteSum(bytes[..|bytes| - 1]) + Worth(|bytes| - 1, bytes[|bytes| - 1])
  }

  lemma {:induction false} WordsCountEveryByte(bytes: seq<byte>)
    ensures Sum(WordsOf(bytes)) == ByteSum(bytes)
    decreases |bytes|
  {
    if bytes != [] {
      var front, last := LastWord(bytes);
      WordsCountEveryByte(front);
      FewBehind(front, last, bytes);
    }
  }

  lemma LastWord(bytes: seq<byte>) returns (front: seq<byte>, last: seq<byte>)
    requires bytes != []
    ensures bytes == front + last && |front| % 2 == 0 && 1 <= |last| <= 2 && |front| < |bytes|
  {
    var even := if |bytes| % 2 == 0 then |bytes| - 2 else |bytes| - 1;
    front, last := bytes[..even], bytes[even..];
  }

  lemma FewBehind(front: seq<byte>, last: seq<byte>, bytes: seq<byte>)
    requires bytes == front + last && |front| % 2 == 0 && 1 <= |last| <= 2 && Sum(WordsOf(front)) == ByteSum(front)
    ensures Sum(WordsOf(bytes)) == ByteSum(bytes)
  {
    SumWordsAppend(front, last, bytes);
    FewWords(last);
    FewBytes(front, last, bytes);
  }

  lemma FewWords(last: seq<byte>)
    requires 1 <= |last| <= 2
    ensures Sum(WordsOf(last)) == last[0] + (if |last| == 2 then Worth(1, last[1]) else 0)
  {
    if |last| == 2 {
      WordsOfTwo(last[0], last[1]);
      assert last == [last[0], last[1]];
    } else {
      assert WordsOf(last) == [last[0]];
    }
  }

  lemma FewBytes(front: seq<byte>, last: seq<byte>, bytes: seq<byte>)
    requires bytes == front + last && |front| % 2 == 0 && 1 <= |last| <= 2
    ensures ByteSum(bytes) == ByteSum(front) + last[0] + (if |last| == 2 then Worth(1, last[1]) else 0)
  {
    if |last| == 2 {
      var most := front + [last[0]];
      assert bytes[..|bytes| - 1] == most && most[..|most| - 1] == front;
    } else {
      assert bytes[..|bytes| - 1] == front;
    }
  }

  /** The pseudo-header: the address words and the two htons terms. */
  function PseudoSum(src: seq<uint16>, dst: seq<uint16>, len: nat, protocol: byte): nat {
    Sum(src) + Sum(dst) + Htons(protocol) + Htons(len % 0x1_0000)
  }

  function TcpChecksumValue(bytes: seq<byte>, src: seq<uint16>, dst: seq<uint16>, protocol: byte): uint16 {
    Complement(FoldAll(Sum(WordsOf(bytes)) + PseudoSum(src, dst, |bytes|, protocol)))
  }

  /** The stored value is the complement of the one's complement sum over segment and pseudo-header. */
  lemma TcpChecksumIsOnesSum(bytes: seq<byte>, src: seq<uint16>, dst: seq<uint16>, protocol: byte)
    ensures TcpChecksumValue(bytes, src, dst, protocol)
         == Complement(OnesSum(WordsOf(bytes) + (src + (dst + [Htons(protocol), Htons(|bytes| % 0x1_0000)]))))
  {
    var last: seq<uint16> := [Htons(protocol), Htons(|bytes| % 0x1_0000)];
    SumAppend(dst, last);
    SumAppend(src, dst + last);
    SumAppend(WordsOf(bytes), src + (dst + last));
    SumOfTwo(last[0], last[1]);
    assert last == [last[0], last[1]];
    FoldedSumIsOnesSum(WordsOf(bytes) + (src + (dst + last)));
  }

  lemma SumOfTwo(a: uint16, b: uint16)
    ensures Sum([a, b]) == a + b
  {
    assert [a, b][1..] == [b] && [b][1..] == [];
    assert Sum([b]) == b;
  }

  /** One byte changed. */
  lemma {:induction false} ByteSumChanges(bytes: seq<byte>, i: nat, x: byte)
    requires i < |bytes|
    ensures ByteSum(bytes[i := x]) == ByteSum(bytes) + Worth(i, x) - Worth(i, bytes[i])
    decreases |bytes|
  {
    var last := |bytes| - 1;
    if i < last {
      ByteSumChanges(bytes[..last], i, x);
      assert bytes[i := x][..last] == bytes[..last][i := x];
    } else {
      assert bytes[i := x][..last] == bytes[..last];
    }
  }

  lemma WorthsDiffer(i: nat, x: byte, y: byte, total: nat)
    requires x != y && Worth(i, y) <= total
    ensures (total + Worth(i, x) - Worth(i, y)) % ONES != total % ONES
  {
    if x > y {
      DistinctResidues(total, Worth(i, x) - Worth(i, y));
    } else {
      DistinctResidues(total + Worth(i, x) - Worth(i, y), Worth(i, y) - Worth(i, x));
    }
  }

  lemma DistinctResidues(a: nat, d: nat)
    requires 0 < d < ONES
    ensures (a + d) % ONES != a % ONES
  {
    var q, r := a / ONES, a % ONES;
    assert a == ONES * q + r;
    if r + d < ONES {
      ModPlusMultiple(r + d, q);
      assert (a + d) % ONES == r + d;
    } else {
      ModPlusMultiple(r + d - ONES, q + 1);
      assert (a + d) % ONES == r + d - ONES;
    }
  }

  lemma FoldsDiffer(a: nat, b: nat)
    requires a % ONES != b % ONES
    ensures FoldAll(a) != FoldAll(b)
  {
    FoldAllIsResidue(a);
    FoldAllIsResidue(b);
  }

  /** A change of any one byte of a segment, of odd length or even, changes its checksum. */
  lemma ByteErrorsAreDetected(bytes: seq<byte>, i: nat, x: byte, src: seq<uint16>, dst: seq<uint16>, protocol: byte)
    requires i < |bytes| && x != bytes[i]
    ensures TcpChecksumValue(bytes[i := x], src, dst, protocol) != TcpChecksumValue(bytes, src, dst, protocol)
  {
    var pseudo := PseudoSum(src, dst, |bytes|, protocol);
    WordsCountEveryByte(bytes);
    WordsCountEveryByte(bytes[i := x]);
    ByteSumChanges(bytes, i, x);
    ByteIsPartOfSum(bytes, i);
    var total := ByteSum(bytes) + pseudo;
    WorthsDiffer(i, x, bytes[i], total);
    FoldsDiffer(total + Worth(i, x) - Worth(i, bytes[i]), total);
    ValueOfTotal(bytes, src, dst, protocol, total);
    ValueOfTotal(bytes[i := x], src, dst, protocol, total + Worth(i, x) - Worth(i, bytes[i]));
  }

  lemma {:induction false} ByteIsPartOfSum(bytes: seq<byte>, i: nat)
    requires i < |bytes|
    ensures Worth(i, bytes[i]) <= ByteSum(bytes)
    decreases |bytes|
  {
    if i < |bytes| - 1 {
      ByteIsPartOfSum(bytes[..|bytes| - 1], i);
    }
  }

  /** The 32-bit sum stands for the true sum. */
  predicate StandsFor(sum: nat, total: nat) {
    sum % ONES == total % ONES && (sum == 0 <==> total == 0)
  }

  /** Adding a word and folding if the top bit is set: no overflow, and the sum still stands for the total. */
  lemma AddWord(sum: nat, total: nat, w: uint16)
    requires StandsFor(sum, total) && sum < TOP
    ensures StandsFor(sum + w, total + w) && sum + w < TOP + ONES + 1
    ensures sum + w >= TOP ==> StandsFor(Fold(sum + w), total + w) && Fold(sum + w) < TOP
  {
    SumResidue(sum, w, total, w);
    FoldKeepsResidue(sum + w);
  }

  /** packet.cc:18-20: a word is added, and folded if the top bit is set. */
  function FoldedAdd(sum: nat, w: uint16): nat {
    if sum + w >= TOP then Fold(sum + w) else sum + w
  }

  /** What the loop makes of the bytes; an odd byte at the end is added without folding. */
  function Accumulated(bytes: seq<byte>, sum: nat): nat
    decreases |bytes|
  {
    if |bytes| == 0 then sum
    else if |bytes| == 1 then sum + bytes[0]
    else Accumulated(bytes[2..], FoldedAdd(sum, Load(bytes[0], bytes[1])))
  }

  lemma FoldedAddStands(sum: nat, total: nat, w: uint16)
    requires StandsFor(sum, total) && sum < TOP
    ensures StandsFor(FoldedAdd(sum, w), total + w) && FoldedAdd(sum, w) < TOP
  {
    AddWord(sum, total, w);
  }

  lemma {:induction false} AccumulatedStands(bytes: seq<byte>, sum: nat, total: nat)
    requires StandsFor(sum, total) && sum < TOP
    ensures Accumulated(bytes, sum) < TOP + 256 && StandsFor(Accumulated(bytes, sum), total + Sum(WordsOf(bytes)))
    decreases |bytes|
  {
    if |bytes| == 1 {
      AddWord(sum, total, bytes[0]);
    } else if |bytes| > 1 {
      var w := Load(bytes[0], bytes[1]);
      FoldedAddStands(sum, total, w);
      AccumulatedStands(bytes[2..], FoldedAdd(sum, w), total + w);
    }
  }

  lemma ZeroStands()
    ensures StandsFor(0, 0)
  {
  }

  /** packet.cc:14-26 and packet.cc:52-61: the loop over the words, in 32 bits, and the odd byte. */
  method SumBuffer(buf: array<byte>, len: nat) returns (sum: uint32)
    requires len <= buf.Length
    ensures sum < TOP + 256 && StandsFor(sum, Sum(WordsOf(buf[..len]))) && StandsFor(sum, ByteSum(buf[..len]))
  {
    WordsCountEveryByte(buf[..len]);
    ghost var bytes := buf[..len];
    ZeroStands();
    AccumulatedStands(bytes, 0, 0);
    sum := AddBytes(buf, len);
  }

  method AddBytes(buf: array<byte>, len: nat) returns (sum: uint32)
    requires len <= buf.Length
    ensures sum == Accumulated(buf[..len], 0)
  {
    sum := 0;
    var left, i := len, 0;
    ghost var bytes := buf[..len];
    while left > 1
      invariant 0 <= i && 0 <= left && i + left == len && sum < TOP
      invariant Accumulated(bytes[i..], sum) == Accumulated(bytes, 0)
      decreases left
    {
      AccumulatedFrom(bytes, i, sum);
      sum := AddFolding(sum, Load(buf[i], buf[i + 1]));
      i := i + 2;
      left := left - 2;
    }
    if left % 2 == 1 {
      assert bytes[i..] == [buf[i]];
      sum := sum + buf[i];
    } else {
      assert bytes[i..] == [];
    }
  }

  lemma AccumulatedFrom(bytes: seq<byte>, i: nat, sum: nat)
    requires i + 2 <= |bytes|
    ensures Accumulated(bytes[i..], sum) == Accumulated(bytes[i + 2..], FoldedAdd(sum, Load(bytes[i], bytes[i + 1])))
  {
    assert bytes[i..][2..] == bytes[i + 2..];
  }

  /** packet.cc:18-20 */
  method AddFolding(sum: uint32, w: uint16) returns (r: uint32)
    requires sum < TOP
    ensures r == FoldedAdd(sum, w) && r < TOP
  {
    r := sum + w;
    if r >= TOP {
      r := r % 0x1_0000 + r / 0x1_0000;
    }
  }

  /** packet.cc:37-39 */
  method AddCarries(sum: uint32) returns (r: uint16)
    ensures r == FoldAll(sum)
  {
    var s: uint32 := sum;
    while s >= 0x1_0000
      invariant FoldAll(s) == FoldAll(sum)
    {
      FoldKeepsResidue(s);
      s := s % 0x1_0000 + s / 0x1_0000;
    }
    r := s;
  }

  /** packet.cc:9-43; addresses have two words (IPv4) or eight (IPv6). */
  method TcpChecksum(buf: array<byte>, len: nat, src: seq<uint16>, dst: seq<uint16>, protocol: byte) returns (r: uint16)
    requires len <= buf.Length && |src| == |dst| <= 8
    ensures r == TcpChecksumValue(buf[..len], src, dst, protocol)
  {
    var sum := SumBuffer(buf, len);
    ghost var base, residue := sum, Sum(WordsOf(buf[..len]));
    var i := 0;
    while i < |src|
      invariant 0 <= i <= |src|
      invariant sum + Sum(src[i..]) + Sum(dst[i..]) == base + Sum(src) + Sum(dst)
      invariant sum <= TOP + 256 + i * 0x2_0000
    {
      sum := sum + src[i];
      sum := sum + dst[i];
      i := i + 1;
    }
    sum := sum + Htons(protocol);
    sum := sum + Htons(len % 0x1_0000);
    ghost var pseudo := PseudoSum(src, dst, len, protocol);
    assert sum == base + pseudo;
    SumResidue(base, pseudo, residue, pseudo);
    SameFold(sum, residue + pseudo);
    r := AddCarries(sum);
    r := Complement(r);
  }

  /** packet.cc:45-69 */
  method IpChecksum(buf: array<byte>, len: nat) returns (r: uint16)
    requires len <= buf.Length
    ensures r == Complement(OnesSum(WordsOf(buf[..len])))
  {
    var sum := SumBuffer(buf, len);
    SameFold(sum, Sum(WordsOf(buf[..len])));
    FoldedSumIsOnesSum(WordsOf(buf[..len]));
    r := AddCarries(sum);
    r := Complement(r);
  }

  /**
    packet.cc:131-139 for one transport header: the check field, at an even offset, is zeroed, the
    checksum is computed and stored. Computing it again over the result gives 0.
   */
  method UpdateChecksum(buf: array<byte>, len: nat, check: nat, src: seq<uint16>, dst: seq<uint16>, protocol: byte)
    requires len <= buf.Length && check % 2 == 0 && check + 2 <= len && |src| == |dst| <= 8
    modifies buf
    ensures TcpChecksumValue(buf[..len], src, dst, protocol) == 0
    ensures forall k :: 0 <= k < buf.Length && k != check && k != check + 1 ==> buf[k] == old(buf[k])
  {
    buf[check], buf[check + 1] := 0, 0;
    ghost var zeroed: seq<byte> := buf[..len];
    var r := TcpChecksum(buf, len, src, dst, protocol);
    LoadOfStored(r);
    buf[check], buf[check + 1] := r % 256, r / 256;
    assert buf[..len] == zeroed[check := r % 256][check + 1 := r / 256];
    StoredChecksumChecks(zeroed, check, r, src, dst, protocol);
  }

  lemma StoredChecksumChecks(zeroed: seq<byte>, check: nat, r: uint16, src: seq<uint16>, dst: seq<uint16>, protocol: byte)
    requires check % 2 == 0 && check + 2 <= |zeroed| && zeroed[check] == 0 && zeroed[check + 1] == 0
    requires r == TcpChecksumValue(zeroed, src, dst, protocol)
    ensures TcpChecksumValue(zeroed[check := r % 256][check + 1 := r / 256], src, dst, protocol) == 0
  {
    var total, stored := Sum(WordsOf(zeroed)) + PseudoSum(src, dst, |zeroed|, protocol), zeroed[check := r % 256][check + 1 := r / 256];
    ValueOfTotal(zeroed, src, dst, protocol, total);
    StoredTotal(zeroed, check, r, stored, PseudoSum(src, dst, |zeroed|, protocol), total);
    StoredComplementChecks(total);
    ValueOfTotal(stored, src, dst, protocol, total + r);
  }

  lemma StoredTotal(zeroed: seq<byte>, check: nat, r: uint16, stored: seq<byte>, pseudo: nat, total: nat)
    requires check % 2 == 0 && check + 2 <= |zeroed| && zeroed[check] == 0 && zeroed[check + 1] == 0
    requires stored == zeroed[check := r % 256][check + 1 := r / 256] && total == Sum(WordsOf(zeroed)) + pseudo
    ensures |stored| == |zeroed| && Sum(WordsOf(stored)) + pseudo == total + r
  {
    StoreAdds(zeroed, check, r);
  }

  lemma ValueOfTotal(bytes: seq<byte>, src: seq<uint16>, dst: seq<uint16>, protocol: byte, total: nat)
    requires total == Sum(WordsOf(bytes)) + PseudoSum(src, dst, |bytes|, protocol)
    ensures TcpChecksumValue(bytes, src, dst, protocol) == Complement(FoldAll(total))
  {
  }

  // ----- the checksum of the IPv4 header

  const IP_HEADER: nat := 20
  const IP_CHECK: nat := 10

  /** A header as make_ip4pkt leaves it: version 4, five words, no checksum yet. */
  predicate FreshHeader(header: seq<byte>) {
    |header| == IP_HEADER && header[0] == 0x45 && header[IP_CHECK] == 0 && header[IP_CHECK + 1] == 0
  }

  function WithCheck(bytes: seq<byte>, r: uint16): seq<byte>
    requires |bytes| >= IP_HEADER
  {
    bytes[IP_CHECK := r % 256][IP_CHECK + 1 := r / 256]
  }

  /** What a receiver computes over the header alone. */
  predicate HeaderChecks(header: seq<byte>) {
    Complement(OnesSum(WordsOf(header))) == 0
  }

  /** What packet.cc:136 stores: the checksum of header and segment together. */
  function WholeChecksum(header: seq<byte>, segment: seq<byte>): uint16 {
    Complement(OnesSum(WordsOf(header + segment)))
  }

  lemma HeaderIsPositive(header: seq<byte>)
    requires FreshHeader(header)
    ensures Sum(WordsOf(header)) > 0
  {
    assert WordsOf(header)[0] == Load(header[0], header[1]);
  }

  /** A sum plus the complement of a larger sum is all ones exactly if the difference counts for nothing. */
  lemma ComplementOfMore(head: nat, more: nat, r: uint16)
    requires head > 0 && r == Complement(FoldAll(head + more))
    ensures FoldAll(head + r) == ONES <==> more % ONES == 0
  {
    FoldAllIsResidue(head + more);
    FoldAllIsResidue(head + r);
    assert (head + r + more) % ONES == 0 by {
      StoredComplementChecks(head + more);
      FoldAllIsResidue(head + more + r);
    }
    RestOfMultiple(head + r, more);
  }

  lemma RestOfMultiple(a: nat, b: nat)
    requires (a + b) % ONES == 0
    ensures a % ONES == 0 <==> b % ONES == 0
  {
    assert a == ONES * (a / ONES) + a % ONES && b == ONES * (b / ONES) + b % ONES;
    ModPlusMultiple(a % ONES + b % ONES, a / ONES + b / ONES);
  }

  /**
    The checksum of the whole packet, stored in the header, makes the header check if and only if the
    pseudo-header of the segment counts for nothing.
   */
  lemma HeaderChecksExactly(header: seq<byte>, segment: seq<byte>, src: seq<uint16>, dst: seq<uint16>, protocol: byte)
    requires FreshHeader(header) && TcpChecksumValue(segment, src, dst, protocol) == 0
    ensures HeaderChecks(WithCheck(header, WholeChecksum(header, segment)))
       <==> PseudoSum(src, dst, |segment|, protocol) % ONES == 0
  {
    WholeChecksumChecks(header, segment, WholeChecksum(header, segment), Sum(WordsOf(header)), Sum(WordsOf(segment)));
    ChecksAgainst(segment, src, dst, protocol, Sum(WordsOf(segment)), PseudoSum(src, dst, |segment|, protocol));
  }

  lemma WholeChecksumChecks(header: seq<byte>, segment: seq<byte>, r: uint16, head: nat, more: nat)
    requires FreshHeader(header) && r == WholeChecksum(header, segment)
    requires head == Sum(WordsOf(header)) && more == Sum(WordsOf(segment))
    ensures HeaderChecks(WithCheck(header, r)) <==> more % ONES == 0
  {
    HeaderIsPositive(header);
    WholeIsFold(header, segment, head, more);
    StoredInHeader(header, r, head);
    ComplementOfMore(head, more, r);
  }

  lemma StoredInHeader(header: seq<byte>, r: uint16, head: nat)
    requires FreshHeader(header) && head == Sum(WordsOf(header))
    ensures HeaderChecks(WithCheck(header, r)) <==> FoldAll(head + r) == ONES
  {
    StoreAdds(header, IP_CHECK, r);
    ChecksIfFull(WithCheck(header, r), head + r);
  }

  lemma WholeIsFold(header: seq<byte>, segment: seq<byte>, head: nat, more: nat)
    requires |header| % 2 == 0 && head == Sum(WordsOf(header)) && more == Sum(WordsOf(segment))
    ensures WholeChecksum(header, segment) == Complement(FoldAll(head + more))
  {
    SumWordsAppend(header, segment, header + segment);
    FoldedSumIsOnesSum(WordsOf(header + segment));
  }

  lemma ChecksIfFull(header: seq<byte>, sum: nat)
    requires sum == Sum(WordsOf(header))
    ensures HeaderChecks(header) <==> FoldAll(sum) == ONES
  {
    FoldedSumIsOnesSum(WordsOf(header));
  }

  /** A segment that checks sums up against its pseudo-header. */
  lemma ChecksAgainst(segment: seq<byte>, src: seq<uint16>, dst: seq<uint16>, protocol: byte, sum: nat, pseudo: nat)
    requires TcpChecksumValue(segment, src, dst, protocol) == 0
    requires sum == Sum(WordsOf(segment)) && pseudo == PseudoSum(src, dst, |segment|, protocol)
    ensures sum % ONES == 0 <==> pseudo % ONES == 0
  {
    ValueOfTotal(segment, src, dst, protocol, sum + pseudo);
    FoldAllIsResidue(sum + pseudo);
    RestOfMultiple(sum, pseudo);
  }

  /** From 10.0.0.1 to 10.0.0.2, a TCP segment of 20 bytes: its packet has a wrong header checksum. */
  lemma HeaderChecksumIsWrong(header: seq<byte>, segment: seq<byte>, src: seq<uint16>, dst: seq<uint16>)
    requires src == [Load(10, 0), Load(0, 1)] && dst == [Load(10, 0), Load(0, 2)]
    requires FreshHeader(header) && |segment| == 20 && TcpChecksumValue(segment, src, dst, 6) == 0
    ensures !HeaderChecks(WithCheck(header, WholeChecksum(header, segment)))
  {
    HeaderChecksExactly(header, segment, src, dst, 6);
    SmallPseudoSum(src, dst);
  }

  lemma SmallPseudoSum(src: seq<uint16>, dst: seq<uint16>)
    requires src == [Load(10, 0), Load(0, 1)] && dst == [Load(10, 0), Load(0, 2)]
    ensures PseudoSum(src, dst, 20, 6) == 7444
  {
    SumOfTwo(Load(10, 0), Load(0, 1));
    SumOfTwo(Load(10, 0), Load(0, 2));
  }

  /** packet.cc:136, behind the checksum of the segment; the packet has len bytes. */
  method UpdateIpChecksum(buf: array<byte>, len: nat)
    requires IP_HEADER <= len <= buf.Length && FreshHeader(buf[..IP_HEADER])
    modifies buf
    ensures var header, segment := old(buf[..IP_HEADER]), old(buf[IP_HEADER..len]);
      buf[..IP_HEADER] == WithCheck(header, WholeChecksum(header, segment))
    ensures buf[IP_HEADER..] == old(buf[IP_HEADER..])
  {
    var r := IpChecksum(buf, len);
    assert buf[..len] == buf[..IP_HEADER] + buf[IP_HEADER..len];
    LoadOfStored(r);
    buf[IP_CHECK], buf[IP_CHECK + 1] := r % 256, r / 256;
  }
}
