/**
  What applying a sorted list of replacements means. `Splice` is the declarative result that
  the loops of the repository (flow.cc and test/modify/modify.cc) are proved against.
 */
module Splicing {
  import opened Operations
  import opened Words

  /** The operations are ordered, disjoint and inside the stream positions from lo up to hi. */
  predicate Fits(ops: seq<Operation>, lo: int, hi: int) {
    if ops == [] then lo <= hi
    else lo <= ops[0].start <= ops[0].end <= hi && Fits(ops[1..], ops[0].end, hi)
  }

  /** One replacement. */
  function ReplaceOne(s: string, start: nat, end: nat, newdata: string): string
    requires start <= end <= |s|
  {
    s[..start] + newdata + s[end..]
  }

  /**
    The text s, found at stream position offset, with every operation's range replaced by its new
    data: the replacements made one at a time, the last one first, so that positions stay valid.
   */
  function Splice(s: string, ops: seq<Operation>, offset: int): (r: string)
    requires Fits(ops, offset, offset + |s|)
    ensures |r| == |s| + TotalDelta(ops)
  {
    if ops == [] then s
    else
      FitsWider(ops[1..], ops[0].end, offset + |s|, offset, offset + |s|);
      RoomLeft(ops[1..], ops[0].end, offset + |s|);
      ReplaceOne(Splice(s, ops[1..], offset), ops[0].start - offset, ops[0].end - offset, ops[0].newdata)
  }

  // ----- facts about Fits

  /** Fits is what it should be: ordered and disjoint neighbours, everything in range. */
  lemma {:induction false} FitsMeansOrderedDisjointInRange(ops: seq<Operation>, lo: int, hi: int)
    ensures Fits(ops, lo, hi) <==>
      && lo <= hi
      && (forall i :: 0 <= i < |ops| ==> lo <= ops[i].start <= ops[i].end <= hi)
      && (forall i, j :: 0 <= i < j < |ops| ==> ops[i].end <= ops[j].start)
  {
    if ops != [] {
      FitsMeansOrderedDisjointInRange(ops[1..], ops[0].end, hi);
      if Fits(ops, lo, hi) {
        forall i | 0 <= i < |ops| ensures lo <= ops[i].start <= ops[i].end <= hi {
          assert i > 0 ==> ops[i] == ops[1..][i-1];
        }
        forall i, j | 0 <= i < j < |ops| ensures ops[i].end <= ops[j].start {
          assert ops[j] == ops[1..][j-1];
          assert i > 0 ==> ops[i] == ops[1..][i-1];
        }
      }
    }
  }

  lemma {:induction false} FitsWider(ops: seq<Operation>, lo: int, hi: int, lo': int, hi': int)
    requires Fits(ops, lo, hi) && lo' <= lo && hi <= hi'
    ensures Fits(ops, lo', hi')
  {
    if ops != [] {
      FitsWider(ops[1..], ops[0].end, hi, ops[0].end, hi');
    }
  }

  lemma {:induction false} FitsAppend(a: seq<Operation>, b: seq<Operation>, lo: int, mid: int, hi: int)
    requires Fits(a, lo, mid) && Fits(b, mid, hi)
    ensures Fits(a + b, lo, hi)
  {
    if a == [] {
      assert a + b == b;
      FitsWider(b, mid, hi, lo, hi);
    } else {
      assert (a + b)[1..] == a[1..] + b && (a + b)[0] == a[0];
      FitsAppend(a[1..], b, a[0].end, mid, hi);
    }
  }

  lemma {:induction false} RoomLeft(ops: seq<Operation>, lo: int, hi: int)
    requires Fits(ops, lo, hi)
    ensures lo <= hi && 0 <= hi - lo + TotalDelta(ops)
    ensures TotalDelta(ops) <= TotalNew(ops)
  {
    if ops != [] {
      RoomLeft(ops[1..], ops[0].end, hi);
    }
  }

  // ----- splitting

  lemma ReplaceBehind(a: string, b: string, start: nat, end: nat, newdata: string)
    requires start <= end <= |b|
    ensures ReplaceOne(a + b, |a| + start, |a| + end, newdata) == a + ReplaceOne(b, start, end, newdata)
  {
    assert (a + b)[..|a| + start] == a + b[..start];
    assert (a + b)[|a| + end..] == b[end..];
  }

  lemma ReplaceInFront(a: string, b: string, start: nat, end: nat, newdata: string)
    requires start <= end <= |a|
    ensures ReplaceOne(a + b, start, end, newdata) == ReplaceOne(a, start, end, newdata) + b
  {
    assert (a + b)[..start] == a[..start];
    assert (a + b)[end..] == a[end..] + b;
  }

  /** Bytes before the first operation are copied. */
  lemma {:induction false} SpliceCopies(s: string, a: string, b: string, ops: seq<Operation>, offset: int, cut: int)
    requires s == a + b && cut == offset + |a| && Fits(ops, cut, cut + |b|)
    ensures Fits(ops, offset, offset + |s|)
    ensures Splice(s, ops, offset) == a + Splice(b, ops, cut)
  {
    FitsWider(ops, cut, cut + |b|, offset, offset + |s|);
    if ops != [] {
      FitsWider(ops[1..], ops[0].end, cut + |b|, cut, cut + |b|);
      RoomLeft(ops[1..], ops[0].end, cut + |b|);
      SpliceCopies(s, a, b, ops[1..], offset, cut);
      ReplaceBehind(a, Splice(b, ops[1..], cut), ops[0].start - cut, ops[0].end - cut, ops[0].newdata);
      assert |a| + (ops[0].start - cut) == ops[0].start - offset;
      assert |a| + (ops[0].end - cut) == ops[0].end - offset;
      assert Same(Splice(s, ops, offset), a + Splice(b, ops, cut));
    }
  }

  /**
    Splitting commutes with splicing: where no operation straddles the cut, the two pieces can be
    rewritten separately, the second with an offset that is larger by the length of the first.
   */
  lemma SpliceSplits(a: string, b: string, opsA: seq<Operation>, opsB: seq<Operation>, offset: int)
    requires Fits(opsA, offset, offset + |a|) && Fits(opsB, offset + |a|, offset + |a| + |b|)
    ensures Fits(opsA + opsB, offset, offset + |a + b|)
    ensures Same(Splice(a + b, opsA + opsB, offset), Splice(a, opsA, offset) + Splice(b, opsB, offset + |a|))
  {
    FitsAppend(opsA, opsB, offset, offset + |a|, offset + |a| + |b|);
    SpliceCopies(a + b, a, b, opsB, offset, offset + |a|);
    SpliceInFront(a + b, a, Splice(b, opsB, offset + |a|), opsA, opsB, offset);
  }

  /** Operations on the first part act on that part only. */
  lemma {:induction false} SpliceInFront(s: string, a: string, restB: string,
                                         opsA: seq<Operation>, opsB: seq<Operation>, offset: int)
    requires Fits(opsA, offset, offset + |a|) && Fits(opsB, offset + |a|, offset + |s|)
    requires Fits(opsB, offset, offset + |s|) && Splice(s, opsB, offset) == a + restB
    requires Fits(opsA + opsB, offset, offset + |s|)
    ensures Splice(s, opsA + opsB, offset) == Splice(a, opsA, offset) + restB
  {
    if opsA == [] {
      assert opsA + opsB == opsB;
    } else {
      var op, st, q := opsA[0], opsA[0].start - offset, opsA[0].end - offset;
      FitsWider(opsA[1..], op.end, offset + |a|, offset, offset + |a|);
      RoomLeft(opsA[1..], op.end, offset + |a|);
      FitsAppend(opsA[1..], opsB, offset, offset + |a|, offset + |s|);
      SpliceInFront(s, a, restB, opsA[1..], opsB, offset);
      ReplaceInFront(Splice(a, opsA[1..], offset), restB, st, q, op.newdata);
      HeadOfAppend(opsA, opsB);
      SpliceUnfolds(s, opsA + opsB, op, opsA[1..] + opsB, offset);
      assert Same(Splice(s, opsA + opsB, offset), Splice(a, opsA, offset) + restB);
    }
  }

  lemma HeadOfAppend(a: seq<Operation>, b: seq<Operation>)
    requires a != []
    ensures a + b == [a[0]] + (a[1..] + b)
  {
  }

  lemma SpliceUnfolds(s: string, ops: seq<Operation>, op: Operation, rest: seq<Operation>, offset: int)
    requires Fits(ops, offset, offset + |s|) && ops == [op] + rest && Fits(rest, offset, offset + |s|)
    requires op.end - offset <= |Splice(s, rest, offset)|
    ensures Splice(s, ops, offset) == ReplaceOne(Splice(s, rest, offset), op.start - offset, op.end - offset, op.newdata)
  {
    assert ops[1..] == rest;
  }

  /** Read from the front: what is copied, the new data, and the rest spliced on its own. */
  lemma SpliceFromFront(s: string, ops: seq<Operation>, offset: int)
    requires Fits(ops, offset, offset + |s|) && ops != []
    ensures var st, q := ops[0].start - offset, ops[0].end - offset;
      Splice(s, ops, offset) == s[..st] + ops[0].newdata + Splice(s[q..], ops[1..], ops[0].end)
  {
    var st, q := ops[0].start - offset, ops[0].end - offset;
    var rest := Splice(s[q..], ops[1..], ops[0].end);
    SpliceCopies(s, s[..q], s[q..], ops[1..], offset, ops[0].end);
    ReplaceInside(s, st, q, ops[0].newdata, rest);
  }

  lemma ReplaceInside(s: string, st: nat, q: nat, newdata: string, rest: string)
    requires st <= q <= |s|
    ensures ReplaceOne(s[..q] + rest, st, q, newdata) == s[..st] + newdata + rest
  {
    assert (s[..q] + rest)[..st] == s[..st];
    assert (s[..q] + rest)[q..] == rest;
  }
}
