/**
  Edit operations (parser.h:13-27) and the parser object that collects them (parser.cc).
  A position counts bytes from the start of the parsed stream.
 */
module Operations {

  datatype Operation = Operation(start: int, end: int, newdata: string, cnt: bool) {
    /** How much the rewritten text grows. */
    function Delta(): int {
      |newdata| - (end - start)
    }
  }

  function TotalDelta(ops: seq<Operation>): int {
    if ops == [] then 0 else ops[0].Delta() + TotalDelta(ops[1..])
  }

  /** The growth of the operations marked as counted, which SIP adds to Content-Length. */
  function CountedDelta(ops: seq<Operation>): int {
    if ops == [] then 0 else (if ops[0].cnt then ops[0].Delta() else 0) + CountedDelta(ops[1..])
  }

  function TotalNew(ops: seq<Operation>): nat {
    if ops == [] then 0 else |ops[0].newdata| + TotalNew(ops[1..])
  }

  lemma {:induction false} TotalDeltaAppend(a: seq<Operation>, b: seq<Operation>)
    ensures TotalDelta(a + b) == TotalDelta(a) + TotalDelta(b)
  {
    if a == [] {
      assert a + b == b;
    } else {
      assert (a + b)[1..] == a[1..] + b;
      TotalDeltaAppend(a[1..], b);
    }
  }

  lemma {:induction false} CountedDeltaAppend(a: seq<Operation>, b: seq<Operation>)
    ensures CountedDelta(a + b) == CountedDelta(a) + CountedDelta(b)
  {
    if a == [] {
      assert a + b == b;
    } else {
      assert (a + b)[1..] == a[1..] + b;
      CountedDeltaAppend(a[1..], b);
    }
  }

  /** No operation makes the text shorter. */
  predicate NoneShrinks(ops: seq<Operation>) {
    forall i :: 0 <= i < |ops| ==> ops[i].Delta() >= 0
  }

  lemma NoneShrinksTail(ops: seq<Operation>)
    requires NoneShrinks(ops) && ops != []
    ensures NoneShrinks(ops[1..]) && ops[0].Delta() >= 0
  {
  }

  // ----- ordering by start position (parser.cc:71-73, std::sort at flow.cc:101)

  predicate SortedByStart(ops: seq<Operation>) {
    forall i, j :: 0 <= i < j < |ops| ==> ops[i].start <= ops[j].start
  }

  predicate DistinctStarts(ops: seq<Operation>) {
    forall i, j :: 0 <= i < j < |ops| ==> ops[i].start != ops[j].start
  }

  function Insert(op: Operation, ops: seq<Operation>): (r: seq<Operation>) {
    if ops == [] || op.start <= ops[0].start then [op] + ops else [ops[0]] + Insert(op, ops[1..])
  }

  /** The result of sorting; operations with equal starts keep their order. */
  function Sort(ops: seq<Operation>): (r: seq<Operation>) {
    if ops == [] then [] else Insert(ops[0], Sort(ops[1..]))
  }

  lemma {:induction false} InsertAdds(op: Operation, ops: seq<Operation>)
    ensures multiset(Insert(op, ops)) == multiset(ops) + multiset{op}
  {
    if ops != [] && op.start > ops[0].start {
      InsertAdds(op, ops[1..]);
      assert ops == [ops[0]] + ops[1..];
    }
  }

  lemma {:induction false} InsertKeepsOrder(op: Operation, ops: seq<Operation>)
    requires SortedByStart(ops)
    ensures SortedByStart(Insert(op, ops))
    ensures forall x :: x in Insert(op, ops) <==> x == op || x in ops
  {
    if ops != [] && op.start > ops[0].start {
      InsertKeepsOrder(op, ops[1..]);
      var r := Insert(op, ops[1..]);
      forall i | 0 <= i < |r| ensures ops[0].start <= r[i].start {
        assert r[i] in r;
      }
    }
  }

  /** Sorting orders the operations and neither loses nor invents one. */
  lemma {:induction false} SortSorts(ops: seq<Operation>)
    ensures SortedByStart(Sort(ops)) && multiset(Sort(ops)) == multiset(ops) && |Sort(ops)| == |ops|
  {
    if ops != [] {
      SortSorts(ops[1..]);
      InsertKeepsOrder(ops[0], Sort(ops[1..]));
      InsertAdds(ops[0], Sort(ops[1..]));
      assert ops == [ops[0]] + ops[1..];
    }
    assert |multiset(Sort(ops))| == |multiset(ops)|;
  }

  predicate StrictlySorted(ops: seq<Operation>) {
    forall i, j :: 0 <= i < j < |ops| ==> ops[i].start < ops[j].start
  }

  lemma TailMultiset(s: seq<Operation>)
    requires s != []
    ensures multiset(s[1..]) == multiset(s) - multiset{s[0]}
  {
    assert s == [s[0]] + s[1..];
  }

  lemma SmallestFirst(a: seq<Operation>, b: seq<Operation>)
    requires StrictlySorted(a) && SortedByStart(b) && multiset(a) == multiset(b) && a != []
    ensures b != [] && a[0] == b[0]
  {
    assert a[0] in multiset(b);
    assert a[0] in b;
    assert b[0] in multiset(a);
    assert b[0] in a;
  }

  /** With distinct start positions there is only one sorted arrangement. */
  lemma {:induction false} SortedArrangementUnique(a: seq<Operation>, b: seq<Operation>)
    requires StrictlySorted(a) && SortedByStart(b)
    requires multiset(a) == multiset(b)
    ensures a == b
  {
    if a == [] {
      assert |multiset(b)| == 0;
    } else {
      SmallestFirst(a, b);
      TailMultiset(a);
      TailMultiset(b);
      SortedArrangementUnique(a[1..], b[1..]);
      assert a == [a[0]] + a[1..] && b == [b[0]] + b[1..];
    }
  }

  lemma {:induction false} SortOfSorted(ops: seq<Operation>)
    requires SortedByStart(ops)
    ensures Sort(ops) == ops
  {
    if ops != [] {
      SortOfSorted(ops[1..]);
    }
  }

  lemma {:induction false} InsertKeepsDistinct(op: Operation, ops: seq<Operation>)
    requires StrictlySorted(ops) && forall i :: 0 <= i < |ops| ==> ops[i].start != op.start
    ensures StrictlySorted(Insert(op, ops))
    ensures forall x :: x in Insert(op, ops) <==> x == op || x in ops
  {
    if ops == [] || op.start <= ops[0].start {
      assert ops == [] || op.start < ops[0].start;
    } else {
      InsertKeepsDistinct(op, ops[1..]);
      var r := Insert(op, ops[1..]);
      forall i | 0 <= i < |r| ensures ops[0].start < r[i].start {
        assert r[i] in r;
      }
    }
  }

  lemma {:induction false} SortStrictly(ops: seq<Operation>)
    requires DistinctStarts(ops)
    ensures StrictlySorted(Sort(ops))
    ensures forall x :: x in Sort(ops) <==> x in ops
  {
    if ops != [] {
      SortStrictly(ops[1..]);
      forall i | 0 <= i < |Sort(ops[1..])| ensures Sort(ops[1..])[i].start != ops[0].start {
        assert Sort(ops[1..])[i] in ops[1..];
      }
      InsertKeepsDistinct(ops[0], Sort(ops[1..]));
    }
  }

  /** Sorting gives the same list for every order in which the operations were recorded. */
  lemma SortIgnoresArrivalOrder(a: seq<Operation>, b: seq<Operation>)
    requires DistinctStarts(a) && multiset(a) == multiset(b)
    ensures Sort(a) == Sort(b)
  {
    SortStrictly(a);
    SortSorts(a);
    SortSorts(b);
    SortedArrangementUnique(Sort(a), Sort(b));
  }
}
