/** The sample `DataProcessor`: a vector of C++ `int`s that values are
    appended to, that is sorted in place and whose elements are summed in an
    `int` accumulator. */
module DataProcessorSample {

  /** A 32-bit signed C++ `int`. */
  newtype int32 = x: int | -0x8000_0000 <= x < 0x8000_0000

  predicate InRange(x: int) {
    -0x8000_0000 <= x < 0x8000_0000
  }

  /** The sum from the left, the order in which `getSum` adds. */
  function Sum(s: seq<int32>): int
    decreases |s|
  {
    if s == [] then 0 else Sum(s[..|s| - 1]) + s[|s| - 1] as int
  }

  /** Every running total `getSum` forms fits in an `int`: signed overflow
      is undefined behaviour in C++. */
  predicate SumsFit(s: seq<int32>) {
    forall i :: 0 <= i <= |s| ==> InRange(Sum(s[..i]))
  }

  predicate Sorted(s: seq<int32>) {
    forall i, j :: 0 <= i < j < |s| ==> s[i] <= s[j]
  }

  /** `x` put before the first element of `s` that is not smaller. */
  function Insert(x: int32, s: seq<int32>): seq<int32>
    decreases |s|
  {
    if s == [] || x <= s[0] then [x] + s else [s[0]] + Insert(x, s[1..])
  }

  /** A reference sort: insertion, element by element. */
  function InsertionSort(s: seq<int32>): seq<int32>
    decreases |s|
  {
    if s == [] then [] else Insert(s[0], InsertionSort(s[1..]))
  }

  /** No element of `s` is below `y`. */
  predicate AtLeast(y: int32, s: seq<int32>) {
    forall k :: 0 <= k < |s| ==> y <= s[k]
  }

  lemma SortedCons(y: int32, s: seq<int32>)
    requires Sorted(s) && AtLeast(y, s)
    ensures Sorted([y] + s)
  {
  }

  lemma SortedTail(s: seq<int32>)
    requires Sorted(s) && s != []
    ensures Sorted(s[1..]) && AtLeast(s[0], s[1..])
  {
  }

  lemma {:induction false} InsertAtLeast(y: int32, x: int32, s: seq<int32>)
    requires y <= x && AtLeast(y, s)
    ensures AtLeast(y, Insert(x, s))
    decreases |s|
  {
    if s != [] && x > s[0] {
      InsertAtLeast(y, x, s[1..]);
    }
  }

  lemma {:induction false} InsertFacts(x: int32, s: seq<int32>)
    requires Sorted(s)
    ensures Sorted(Insert(x, s))
    ensures multiset(Insert(x, s)) == multiset(s) + multiset{x}
    ensures |Insert(x, s)| == |s| + 1
    decreases |s|
  {
    if s == [] || x <= s[0] {
      SortedCons(x, s);
    } else {
      SortedTail(s);
      InsertFacts(x, s[1..]);
      InsertAtLeast(s[0], x, s[1..]);
      SortedCons(s[0], Insert(x, s[1..]));
      assert s == [s[0]] + s[1..];
    }
  }

  /** The reference sort orders its input and keeps every element. */
  lemma {:induction false} InsertionSortFacts(s: seq<int32>)
    ensures Sorted(InsertionSort(s))
    ensures multiset(InsertionSort(s)) == multiset(s)
    decreases |s|
  {
    if s != [] {
      InsertionSortFacts(s[1..]);
      InsertFacts(s[0], InsertionSort(s[1..]));
      assert s == [s[0]] + s[1..];
    }
  }

  lemma {:induction false} SortedHeadIsMin(s: seq<int32>, x: int32)
    requires Sorted(s) && x in multiset(s)
    ensures s[0] <= x
  {
    var k :| 0 <= k < |s| && s[k] == x;
  }

  /** Sorting has one answer: two ordered sequences with the same
      elements are equal, so any correct sort leaves the same data. */
  lemma MultisetCancel(m: multiset<int32>, n: multiset<int32>, x: int32)
    requires m + multiset{x} == n + multiset{x}
    ensures m == n
  {
    assert forall y :: m[y] == (m + multiset{x})[y] - multiset{x}[y];
    assert forall y :: n[y] == (n + multiset{x})[y] - multiset{x}[y];
  }

  lemma {:induction false} SortedUnique(a: seq<int32>, b: seq<int32>)
    requires Sorted(a) && Sorted(b) && multiset(a) == multiset(b)
    ensures a == b
    decreases |a|
  {
    assert |a| == |multiset(a)| == |b|;
    if a != [] {
      assert a[0] in multiset(b) && b[0] in multiset(a);
      SortedHeadIsMin(b, a[0]);
      SortedHeadIsMin(a, b[0]);
      assert a[0] == b[0];
      assert a == [a[0]] + a[1..] && b == [b[0]] + b[1..];
      assert multiset(a) == multiset(a[1..]) + multiset{a[0]};
      assert multiset(b) == multiset(b[1..]) + multiset{a[0]};
      MultisetCancel(multiset(a[1..]), multiset(b[1..]), a[0]);
      SortedTail(a);
      SortedTail(b);
      SortedUnique(a[1..], b[1..]);
    }
  }

  lemma {:induction false} SumAppend(s: seq<int32>, t: seq<int32>)
    ensures Sum(s + t) == Sum(s) + Sum(t)
    decreases |t|
  {
    if t != [] {
      var u := t[..|t| - 1];
      assert (s + t)[..|s + t| - 1] == s + u;
      assert (s + t)[|s + t| - 1] == t[|t| - 1];
      assert Sum(s + t) == Sum(s + u) + t[|t| - 1] as int;
      assert Sum(t) == Sum(u) + t[|t| - 1] as int;
      SumAppend(s, u);
    } else {
      assert s + t == s;
    }
  }

  /** The total does not depend on the order of the elements. */
  lemma {:induction false} SumPermutation(a: seq<int32>, b: seq<int32>)
    requires multiset(a) == multiset(b)
    ensures Sum(a) == Sum(b)
    decreases |a|
  {
    assert |a| == |multiset(a)| == |b|;
    if a != [] {
      var n := |a| - 1;
      var x := a[n];
      assert x in multiset(b);
      var j :| 0 <= j < |b| && b[j] == x;
      var rest := b[..j] + b[j + 1..];
      assert b == b[..j] + [x] + b[j + 1..];
      assert a == a[..n] + [x];
      assert multiset(a) == multiset(a[..n]) + multiset{x};
      assert multiset(b) == multiset(b[..j]) + multiset{x} + multiset(b[j + 1..]);
      assert multiset(rest) == multiset(b[..j]) + multiset(b[j + 1..]);
      MultisetCancel(multiset(a[..n]), multiset(rest), x);
      SumPermutation(a[..n], rest);
      SumAppend(b[..j] + [x], b[j + 1..]);
      SumAppend(b[..j], [x]);
      SumAppend(b[..j], b[j + 1..]);
      assert Sum([x]) == x as int by { assert [x][..0] == []; }
    }
  }

  class DataProcessor {
    var data: seq<int32>

    constructor()
      ensures data == []
    {
      data := [];
    }

    /** `addData`: the value goes at the end. */
    method AddData(value: int32)
      modifies this
      ensures data == old(data) + [value]
    {
      data := data + [value];
    }

    /** `sortData`: `std::sort` is not visible, so the model keeps what it
        promises: ascending order, the same elements, which by
        `SortedUnique` is exactly the reference sort's answer. */
    method SortData()
      modifies this
      ensures Sorted(data) && multiset(data) == multiset(old(data))
      ensures data == InsertionSort(old(data))
    {
      InsertionSortFacts(data);
      data := InsertionSort(data);
    }

    /** `getSum`: the running total of the elements from the first on. */
    method GetSum() returns (sum: int32)
      requires SumsFit(data)
      ensures sum as int == Sum(data)
    {
      sum := 0;
      for i := 0 to |data|
        invariant sum as int == Sum(data[..i])
      {
        assert data[..i + 1][..i] == data[..i];
        assert InRange(Sum(data[..i + 1]));
        sum := sum + data[i];
      }
      assert data[..|data|] == data;
    }
  }

  /** Sorting keeps the total. */
  lemma SortKeepsSum(s: seq<int32>)
    ensures Sum(InsertionSort(s)) == Sum(s)
  {
    InsertionSortFacts(s);
    SumPermutation(InsertionSort(s), s);
  }

  /** The values `main` adds, in order. */
  const Sample: seq<int32> := [5, 2, 8, 1]

  /** The only ordering of the sample values. */
  lemma SortedSample(d: seq<int32>)
    requires Sorted(d) && multiset(d) == multiset(Sample)
    ensures d == [1, 2, 5, 8]
  {
    var expected: seq<int32> := [1, 2, 5, 8];
    assert multiset(Sample) == multiset(expected);
    SortedUnique(d, expected);
  }

  lemma SampleSums()
    ensures SumsFit([1, 2, 5, 8]) && Sum([1, 2, 5, 8]) == 16
  {
    var d: seq<int32> := [1, 2, 5, 8];
    var d1: seq<int32>, d2: seq<int32>, d3: seq<int32> := [1], [1, 2], [1, 2, 5];
    assert d[..1] == d1 && d[..2] == d2 && d[..3] == d3 && d[..4] == d;
    assert d2[..1] == d1 && d3[..2] == d2 && d1[..0] == [];
  }

  /** `main`: 5, 2, 8 and 1 added, then sorted, then summed. */
  method Scenario() returns (sorted: seq<int32>, sum: int32)
    ensures sorted == [1, 2, 5, 8] && sum == 16
  {
    var processor := new DataProcessor();
    processor.AddData(5);
    processor.AddData(2);
    processor.AddData(8);
    processor.AddData(1);
    assert processor.data == Sample;
    processor.SortData();
    SortedSample(processor.data);
    SampleSums();
    sorted := processor.data;
    sum := processor.GetSum();
  }
}
