/** The detokenizer's suffix array, src/tokenizer/detokenizer.cpp:119-131 and detokenizer.h:43-64: all suffix
    positions sorted, and two binary searches whose distance must be the number of occurrences. */
module SuffixArray {

  // ---------- the order ----------

  /** std::string::compare: lexicographic, a proper prefix first. */
  function Compare(a: string, b: string): (c: int)
    ensures -1 <= c <= 1
    ensures c == 0 <==> a == b
  {
    if a == "" then (if b == "" then 0 else -1)
    else if b == "" then 1
    else if a[0] != b[0] then (if a[0] < b[0] then -1 else 1)
    else
      assert a == [a[0]] + a[1..] && b == [b[0]] + b[1..];
      Compare(a[1..], b[1..])
  }

  lemma {:induction false} CompareOpposite(a: string, b: string)
    ensures Compare(a, b) == -Compare(b, a)
    decreases |a|
  {
    if a != "" && b != "" && a[0] == b[0] { CompareOpposite(a[1..], b[1..]); }
  }

  lemma {:induction false} CompareTransitive(a: string, b: string, c: string)
    requires Compare(a, b) <= 0 && Compare(b, c) <= 0
    ensures Compare(a, c) <= 0
    decreases |a|
  {
    if a != "" && b != "" && c != "" && a[0] == b[0] == c[0] { CompareTransitive(a[1..], b[1..], c[1..]); }
  }

  function Take(s: string, n: nat): string { if n <= |s| then s[..n] else s }

  /** Truncation keeps the order. */
  lemma {:induction false} TruncationMonotone(a: string, b: string, n: nat)
    requires Compare(a, b) <= 0
    ensures Compare(Take(a, n), Take(b, n)) <= 0
    decreases n
  {
    if n > 0 && a != "" && b != "" && a[0] == b[0] {
      TruncationMonotone(a[1..], b[1..], n - 1);
      var ta, tb := Take(a, n), Take(b, n);
      assert ta[0] == a[0] && ta[1..] == Take(a[1..], n - 1);
      assert tb[0] == b[0] && tb[1..] == Take(b[1..], n - 1);
    }
  }

  // ---------- occurrences ----------

  predicate OccursAt(str: string, p: string, i: nat) {
    i + |p| <= |str| && str[i..i + |p|] == p
  }

  /** Naive counting: the positions of the text at which p occurs. */
  ghost function Occurrences(str: string, p: string): set<nat> {
    set i: nat | i < |str| && OccursAt(str, p, i)
  }

  ghost predicate Distinct(s: seq<nat>) {
    forall i, j | 0 <= i < j < |s| :: s[i] != s[j]
  }

  ghost function Elements(s: seq<nat>): set<nat> { set x | x in s }

  lemma {:induction false} DistinctSize(s: seq<nat>)
    requires Distinct(s)
    ensures |Elements(s)| == |s|
    decreases |s|
  {
    if s != [] {
      DistinctSize(s[1..]);
      assert s[0] !in s[1..];
      assert Elements(s) == {s[0]} + Elements(s[1..]);
    }
  }

  // ---------- the array ----------

  ghost predicate SortedSuffixes(str: string, sa: seq<nat>) {
    && (forall k | 0 <= k < |sa| :: sa[k] < |str|)
    && forall i, j | 0 <= i < j < |sa| :: Compare(str[sa[i]..], str[sa[j]..]) <= 0
  }

  ghost predicate Permutation(str: string, sa: seq<nat>) {
    && |sa| == |str| && Distinct(sa)
    && (forall i: nat | i < |str| :: i in sa)
  }

  /** Inserts position x into sorted positions: one step of the sort. */
  method Insert(str: string, sorted: seq<nat>, x: nat) returns (r: seq<nat>)
    requires SortedSuffixes(str, sorted) && x < |str| && Distinct(sorted) && x !in sorted
    ensures SortedSuffixes(str, r) && Distinct(r) && |r| == |sorted| + 1
    ensures forall y :: y in r <==> y in sorted || y == x
  {
    var k := |sorted|;
    while k > 0 && Compare(str[x..], str[sorted[k - 1]..]) < 0
      invariant 0 <= k <= |sorted|
      invariant forall j | k <= j < |sorted| :: Compare(str[x..], str[sorted[j]..]) <= 0
    {
      k := k - 1;
    }
    r := sorted[..k] + [x] + sorted[k..];
    InsertedSorted(str, sorted, x, k);
    InsertedMembers(sorted, x, k);
  }

  lemma {:induction false} InsertedSorted(str: string, sorted: seq<nat>, x: nat, k: nat)
    requires SortedSuffixes(str, sorted) && x < |str| && k <= |sorted|
    requires forall j | k <= j < |sorted| :: Compare(str[x..], str[sorted[j]..]) <= 0
    requires k > 0 ==> Compare(str[x..], str[sorted[k - 1]..]) >= 0
    ensures SortedSuffixes(str, sorted[..k] + [x] + sorted[k..])
  {
    var r := sorted[..k] + [x] + sorted[k..];
    assert forall i | 0 <= i < |r| :: r[i] == if i < k then sorted[i] else if i == k then x else sorted[i - 1];
    forall i, j | 0 <= i < j < |r| ensures Compare(str[r[i]..], str[r[j]..]) <= 0 {
      if j == k { BelowInserted(str, sorted, x, k, i); }
    }
  }

  lemma {:induction false} BelowInserted(str: string, sorted: seq<nat>, x: nat, k: nat, i: nat)
    requires SortedSuffixes(str, sorted) && x < |str| && i < k <= |sorted|
    requires Compare(str[x..], str[sorted[k - 1]..]) >= 0
    ensures Compare(str[sorted[i]..], str[x..]) <= 0
  {
    CompareOpposite(str[x..], str[sorted[k - 1]..]);
    if i < k - 1 { CompareTransitive(str[sorted[i]..], str[sorted[k - 1]..], str[x..]); }
  }

  lemma {:induction false} InsertedMembers(sorted: seq<nat>, x: nat, k: nat)
    requires k <= |sorted| && Distinct(sorted) && x !in sorted
    ensures var r := sorted[..k] + [x] + sorted[k..];
            Distinct(r) && forall y :: y in r <==> y in sorted || y == x
  {
    var r := sorted[..k] + [x] + sorted[k..];
    assert sorted == sorted[..k] + sorted[k..];
    assert forall i | 0 <= i < |r| :: r[i] == if i < k then sorted[i] else if i == k then x else sorted[i - 1];
  }

  class SuffixArray {
    const str: string
    var sa: seq<nat>

    ghost predicate Valid()
      reads this
    {
      SortedSuffixes(str, sa) && Permutation(str, sa)
    }

    /** All positions, sorted by suffix. The library sort is stood in for by insertion. */
    constructor (str: string)
      ensures Valid() && this.str == str
    {
      this.str := str;
      var positions: seq<nat> := [];
      for i := 0 to |str|
        invariant SortedSuffixes(str, positions) && Distinct(positions) && |positions| == i
        invariant forall y :: y in positions <==> 0 <= y < i
      {
        positions := Insert(str, positions, i);
      }
      sa := positions;
    }

    /** suffix_lower_find and suffix_upper_find: the suffix at position a, cut to the pattern's length. */
    static function Key(str: string, a: nat, data: string): int
      requires a < |str|
    {
      Compare(Take(str[a..], |data|), data)
    }

    static lemma KeyMonotone(str: string, sa: seq<nat>, data: string, i: nat, j: nat)
      requires SortedSuffixes(str, sa) && i <= j < |sa|
      ensures Key(str, sa[i], data) <= 0 || Key(str, sa[j], data) > 0
      ensures Key(str, sa[i], data) < 0 || Key(str, sa[j], data) >= 0
    {
      var x, y := Take(str[sa[i]..], |data|), Take(str[sa[j]..], |data|);
      if i < j { TruncationMonotone(str[sa[i]..], str[sa[j]..], |data|); }
      CompareOpposite(x, data);
      CompareOpposite(y, data);
      if Compare(y, data) <= 0 { CompareTransitive(x, y, data); }
      if Compare(y, data) < 0 && Compare(x, data) >= 0 { CompareTransitive(data, x, y); }
    }

    /** std::lower_bound: the first position whose key is not below the pattern. */
    method LowerBound(data: string) returns (first: nat)
      requires Valid()
      ensures first <= |sa|
      ensures forall k | 0 <= k < first :: Key(str, sa[k], data) < 0
      ensures forall k | first <= k < |sa| :: Key(str, sa[k], data) >= 0
    {
      first := 0;
      var count := |sa|;
      while count > 0
        invariant 0 <= count && first + count <= |sa|
        invariant forall k | 0 <= k < first :: Key(str, sa[k], data) < 0
        invariant forall k | first + count <= k < |sa| :: Key(str, sa[k], data) >= 0
      {
        var step := count / 2;
        var middle := first + step;
        forall k | 0 <= k < |sa|
          ensures if k <= middle then Key(str, sa[k], data) < 0 || Key(str, sa[middle], data) >= 0
                  else Key(str, sa[middle], data) < 0 || Key(str, sa[k], data) >= 0
        {
          if k <= middle { KeyMonotone(str, sa, data, k, middle); } else { KeyMonotone(str, sa, data, middle, k); }
        }
        if Key(str, sa[middle], data) < 0 {
          first, count := middle + 1, count - step - 1;
        } else {
          count := step;
        }
      }
    }

    /** std::upper_bound: the first position whose key is above the pattern. */
    method UpperBound(data: string) returns (first: nat)
      requires Valid()
      ensures first <= |sa|
      ensures forall k | 0 <= k < first :: Key(str, sa[k], data) <= 0
      ensures forall k | first <= k < |sa| :: Key(str, sa[k], data) > 0
    {
      first := 0;
      var count := |sa|;
      while count > 0
        invariant 0 <= count && first + count <= |sa|
        invariant forall k | 0 <= k < first :: Key(str, sa[k], data) <= 0
        invariant forall k | first + count <= k < |sa| :: Key(str, sa[k], data) > 0
      {
        var step := count / 2;
        var middle := first + step;
        forall k | 0 <= k < |sa|
          ensures if k <= middle then Key(str, sa[k], data) <= 0 || Key(str, sa[middle], data) > 0
                  else Key(str, sa[middle], data) <= 0 || Key(str, sa[k], data) > 0
        {
          if k <= middle { KeyMonotone(str, sa, data, k, middle); } else { KeyMonotone(str, sa, data, middle, k); }
        }
        if !(Key(str, sa[middle], data) > 0) {
          first, count := middle + 1, count - step - 1;
        } else {
          count := step;
        }
      }
    }

    lemma {:induction false} BoundsOrdered(data: string, lower: nat, upper: nat)
      requires Valid() && lower <= |sa| && upper <= |sa|
      requires forall k | 0 <= k < lower :: Key(str, sa[k], data) < 0
      requires forall k | upper <= k < |sa| :: Key(str, sa[k], data) > 0
      ensures lower <= upper
    {
      if lower > 0 { assert Key(str, sa[lower - 1], data) < 0; }
    }

    /** The number of occurrences, for every text and every pattern. */
    method Count(data: string) returns (n: nat)
      requires Valid()
      ensures n == |Occurrences(str, data)|
    {
      var lower := LowerBound(data);
      var upper := UpperBound(data);
      BoundsOrdered(data, lower, upper);
      n := upper - lower;
      FoundAll(str, sa, data, lower, upper);
    }
  }

  lemma {:induction false} KeyIsOccurrence(str: string, a: nat, data: string)
    requires a < |str|
    ensures SuffixArray.Key(str, a, data) == 0 <==> OccursAt(str, data, a)
  {
    if a + |data| <= |str| {
      assert Take(str[a..], |data|) == str[a..a + |data|];
    }
  }

  /** The positions between the two bounds are exactly the occurrences. */
  lemma {:induction false} FoundAll(str: string, sa: seq<nat>, data: string, lower: nat, upper: nat)
    requires SortedSuffixes(str, sa) && Permutation(str, sa) && lower <= upper <= |sa|
    requires forall k | 0 <= k < |sa| :: (k < lower ==> SuffixArray.Key(str, sa[k], data) < 0)
                                         && (lower <= k ==> SuffixArray.Key(str, sa[k], data) >= 0)
                                         && (k < upper ==> SuffixArray.Key(str, sa[k], data) <= 0)
                                         && (upper <= k ==> SuffixArray.Key(str, sa[k], data) > 0)
    ensures upper - lower == |Occurrences(str, data)|
  {
    var found := sa[lower..upper];
    DistinctSize(found);
    forall i: nat ensures i in Elements(found) <==> i in Occurrences(str, data) {
      FoundOne(str, sa, data, lower, upper, i);
    }
    assert Elements(found) == Occurrences(str, data);
  }

  lemma {:induction false} FoundOne(str: string, sa: seq<nat>, data: string, lower: nat, upper: nat, i: nat)
    requires SortedSuffixes(str, sa) && Permutation(str, sa) && lower <= upper <= |sa|
    requires forall k | 0 <= k < |sa| :: (lower <= k < upper <==> SuffixArray.Key(str, sa[k], data) == 0)
    ensures i in sa[lower..upper] <==> i < |str| && OccursAt(str, data, i)
  {
    var found := sa[lower..upper];
    if i < |str| {
      KeyIsOccurrence(str, i, data);
      assert i in sa;
      var k :| 0 <= k < |sa| && sa[k] == i;
      if lower <= k < upper { assert found[k - lower] == i; }
    }
  }
}
