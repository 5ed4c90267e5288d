/** The longest common subsequence in multiword blocks. */
module Lcs {

  // src/model/evaluator.cpp:343-362: the table filled in place from the back, and the forward traceback that greedily
  // takes equal entries.

  function Max(x: nat, y: nat): nat { if x > y then x else y }

  /** The value the table holds for the suffixes a[s..] and b[g..]. */
  function Length<T(==)>(a: seq<T>, b: seq<T>, s: nat, g: nat): nat
    decreases |a| - s + |b| - g
  {
    if s >= |a| || g >= |b| then 0
    else
      var skip := Max(Length(a, b, s + 1, g), Length(a, b, s, g + 1));
      if a[s] == b[g] then Max(skip, 1 + Length(a, b, s + 1, g + 1)) else skip
  }

  /** The pairs the traceback emits from (s, g). */
  function Trace<T(==)>(a: seq<T>, b: seq<T>, s: nat, g: nat): seq<(nat, nat)>
    decreases |a| - s + |b| - g
  {
    if s >= |a| || g >= |b| then []
    else if a[s] == b[g] then [(s, g)] + Trace(a, b, s + 1, g + 1)
    else if Length(a, b, s, g) == Length(a, b, s + 1, g) then Trace(a, b, s + 1, g)
    else Trace(a, b, s, g + 1)
  }

  /** Pairs of positions, strictly increasing on both sides. */
  ghost predicate Increasing(pairs: seq<(nat, nat)>) {
    forall i, j | 0 <= i < j < |pairs| :: pairs[i].0 < pairs[j].0 && pairs[i].1 < pairs[j].1
  }

  /** A common subsequence of a[s..] and b[g..], given by the positions of its entries. */
  ghost predicate Common<T>(a: seq<T>, b: seq<T>, s: nat, g: nat, pairs: seq<(nat, nat)>) {
    && Increasing(pairs)
    && forall i | 0 <= i < |pairs| ::
         s <= pairs[i].0 < |a| && g <= pairs[i].1 < |b| && a[pairs[i].0] == b[pairs[i].1]
  }

  /** No common subsequence is longer than the table says. */
  lemma {:induction false} LengthBounds<T>(a: seq<T>, b: seq<T>, s: nat, g: nat, pairs: seq<(nat, nat)>)
    requires Common(a, b, s, g, pairs)
    ensures |pairs| <= Length(a, b, s, g)
    decreases |a| - s + |b| - g
  {
    if pairs != [] {
      if pairs[0].0 > s {
        LengthBounds(a, b, s + 1, g, pairs);
      } else if pairs[0].1 > g {
        LengthBounds(a, b, s, g + 1, pairs);
      } else {
        LengthBounds(a, b, s + 1, g + 1, pairs[1..]);
      }
    }
  }

  /** Dropping the first entry of either side loses at most one pair. */
  lemma {:induction false} DropOne<T>(a: seq<T>, b: seq<T>, s: nat, g: nat)
    ensures Length(a, b, s, g) <= 1 + Length(a, b, s + 1, g)
    ensures Length(a, b, s, g) <= 1 + Length(a, b, s, g + 1)
    decreases |a| - s + |b| - g
  {
    if s < |a| && g < |b| {
      DropOne(a, b, s + 1, g);
      DropOne(a, b, s, g + 1);
    }
  }

  /** Taking equal entries loses nothing. */
  lemma {:induction false} TakeEqual<T>(a: seq<T>, b: seq<T>, s: nat, g: nat)
    requires s < |a| && g < |b| && a[s] == b[g]
    ensures Length(a, b, s, g) == 1 + Length(a, b, s + 1, g + 1)
  {
    DropOne(a, b, s + 1, g);
    DropOne(a, b, s, g + 1);
  }

  lemma {:induction false} CommonPrepend<T>(a: seq<T>, b: seq<T>, s: nat, g: nat, pairs: seq<(nat, nat)>)
    requires s < |a| && g < |b| && a[s] == b[g] && Common(a, b, s + 1, g + 1, pairs)
    ensures Common(a, b, s, g, [(s, g)] + pairs)
  {
  }

  lemma {:induction false} CommonWider<T>(a: seq<T>, b: seq<T>, s: nat, g: nat, s': nat, g': nat,
      pairs: seq<(nat, nat)>)
    requires s <= s' && g <= g' && Common(a, b, s', g', pairs)
    ensures Common(a, b, s, g, pairs)
  {
  }

  /** The traceback emits a common subsequence that attains the length in the table. */
  lemma {:induction false} TraceAttains<T>(a: seq<T>, b: seq<T>, s: nat, g: nat)
    ensures Common(a, b, s, g, Trace(a, b, s, g))
    ensures |Trace(a, b, s, g)| == Length(a, b, s, g)
    decreases |a| - s + |b| - g
  {
    if s < |a| && g < |b| {
      if a[s] == b[g] {
        TraceAttains(a, b, s + 1, g + 1);
        TakeEqual(a, b, s, g);
        CommonPrepend(a, b, s, g, Trace(a, b, s + 1, g + 1));
      } else if Length(a, b, s, g) == Length(a, b, s + 1, g) {
        TraceAttains(a, b, s + 1, g);
        CommonWider(a, b, s, g, s + 1, g, Trace(a, b, s + 1, g));
      } else {
        TraceAttains(a, b, s, g + 1);
        CommonWider(a, b, s, g, s, g + 1, Trace(a, b, s, g + 1));
      }
    }
  }

  /** The traceback is optimal among all common subsequences. */
  lemma {:induction false} TraceOptimal<T>(a: seq<T>, b: seq<T>, pairs: seq<(nat, nat)>)
    requires Common(a, b, 0, 0, pairs)
    ensures |pairs| <= |Trace(a, b, 0, 0)| == Length(a, b, 0, 0)
  {
    LengthBounds(a, b, 0, 0, pairs);
    TraceAttains(a, b, 0, 0);
  }

  // ---------- which of the longest ones ----------

  /** A longest common subsequence of a[s..] and b[g..]. */
  ghost predicate Longest<T>(a: seq<T>, b: seq<T>, s: nat, g: nat, pairs: seq<(nat, nat)>) {
    Common(a, b, s, g, pairs) && |pairs| == Length(a, b, s, g)
  }

  /** Behind its first pair the traceback goes on from there. */
  lemma {:induction false} TraceRest<T>(a: seq<T>, b: seq<T>, s: nat, g: nat)
    requires Trace(a, b, s, g) != []
    ensures var t := Trace(a, b, s, g); t[1..] == Trace(a, b, t[0].0 + 1, t[0].1 + 1)
    decreases |a| - s + |b| - g
  {
    if a[s] != b[g] {
      if Length(a, b, s, g) == Length(a, b, s + 1, g) { TraceRest(a, b, s + 1, g); } else { TraceRest(a, b, s, g + 1); }
    }
  }

  /** If leaving out a[s] loses a pair, every longest common subsequence starts with it. */
  lemma {:induction false} MustStart<T>(a: seq<T>, b: seq<T>, s: nat, g: nat, pairs: seq<(nat, nat)>)
    requires Longest(a, b, s, g, pairs) && pairs != [] && Length(a, b, s + 1, g) < Length(a, b, s, g)
    ensures pairs[0].0 == s
  {
    if pairs[0].0 > s { LengthBounds(a, b, s + 1, g, pairs); }
  }

  /** No longest common subsequence starts earlier in b. */
  lemma {:induction false} StartsLeast<T>(a: seq<T>, b: seq<T>, s: nat, g: nat, pairs: seq<(nat, nat)>)
    requires Longest(a, b, s, g, pairs) && pairs != []
    ensures Trace(a, b, s, g) != [] && Trace(a, b, s, g)[0].1 <= pairs[0].1
    decreases |a| - s + |b| - g
  {
    TraceAttains(a, b, s, g);
    if a[s] != b[g] {
      if Length(a, b, s, g) == Length(a, b, s + 1, g) {
        TraceAttains(a, b, s + 1, g);
        var t := Trace(a, b, s + 1, g);
        if pairs[0].0 > s {
          StartsLeast(a, b, s + 1, g, pairs);
        } else if t[0].1 > pairs[0].1 {
          LengthBounds(a, b, s, g, [pairs[0]] + t);
        }
      } else {
        MustStart(a, b, s, g, pairs);
        StartsLeast(a, b, s, g + 1, pairs);
      }
    }
  }

  /** If it starts with the first entry of b, it takes the first equal entry of a. */
  lemma {:induction false} StartsFirst<T>(a: seq<T>, b: seq<T>, s: nat, g: nat, i: nat)
    requires Trace(a, b, s, g) != [] && Trace(a, b, s, g)[0].1 == g && s <= i < Trace(a, b, s, g)[0].0
    ensures i < |a| && g < |b| && a[i] != b[g]
    decreases |a| - s + |b| - g
  {
    TraceAttains(a, b, s, g);
    if a[s] != b[g] {
      if Length(a, b, s, g) == Length(a, b, s + 1, g) {
        if i > s { StartsFirst(a, b, s + 1, g, i); }
      } else {
        TraceAttains(a, b, s, g + 1);
      }
    }
  }

  /** If not, it starts with the last entry of a that any can start with, and the first equal entry of b. */
  lemma {:induction false} StartsLast<T>(a: seq<T>, b: seq<T>, s: nat, g: nat, pairs: seq<(nat, nat)>)
    requires Longest(a, b, s, g, pairs) && pairs != []
    requires Trace(a, b, s, g) != [] && Trace(a, b, s, g)[0].1 > g
    ensures var t := Trace(a, b, s, g);
            && pairs[0].0 <= t[0].0 < |a| && t[0].1 < |b|
            && forall k | g <= k < t[0].1 :: b[k] != a[t[0].0]
    decreases |a| - s + |b| - g
  {
    TraceAttains(a, b, s, g);
    var t := Trace(a, b, s, g);
    if Length(a, b, s, g) == Length(a, b, s + 1, g) {
      TraceAttains(a, b, s + 1, g);
      StartsLast(a, b, s + 1, g, if pairs[0].0 > s then pairs else t);
    } else {
      MustStart(a, b, s, g, pairs);
      MustStart(a, b, s, g, t);
      TraceAttains(a, b, s, g + 1);
      if t[0].1 > g + 1 { StartsLast(a, b, s, g + 1, t); }
    }
  }

  /** The traceback, told without its steps: behind each pair it goes on with the least entry of b that a longest common
      subsequence of what is left can start with; if that is the next one, with the first equal entry of a, and if not,
      with the last entry of a that one can start with and the first entry of b equal to that. */
  lemma {:induction false} TraceChooses<T>(a: seq<T>, b: seq<T>, s: nat, g: nat, pairs: seq<(nat, nat)>)
    requires Longest(a, b, s, g, pairs) && pairs != []
    ensures var t := Trace(a, b, s, g);
            && t != [] && t[0].0 < |a| && t[0].1 < |b| && t[0].1 <= pairs[0].1
            && t[1..] == Trace(a, b, t[0].0 + 1, t[0].1 + 1)
            && (if t[0].1 == g then forall i | s <= i < t[0].0 :: a[i] != b[g]
                else pairs[0].0 <= t[0].0 && forall k | g <= k < t[0].1 :: b[k] != a[t[0].0])
  {
    TraceAttains(a, b, s, g);
    StartsLeast(a, b, s, g, pairs);
    TraceRest(a, b, s, g);
    var t := Trace(a, b, s, g);
    if t[0].1 == g {
      forall i | s <= i < t[0].0 ensures a[i] != b[g] { StartsFirst(a, b, s, g, i); }
    } else {
      StartsLast(a, b, s, g, pairs);
    }
  }

  /** On equal sequences the traceback is the diagonal. */
  lemma {:induction false} TraceDiagonal<T>(a: seq<T>, s: nat)
    requires s <= |a|
    ensures var t := Trace(a, a, s, s);
            |t| == |a| - s && forall i | 0 <= i < |t| :: t[i] == (s + i, s + i)
    decreases |a| - s
  {
    if s < |a| { TraceDiagonal(a, s + 1); }
  }

  /** Fills the table from the last row and column up; a missing neighbour counts as 0. */
  method FillTable<T(==)>(a: seq<T>, b: seq<T>) returns (lcs: array2<nat>)
    ensures lcs.Length0 == |a| && lcs.Length1 == |b| && fresh(lcs)
    ensures forall i, j | 0 <= i < |a| && 0 <= j < |b| :: lcs[i, j] == Length(a, b, i, j)
  {
    lcs := new nat[|a|, |b|]((i, j) => 0);
    var s := |a|;
    while s > 0
      invariant 0 <= s <= |a|
      invariant forall i, j | s <= i < |a| && 0 <= j < |b| :: lcs[i, j] == Length(a, b, i, j)
      invariant forall i, j | 0 <= i < s && 0 <= j < |b| :: lcs[i, j] == 0
    {
      s := s - 1;
      FillRow(a, b, s, lcs);
    }
  }

  /** The inner loop: row s, when the row below it is filled. */
  method FillRow<T(==)>(a: seq<T>, b: seq<T>, s: nat, lcs: array2<nat>)
    requires lcs.Length0 == |a| && lcs.Length1 == |b| && s < |a|
    requires forall i, j | s < i < |a| && 0 <= j < |b| :: lcs[i, j] == Length(a, b, i, j)
    requires forall j | 0 <= j < |b| :: lcs[s, j] == 0
    modifies lcs
    ensures forall j | 0 <= j < |b| :: lcs[s, j] == Length(a, b, s, j)
    ensures forall i, j | 0 <= i < |a| && 0 <= j < |b| && i != s :: lcs[i, j] == old(lcs[i, j])
  {
    var g := |b|;
    while g > 0
      invariant 0 <= g <= |b|
      invariant forall j | g <= j < |b| :: lcs[s, j] == Length(a, b, s, j)
      invariant forall j | 0 <= j < g :: lcs[s, j] == 0
      invariant forall i, j | 0 <= i < |a| && 0 <= j < |b| && i != s :: lcs[i, j] == old(lcs[i, j])
    {
      g := g - 1;
      var down := if s + 1 < |a| then lcs[s + 1, g] else 0;
      var right := if g + 1 < |b| then lcs[s, g + 1] else 0;
      assert down == Length(a, b, s + 1, g) && right == Length(a, b, s, g + 1);
      lcs[s, g] := Max(lcs[s, g], down);
      lcs[s, g] := Max(lcs[s, g], right);
      if a[s] == b[g] {
        var diagonal := if s + 1 < |a| && g + 1 < |b| then lcs[s + 1, g + 1] else 0;
        assert diagonal == Length(a, b, s + 1, g + 1);
        lcs[s, g] := Max(lcs[s, g], 1 + diagonal);
      }
    }
  }

  /** Table and forward traceback together. */
  method Match<T(==)>(a: seq<T>, b: seq<T>) returns (pairs: seq<(nat, nat)>)
    ensures pairs == Trace(a, b, 0, 0)
  {
    var lcs := FillTable(a, b);
    pairs := [];
    var s, g := 0, 0;
    while s < |a| && g < |b|
      invariant s <= |a| && g <= |b|
      invariant pairs + Trace(a, b, s, g) == Trace(a, b, 0, 0)
      decreases |a| - s + |b| - g
    {
      if a[s] == b[g] {
        assert pairs + Trace(a, b, s, g) == pairs + [(s, g)] + Trace(a, b, s + 1, g + 1);
        pairs, s, g := pairs + [(s, g)], s + 1, g + 1;
      } else if lcs[s, g] == (if s + 1 < |a| then lcs[s + 1, g] else 0) {
        s := s + 1;
      } else {
        g := g + 1;
      }
    }
  }
}
