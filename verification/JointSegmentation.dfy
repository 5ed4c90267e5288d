/** Joint segmentation with parsing, src/model/model_morphodita_parsito.cpp:294-323. */
module JointSegmentation {
  import opened Sentences

  // A forward dynamic program over token boundaries and a backtrack over the best lengths. The parser is a parameter:
  // `cost(i, j)` is its cost for the words i+1 to j, None when it fails.

  /** A log-probability: a number or minus infinity. */
  datatype Score = NegInf | Finite(value: real)

  predicate Better(a: Score, b: Score) {
    a.Finite? && (b.NegInf? || a.value > b.value)
  }

  predicate AtLeast(a: Score, b: Score) { !Better(b, a) }

  function Plus(a: Score, x: real): Score {
    if a.Finite? then Finite(a.value + x) else NegInf
  }

  /** Everything the program reads. Boundaries are positions 0 to n between the n words of the paragraph. */
  datatype Problem = Problem(
    tokenBoundary: seq<bool>, sentenceBoundary: seq<bool>, maxLength: nat,
    cost: (nat, nat) -> Option<real>, sentenceLogprob: real, changeLogprob: real)

  ghost predicate ValidProblem(p: Problem) {
    && |p.tokenBoundary| == |p.sentenceBoundary| >= 1
    && p.tokenBoundary[0] && p.tokenBoundary[|p.tokenBoundary| - 1]
  }

  function Size(p: Problem): nat
    requires ValidProblem(p)
  {
    |p.tokenBoundary| - 1
  }

  /** A sentence may run from boundary i to boundary j. */
  predicate Piece(p: Problem, i: nat, j: nat)
    requires ValidProblem(p)
  {
    i < j <= Size(p) && j - i <= p.maxLength && p.tokenBoundary[i] && p.tokenBoundary[j]
  }

  ghost predicate ParserAccepts(p: Problem)
    requires ValidProblem(p)
  {
    forall i: nat, j: nat | Piece(p, i, j) :: p.cost(i, j).Some?
  }

  function PieceScore(p: Problem, i: nat, j: nat): real
    requires ValidProblem(p) && i <= Size(p) && j <= Size(p)
  {
    (match p.cost(i, j) case Some(c) => c case None => 0.0) + p.sentenceLogprob +
    p.changeLogprob * ((2 - (if p.sentenceBoundary[i] then 1 else 0) -
                        (if p.sentenceBoundary[j] then 1 else 0)) as real)
  }

  // ---------- segmentations: the independent reference ----------

  /** Cut positions 0 = cuts[0] < ... < cuts[k] = end, each piece allowed. */
  ghost predicate Segmentation(p: Problem, cuts: seq<nat>, end: nat)
    requires ValidProblem(p)
  {
    && |cuts| > 0 && cuts[0] == 0 && cuts[|cuts| - 1] == end
    && forall k, l | 0 <= k < |cuts| && 0 <= l < |cuts| && l == k + 1 :: Piece(p, cuts[k], cuts[l])
  }

  ghost function Total(p: Problem, cuts: seq<nat>): real
    requires ValidProblem(p) && |cuts| > 0 && forall k | 0 <= k < |cuts| :: cuts[k] <= Size(p)
  {
    if |cuts| == 1 then 0.0
    else Total(p, cuts[..|cuts| - 1]) + PieceScore(p, cuts[|cuts| - 2], cuts[|cuts| - 1])
  }

  lemma {:induction false} CutsInside(p: Problem, cuts: seq<nat>, end: nat)
    requires ValidProblem(p) && Segmentation(p, cuts, end)
    ensures forall k | 0 <= k < |cuts| :: cuts[k] <= end <= Size(p)
    ensures |cuts| == 1 <==> end == 0
    ensures |cuts| > 1 ==> Piece(p, cuts[|cuts| - 2], end) && Segmentation(p, cuts[..|cuts| - 1], cuts[|cuts| - 2])
    decreases |cuts|
  {
    if |cuts| > 1 {
      var n := |cuts| - 1;
      assert Piece(p, cuts[n - 1], cuts[n]);
      CutsInside(p, cuts[..n], cuts[n - 1]);
      forall k | 0 <= k < |cuts| ensures cuts[k] <= end {
        if k < n { assert cuts[k] == cuts[..n][k]; }
      }
    }
  }

  // ---------- what a total is made of ----------

  ghost function CostOf(p: Problem, i: nat, j: nat): real {
    match p.cost(i, j) case Some(c) => c case None => 0.0
  }

  /** The parser's costs of all pieces. */
  ghost function CostSum(p: Problem, cuts: seq<nat>): real {
    if |cuts| <= 1 then 0.0
    else
      var n := |cuts| - 1;
      CostSum(p, cuts[..n]) + CostOf(p, cuts[n - 1], cuts[n])
  }

  /** How many of the positions are not marked. */
  ghost function Unmarked(marks: seq<bool>, positions: seq<nat>): nat {
    if positions == [] then 0
    else
      var last := positions[|positions| - 1];
      Unmarked(marks, positions[..|positions| - 1]) + if last < |marks| && marks[last] then 0 else 1
  }

  /** The cuts between the first and the last one. */
  ghost function Inner(cuts: seq<nat>): seq<nat> { if |cuts| <= 2 then [] else cuts[1..|cuts| - 1] }

  /** Costs, a log-probability for each piece and one for each change. */
  ghost function Parts(costs: real, pieces: nat, sentenceLogprob: real, changes: nat, changeLogprob: real): real {
    costs + pieces as real * sentenceLogprob + changeLogprob * changes as real
  }

  lemma {:induction false} UnmarkedOne(marks: seq<bool>, xs: seq<nat>, x: nat)
    ensures Unmarked(marks, xs + [x]) == Unmarked(marks, xs) + Unmarked(marks, [x])
    ensures Unmarked(marks, [x]) == if x < |marks| && marks[x] then 0 else 1
  {
    assert (xs + [x])[..|xs|] == xs && [x][..0] == [];
  }

  /** How often a piece of these cuts begins or ends at a boundary that is not marked. */
  ghost function Changes(marks: seq<bool>, cuts: seq<nat>): nat
    requires |cuts| >= 2
  {
    2 * Unmarked(marks, Inner(cuts)) + Unmarked(marks, [cuts[0]]) + Unmarked(marks, [cuts[|cuts| - 1]])
  }

  lemma {:induction false} ChangesOne(marks: seq<bool>, cuts: seq<nat>)
    requires |cuts| >= 2
    ensures var n := |cuts| - 1;
            Changes(marks, cuts) == (if n == 1 then 0 else Changes(marks, cuts[..n])) +
                                    (Unmarked(marks, [cuts[n - 1]]) + Unmarked(marks, [cuts[n]]))
  {
    var n := |cuts| - 1;
    if n > 1 {
      var before := cuts[..n];
      assert Inner(cuts) == Inner(before) + [cuts[n - 1]] && before[0] == cuts[0] && before[n - 1] == cuts[n - 1];
      UnmarkedOne(marks, Inner(before), cuts[n - 1]);
    }
  }

  lemma {:induction false} ScoreParts(p: Problem, i: nat, j: nat)
    requires ValidProblem(p) && i <= Size(p) && j <= Size(p)
    ensures PieceScore(p, i, j) ==
            Parts(CostOf(p, i, j), 1, p.sentenceLogprob,
                  Unmarked(p.sentenceBoundary, [i]) + Unmarked(p.sentenceBoundary, [j]), p.changeLogprob)
  {
    UnmarkedOne(p.sentenceBoundary, [], i);
    UnmarkedOne(p.sentenceBoundary, [], j);
  }

  lemma {:induction false} TotalSoFar(p: Problem, cuts: seq<nat>)
    requires ValidProblem(p) && |cuts| >= 2 && forall k | 0 <= k < |cuts| :: cuts[k] <= Size(p)
    ensures Total(p, cuts) ==
            Parts(CostSum(p, cuts), |cuts| - 1, p.sentenceLogprob, Changes(p.sentenceBoundary, cuts), p.changeLogprob)
    decreases |cuts|
  {
    var n := |cuts| - 1;
    var u := Unmarked(p.sentenceBoundary, [cuts[n - 1]]) + Unmarked(p.sentenceBoundary, [cuts[n]]);
    var c := CostOf(p, cuts[n - 1], cuts[n]);
    ChangesOne(p.sentenceBoundary, cuts);
    ScoreParts(p, cuts[n - 1], cuts[n]);
    if n > 1 {
      TotalSoFar(p, cuts[..n]);
      AddParts(CostSum(p, cuts[..n]), n - 1, p.sentenceLogprob, Changes(p.sentenceBoundary, cuts[..n]), p.changeLogprob,
               c, u);
    } else {
      AddParts(0.0, 0, p.sentenceLogprob, 0, p.changeLogprob, c, u);
    }
  }

  lemma {:induction false} AddParts(costs: real, pieces: nat, s: real, changes: nat, x: real, c: real, u: nat)
    ensures Parts(costs, pieces, s, changes, x) + Parts(c, 1, s, u, x) ==
            Parts(costs + c, pieces + 1, s, changes + u, x)
    ensures pieces == changes == 0 && costs == 0.0 ==> Parts(costs, pieces, s, changes, x) == 0.0
  {
    assert x * (changes + u) as real == x * changes as real + x * u as real;
    assert (pieces + 1) as real * s == pieces as real * s + s;
  }

  /** The total of a segmentation of the whole: the costs of its pieces, one sentence log-probability for each piece,
      and two change log-probabilities for each inner cut where no sentence ended before. */
  lemma {:induction false} TotalClosed(p: Problem, cuts: seq<nat>)
    requires ValidProblem(p) && Segmentation(p, cuts, Size(p))
    requires p.sentenceBoundary[0] && p.sentenceBoundary[Size(p)]
    ensures forall k | 0 <= k < |cuts| :: cuts[k] <= Size(p)
    ensures Total(p, cuts) ==
            Parts(CostSum(p, cuts), |cuts| - 1, p.sentenceLogprob, 2 * Unmarked(p.sentenceBoundary, Inner(cuts)),
                  p.changeLogprob)
  {
    CutsInside(p, cuts, Size(p));
    if |cuts| >= 2 {
      TotalSoFar(p, cuts);
      UnmarkedOne(p.sentenceBoundary, [], 0);
      UnmarkedOne(p.sentenceBoundary, [], Size(p));
    }
  }

  // ---------- the forward program ----------

  /** What the tables hold once all pieces that start before `start` are tried: at every boundary the best
      score of any segmentation whose last piece starts before `start`, with the length of that last piece, the longest
      one that attains the score. */
  ghost predicate Tabled(p: Problem, best: seq<Score>, length: seq<nat>, start: nat)
    requires ValidProblem(p)
  {
    && |best| == |length| == Size(p) + 1
    && best[0] == Finite(0.0) && length[0] == 0
    && Entries(p, best, length, start, 1, Size(p) + 1)
  }

  ghost predicate Entries(p: Problem, best: seq<Score>, length: seq<nat>, start: nat, lo: nat, hi: nat)
    requires ValidProblem(p) && |best| == |length| == Size(p) + 1 && 1 <= lo && hi <= Size(p) + 1
  {
    forall j | lo <= j < hi :: Entry(p, best, length, start, j)
  }

  ghost predicate Entry(p: Problem, best: seq<Score>, length: seq<nat>, start: nat, j: nat)
    requires ValidProblem(p) && |best| == |length| == Size(p) + 1 && 1 <= j <= Size(p)
  {
    && (forall i: nat | i < start && Piece(p, i, j) ::
          && AtLeast(best[j], Plus(best[i], PieceScore(p, i, j)))
          && (best[j].Finite? && i < j - length[j] ==> Better(best[j], Plus(best[i], PieceScore(p, i, j)))))
    && (best[j].Finite? ==>
          && 0 < length[j] <= j && j - length[j] < start && Piece(p, j - length[j], j)
          && best[j] == Plus(best[j - length[j]], PieceScore(p, j - length[j], j)))
    && (best[j].NegInf? ==> length[j] == 0)
  }

  /** The two nested loops. A piece on which the parser fails stops the program. */
  method Forward(p: Problem) returns (ok: bool, best: array<Score>, length: array<nat>)
    requires ValidProblem(p)
    ensures fresh(best) && fresh(length)
    ensures ok <==> ParserAccepts(p)
    ensures ok ==> Tabled(p, best[..], length[..], Size(p))
  {
    var n := Size(p);
    best := new Score[n + 1](_ => NegInf);
    length := new nat[n + 1](_ => 0);
    best[0] := Finite(0.0);
    var i := 0;
    while i < n
      invariant 0 <= i <= n && best.Length == length.Length == n + 1
      invariant fresh(best) && fresh(length)
      invariant Tabled(p, best[..], length[..], i)
      invariant forall k: nat, j: nat | k < i && Piece(p, k, j) :: p.cost(k, j).Some?
    {
      if p.tokenBoundary[i] {
        var accepted := TryPieces(p, i, best, length);
        if !accepted { return false, best, length; }
      } else {
        StartSkipped(p, best[..], length[..], i);
      }
      i := i + 1;
    }
    ok := true;
  }

  lemma {:induction false} StartSkipped(p: Problem, best: seq<Score>, length: seq<nat>, i: nat)
    requires ValidProblem(p) && i < Size(p) && Tabled(p, best, length, i) && !p.tokenBoundary[i]
    ensures Tabled(p, best, length, i + 1)
  {
    EntriesAdvance(p, best, length, i, 1, Size(p) + 1);
  }

  lemma {:induction false} EntriesAdvance(p: Problem, best: seq<Score>, length: seq<nat>, i: nat, lo: nat, hi: nat)
    requires ValidProblem(p) && |best| == |length| == Size(p) + 1 && 1 <= lo && hi <= Size(p) + 1
    requires Entries(p, best, length, i, lo, hi)
    requires forall j | lo <= j < hi :: !Piece(p, i, j)
    ensures Entries(p, best, length, i + 1, lo, hi)
  {
    var next := i + 1;
    forall j | lo <= j < hi ensures Entry(p, best, length, next, j) {
      assert Entry(p, best, length, i, j);
    }
  }

  /** All pieces that start at boundary i, shortest first. */
  method TryPieces(p: Problem, i: nat, best: array<Score>, length: array<nat>) returns (ok: bool)
    requires ValidProblem(p) && i < Size(p) && p.tokenBoundary[i]
    requires Tabled(p, best[..], length[..], i)
    modifies best, length
    ensures ok <==> forall j: nat | Piece(p, i, j) :: p.cost(i, j).Some?
    ensures ok ==> Tabled(p, best[..], length[..], i + 1)
  {
    var n := Size(p);
    var j := i + 1;
    EntriesAdvance(p, best[..], length[..], i, 1, j);
    while j <= n && j - i <= p.maxLength
      invariant i < j <= n + 1
      invariant best[0] == Finite(0.0) && length[0] == 0
      invariant forall m: nat | m < j && Piece(p, i, m) :: p.cost(i, m).Some?
      invariant Entries(p, best[..], length[..], i + 1, 1, j)
      invariant Entries(p, best[..], length[..], i, j, n + 1)
    {
      if p.tokenBoundary[j] {
        assert Piece(p, i, j);
        match p.cost(i, j) {
          case None => return false;
          case Some(c) =>
        }
        Relax(p, i, j, best, length);
      } else {
        EntriesAdvance(p, best[..], length[..], i, j, j + 1);
      }
      j := j + 1;
    }
    EntriesAdvance(p, best[..], length[..], i, j, n + 1);
    ok := true;
  }

  /** Improve boundary j by the piece (i, j). */
  method Relax(p: Problem, i: nat, j: nat, best: array<Score>, length: array<nat>)
    requires ValidProblem(p) && Piece(p, i, j)
    requires best.Length == length.Length == Size(p) + 1
    requires Entries(p, best[..], length[..], i + 1, 1, j)
    requires Entries(p, best[..], length[..], i, j, Size(p) + 1)
    modifies best, length
    ensures forall k | 0 <= k <= Size(p) && k != j :: best[k] == old(best[k]) && length[k] == old(length[k])
    ensures Entries(p, best[..], length[..], i + 1, 1, j + 1)
    ensures Entries(p, best[..], length[..], i, j + 1, Size(p) + 1)
  {
    var candidate := Plus(best[i], PieceScore(p, i, j));
    ghost var b, l := best[..], length[..];
    assert Entry(p, b, l, i, j);
    if Better(candidate, best[j]) {
      best[j], length[j] := candidate, j - i;
    }
    EntryRelaxed(p, i, j, b, l, best[..], length[..]);
    OthersKept(p, i + 1, j, b, l, best[..], length[..], 1, j);
    OthersKept(p, i, j, b, l, best[..], length[..], j + 1, Size(p) + 1);
  }

  lemma {:induction false} EntryRelaxed(p: Problem, i: nat, j: nat, best: seq<Score>, length: seq<nat>,
      best': seq<Score>, length': seq<nat>)
    requires ValidProblem(p) && Piece(p, i, j)
    requires |best| == |length| == Size(p) + 1 && Entry(p, best, length, i, j)
    requires var candidate := Plus(best[i], PieceScore(p, i, j));
             if Better(candidate, best[j]) then best' == best[j := candidate] && length' == length[j := j - i]
             else best' == best && length' == length
    ensures Entry(p, best', length', i + 1, j)
  {
  }

  lemma {:induction false} OthersKept(p: Problem, start: nat, j: nat, best: seq<Score>, length: seq<nat>,
      best': seq<Score>, length': seq<nat>,
                   lo: nat, hi: nat)
    requires ValidProblem(p) && start <= j
    requires |best| == |length| == |best'| == |length'| == Size(p) + 1
    requires forall k | 0 <= k <= Size(p) && k != j :: best[k] == best'[k] && length[k] == length'[k]
    requires 1 <= lo && hi <= Size(p) + 1 && !(lo <= j < hi)
    requires Entries(p, best, length, start, lo, hi)
    ensures Entries(p, best', length', start, lo, hi)
  {
    forall k | lo <= k < hi ensures Entry(p, best', length', start, k) {
      assert Entry(p, best, length, start, k);
    }
  }

  // ---------- optimality ----------

  /** The finished table holds the best total of any segmentation. */
  lemma {:induction false} TableBounds(p: Problem, best: seq<Score>, length: seq<nat>, cuts: seq<nat>, end: nat)
    requires ValidProblem(p) && Tabled(p, best, length, Size(p)) && Segmentation(p, cuts, end)
    ensures forall k | 0 <= k < |cuts| :: cuts[k] <= end <= Size(p)
    ensures best[end].Finite? && best[end].value >= Total(p, cuts)
    decreases |cuts|
  {
    CutsInside(p, cuts, end);
    if |cuts| > 1 {
      var i := cuts[|cuts| - 2];
      TableBounds(p, best, length, cuts[..|cuts| - 1], i);
      assert Entry(p, best, length, Size(p), end);
    }
  }

  /** The cut positions the stored lengths lead back through. */
  ghost function Cuts(p: Problem, best: seq<Score>, length: seq<nat>, end: nat): (cuts: seq<nat>)
    requires ValidProblem(p) && Tabled(p, best, length, Size(p)) && end <= Size(p) && best[end].Finite?
    ensures Segmentation(p, cuts, end)
    decreases end
  {
    if end == 0 then [0]
    else
      assert Entry(p, best, length, Size(p), end);
      var before := Cuts(p, best, length, end - length[end]);
      before + [end]
  }

  lemma {:induction false} CutsAttain(p: Problem, best: seq<Score>, length: seq<nat>, end: nat)
    requires ValidProblem(p) && Tabled(p, best, length, Size(p)) && end <= Size(p) && best[end].Finite?
    ensures var cuts := Cuts(p, best, length, end);
            && (forall k | 0 <= k < |cuts| :: cuts[k] <= Size(p))
            && Total(p, cuts) == best[end].value
    decreases end
  {
    var cuts := Cuts(p, best, length, end);
    CutsInside(p, cuts, end);
    if end > 0 {
      assert Entry(p, best, length, Size(p), end);
      var i := end - length[end];
      CutsAttain(p, best, length, i);
      assert cuts[..|cuts| - 1] == Cuts(p, best, length, i);
    }
  }

  /** The recovered segmentation has the maximum total among all segmentations. */
  lemma {:induction false} BacktrackOptimal(p: Problem, best: seq<Score>, length: seq<nat>, other: seq<nat>)
    requires ValidProblem(p) && Tabled(p, best, length, Size(p)) && Segmentation(p, other, Size(p))
    ensures (forall k | 0 <= k < |other| :: other[k] <= Size(p)) && best[Size(p)].Finite?
    ensures var cuts := Cuts(p, best, length, Size(p));
            && (forall k | 0 <= k < |cuts| :: cuts[k] <= Size(p))
            && Total(p, cuts) >= Total(p, other)
  {
    TableBounds(p, best, length, other, Size(p));
    CutsAttain(p, best, length, Size(p));
  }

  /** Compared from the back, the first piece in which they differ is longer in a. */
  ghost predicate Preferred(a: seq<nat>, b: seq<nat>) {
    |a| > 1 && |b| > 1 ==>
      var i, j := a[|a| - 2], b[|b| - 2];
      i < j || (i == j && Preferred(a[..|a| - 1], b[..|b| - 1]))
  }

  /** Of several segmentations with the maximum total, the recovered one has the longest last piece, and so on from the
      back. */
  lemma {:induction false} BacktrackPreferred(p: Problem, best: seq<Score>, length: seq<nat>, end: nat, other: seq<nat>)
    requires ValidProblem(p) && Tabled(p, best, length, Size(p)) && Segmentation(p, other, end)
    requires end <= Size(p) && best[end].Finite?
    requires (forall k | 0 <= k < |other| :: other[k] <= Size(p)) && Total(p, other) == best[end].value
    ensures Preferred(Cuts(p, best, length, end), other)
    decreases |other|
  {
    var cuts := Cuts(p, best, length, end);
    CutsInside(p, other, end);
    if |cuts| > 1 && |other| > 1 {
      var before, i := other[..|other| - 1], other[|other| - 2];
      CutsInside(p, before, i);
      TableBounds(p, best, length, before, i);
      assert Entry(p, best, length, Size(p), end);
      CutsLast(p, best, length, end);
      if i == end - length[end] { BacktrackPreferred(p, best, length, i, before); }
    }
  }

  lemma {:induction false} CutsLast(p: Problem, best: seq<Score>, length: seq<nat>, end: nat)
    requires ValidProblem(p) && Tabled(p, best, length, Size(p)) && end <= Size(p) && best[end].Finite? && end > 0
    ensures 0 < length[end] <= end && best[end - length[end]].Finite?
    ensures var cuts, before := Cuts(p, best, length, end), Cuts(p, best, length, end - length[end]);
            |cuts| > 1 && cuts[|cuts| - 2] == end - length[end] && cuts[..|cuts| - 1] == before
  {
    assert Entry(p, best, length, Size(p), end);
  }

  // ---------- when the backtrack ends ----------

  /** After every boundary but the last, another one follows within maxLength words. */
  ghost predicate GapsFit(p: Problem)
    requires ValidProblem(p)
  {
    forall i: nat | i < Size(p) && p.tokenBoundary[i] :: exists j: nat :: Piece(p, i, j)
  }

  lemma {:induction false} ReachEnd(p: Problem, cuts: seq<nat>, i: nat) returns (all: seq<nat>)
    requires ValidProblem(p) && GapsFit(p) && Segmentation(p, cuts, i) && i <= Size(p) && p.tokenBoundary[i]
    ensures Segmentation(p, all, Size(p))
    decreases Size(p) - i
  {
    if i == Size(p) {
      all := cuts;
    } else {
      var j: nat :| Piece(p, i, j);
      all := ReachEnd(p, cuts + [j], j);
    }
  }

  lemma {:induction false} PieceOver(p: Problem, cuts: seq<nat>, end: nat, i: nat)
    requires ValidProblem(p) && Segmentation(p, cuts, end) && i < end
    ensures exists a: nat, b: nat :: Piece(p, a, b) && a <= i < b
    decreases |cuts|
  {
    CutsInside(p, cuts, end);
    var a := cuts[|cuts| - 2];
    if i < a { PieceOver(p, cuts[..|cuts| - 1], a, i); }
  }

  /** The backtrack has a finite score to start from, hence strictly decreasing positions, exactly when the
      token boundaries are dense enough; otherwise the stored length at the end is 0 and it never moves. */
  lemma {:induction false} BacktrackEnds(p: Problem, best: seq<Score>, length: seq<nat>)
    requires ValidProblem(p) && Tabled(p, best, length, Size(p))
    ensures best[Size(p)].Finite? <==> GapsFit(p)
    ensures Size(p) > 0 ==> (length[Size(p)] == 0 <==> !GapsFit(p))
  {
    var n := Size(p);
    if n > 0 { assert Entry(p, best, length, n, n); }
    if GapsFit(p) {
      var cuts := ReachEnd(p, [0], 0);
      TableBounds(p, best, length, cuts, n);
    }
    if best[n].Finite? {
      var cuts := Cuts(p, best, length, n);
      forall i: nat | i < n && p.tokenBoundary[i] ensures exists j: nat :: Piece(p, i, j) {
        PieceOver(p, cuts, n, i);
        var a: nat, b: nat :| Piece(p, a, b) && a <= i < b;
        assert Piece(p, i, b);
      }
    }
  }

  /** The lengths of the pieces between the cuts, last piece first. */
  ghost predicate LengthsOf(lengths: seq<nat>, cuts: seq<nat>) {
    && |lengths| == |cuts| - 1
    && forall k, l | 0 <= k < |lengths| && 0 < l < |cuts| && k + l == |lengths| :: cuts[l] == cuts[l - 1] + lengths[k]
  }

  /** The lengths of the last pieces. */
  ghost predicate Taken(lengths: seq<nat>, cuts: seq<nat>) {
    && |lengths| < |cuts|
    && forall k, l | 0 <= k < |lengths| && 0 < l < |cuts| && k + l == |cuts| - 1 :: cuts[l] == cuts[l - 1] + lengths[k]
  }

  lemma {:induction false} TakeLast(p: Problem, best: seq<Score>, length: seq<nat>, lengths: seq<nat>, cuts: seq<nat>,
      end: nat)
    requires ValidProblem(p) && Tabled(p, best, length, Size(p)) && 0 < end <= Size(p) && best[end].Finite?
    requires Taken(lengths, cuts) && cuts[..|cuts| - |lengths|] == Cuts(p, best, length, end)
    ensures 0 < length[end] <= end && best[end - length[end]].Finite?
    ensures Taken(lengths + [length[end]], cuts)
    ensures cuts[..|cuts| - |lengths| - 1] == Cuts(p, best, length, end - length[end])
  {
    assert Entry(p, best, length, Size(p), end);
    var m := |cuts| - |lengths|;
    var now, before := Cuts(p, best, length, end), Cuts(p, best, length, end - length[end]);
    assert now == before + [end] && before[|before| - 1] == end - length[end];
    assert cuts[m - 1] == cuts[..m][m - 1] && cuts[m - 2] == cuts[..m][m - 2];
    assert cuts[..m - 1] == cuts[..m][..m - 1];
  }

  /** The backtrack loop: the lengths of the pieces, last piece first. */
  method Backtrack(p: Problem, best: array<Score>, length: array<nat>) returns (lengths: seq<nat>)
    requires ValidProblem(p) && Tabled(p, best[..], length[..], Size(p)) && GapsFit(p)
    ensures best[Size(p)].Finite?
    ensures LengthsOf(lengths, Cuts(p, best[..], length[..], Size(p)))
  {
    BacktrackEnds(p, best[..], length[..]);
    lengths := [];
    var end: nat := Size(p);
    ghost var cuts := Cuts(p, best[..], length[..], end);
    while end > 0
      invariant end <= Size(p) && best[end].Finite?
      invariant Taken(lengths, cuts) && cuts[..|cuts| - |lengths|] == Cuts(p, best[..], length[..], end)
      decreases end
    {
      assert Entry(p, best[..], length[..], Size(p), end);
      TakeLast(p, best[..], length[..], lengths, cuts, end);
      lengths := lengths + [length[end]];
      end := end - length[end];
    }
  }
}
