/** The word alignment of src/model/evaluator.cpp:309-372. */
module Alignment {
  import Lcs
  import opened Sentences
  import opened Sequences

  // A two-pointer merge over character spans drops into a longest-common-subsequence block around multiword tokens;
  // then the heads of the matched system words are re-indexed.

  /** A word with the character span of its token; words of one multiword token share the span. */
  datatype WordData = WordData(start: nat, end: nat, isMultiword: bool, w: Word)

  datatype Match = Match(system: Word, gold: Word)

  function Forms(d: seq<WordData>): (r: seq<string>)
    ensures |r| == |d| && forall i | 0 <= i < |d| :: r[i] == d[i].w.form
  {
    seq(|d|, i requires 0 <= i < |d| => d[i].w.form)
  }

  /** No multiword token is empty. */
  ghost predicate ProperMultiwords(d: seq<WordData>) {
    forall i | 0 <= i < |d| && d[i].isMultiword :: d[i].start < d[i].end
  }

  /** Both heads can be compared by spans: a multiword head, if any, starts strictly after the other head. */
  predicate PlainRound(s: WordData, g: WordData) {
    (s.start > g.start || !s.isMultiword) && (g.start > s.start || !g.isMultiword)
  }

  function BlockEnd(s: WordData, g: WordData): nat {
    if s.isMultiword then s.end else g.end
  }

  predicate InRange(d: seq<WordData>, i: nat, end: nat) {
    i < |d| && if d[i].isMultiword then d[i].start < end else d[i].end <= end
  }

  datatype Block = Block(si: nat, gi: nat, end: nat)

  /** Where the growing multiword range that starts at (si, gi) stops, and its final end. */
  function Extend(sys: seq<WordData>, gold: seq<WordData>, si: nat, gi: nat, end: nat): (r: Block)
    requires si <= |sys| && gi <= |gold|
    ensures si <= r.si <= |sys| && gi <= r.gi <= |gold| && end <= r.end
    ensures !InRange(sys, r.si, r.end) && !InRange(gold, r.gi, r.end)
    decreases |sys| - si + |gold| - gi
  {
    if !InRange(sys, si, end) && !InRange(gold, gi, end) then Block(si, gi, end)
    else if si < |sys| && (gi >= |gold| || sys[si].start <= gold[gi].start) then
      Extend(sys, gold, si + 1, gi, if sys[si].isMultiword then Lcs.Max(end, sys[si].end) else end)
    else
      Extend(sys, gold, si, gi + 1, if gold[gi].isMultiword then Lcs.Max(end, gold[gi].end) else end)
  }

  function Shift(pairs: seq<(nat, nat)>, s: nat, g: nat): (r: seq<(nat, nat)>)
    ensures |r| == |pairs| && forall i | 0 <= i < |r| :: r[i] == (pairs[i].0 + s, pairs[i].1 + g)
  {
    seq(|pairs|, i requires 0 <= i < |pairs| => (pairs[i].0 + s, pairs[i].1 + g))
  }

  datatype Round = Round(si: nat, gi: nat, pairs: seq<(nat, nat)>)

  /** One round of the outer loop: the new heads and the pairs it matches. */
  function NextRound(sys: seq<WordData>, gold: seq<WordData>, si: nat, gi: nat): (r: Round)
    requires si < |sys| && gi < |gold|
    ensures si <= r.si <= |sys| && gi <= r.gi <= |gold|
  {
    var s, g := sys[si], gold[gi];
    if PlainRound(s, g) then
      if s.start == g.start && s.end == g.end then Round(si + 1, gi + 1, [(si, gi)])
      else if s.start <= g.start then Round(si + 1, gi, [])
      else Round(si, gi + 1, [])
    else
      var b := Extend(sys, gold, si, gi, BlockEnd(s, g));
      Round(b.si, b.gi, Shift(Lcs.Trace(Forms(sys[si..b.si]), Forms(gold[gi..b.gi]), 0, 0), si, gi))
  }

  predicate Stalled(sys: seq<WordData>, gold: seq<WordData>, si: nat, gi: nat)
    requires si < |sys| && gi < |gold|
  {
    NextRound(sys, gold, si, gi).si == si && NextRound(sys, gold, si, gi).gi == gi
  }

  /** A round leaves both heads where they are, and the loop never ends, exactly when a multiword head
      that does not start after the other one meets a block end before which neither head lies. */
  lemma {:induction false} StalledRound(sys: seq<WordData>, gold: seq<WordData>, si: nat, gi: nat)
    requires si < |sys| && gi < |gold|
    ensures Stalled(sys, gold, si, gi) <==>
              var s, g := sys[si], gold[gi];
              && !PlainRound(s, g)
              && !InRange(sys, si, BlockEnd(s, g)) && !InRange(gold, gi, BlockEnd(s, g))
  {
    var s, g := sys[si], gold[gi];
    var end := BlockEnd(s, g);
    if !PlainRound(s, g) && (InRange(sys, si, end) || InRange(gold, gi, end)) {
      if sys[si].start <= gold[gi].start {
        var r := Extend(sys, gold, si + 1, gi, if s.isMultiword then Lcs.Max(end, s.end) else end);
        assert Extend(sys, gold, si, gi, end) == r && r.si > si;
      } else {
        var r := Extend(sys, gold, si, gi + 1, Lcs.Max(end, g.end));
        assert Extend(sys, gold, si, gi, end) == r && r.gi > gi;
      }
    }
  }

  /** With no empty multiword token every round advances. */
  lemma {:induction false} RoundAdvances(sys: seq<WordData>, gold: seq<WordData>, si: nat, gi: nat)
    requires si < |sys| && gi < |gold|
    requires ProperMultiwords(sys) && ProperMultiwords(gold)
    ensures !Stalled(sys, gold, si, gi)
  {
    StalledRound(sys, gold, si, gi);
  }

  /** From (si, gi) on no round leaves both heads where they are, so that the outer loop ends. */
  ghost predicate Ends(sys: seq<WordData>, gold: seq<WordData>, si: nat, gi: nat)
    requires si <= |sys| && gi <= |gold|
    decreases |sys| - si + |gold| - gi
  {
    si == |sys| || gi == |gold| ||
    (!Stalled(sys, gold, si, gi)
     && Ends(sys, gold, NextRound(sys, gold, si, gi).si, NextRound(sys, gold, si, gi).gi))
  }

  /** With no empty multiword token the loop ends. */
  lemma {:induction false} ProperEnds(sys: seq<WordData>, gold: seq<WordData>, si: nat, gi: nat)
    requires si <= |sys| && gi <= |gold|
    requires ProperMultiwords(sys) && ProperMultiwords(gold)
    ensures Ends(sys, gold, si, gi)
    decreases |sys| - si + |gold| - gi
  {
    if si < |sys| && gi < |gold| {
      RoundAdvances(sys, gold, si, gi);
      var r := NextRound(sys, gold, si, gi);
      ProperEnds(sys, gold, r.si, r.gi);
    }
  }

  /** The index pairs matched from (si, gi) on. */
  ghost function Align(sys: seq<WordData>, gold: seq<WordData>, si: nat, gi: nat): seq<(nat, nat)>
    requires si <= |sys| && gi <= |gold| && Ends(sys, gold, si, gi)
    decreases |sys| - si + |gold| - gi
  {
    if si == |sys| || gi == |gold| then []
    else
      var r := NextRound(sys, gold, si, gi);
      r.pairs + Align(sys, gold, r.si, r.gi)
  }

  // ---------- what the alignment means ----------

  /** The block holds every multiword token it touches: it ends at or after all of them, and its end is
      the starting end or the end of a multiword token inside it. */
  lemma {:induction false} BlockCoversMultiwords(sys: seq<WordData>, gold: seq<WordData>, si: nat, gi: nat, end: nat)
    requires si <= |sys| && gi <= |gold|
    ensures var b := Extend(sys, gold, si, gi, end);
            && (forall k | si <= k < b.si && sys[k].isMultiword :: sys[k].end <= b.end)
            && (forall k | gi <= k < b.gi && gold[k].isMultiword :: gold[k].end <= b.end)
            && (b.end == end
                || (exists k | si <= k < b.si :: sys[k].isMultiword && sys[k].end == b.end)
                || (exists k | gi <= k < b.gi :: gold[k].isMultiword && gold[k].end == b.end))
    decreases |sys| - si + |gold| - gi
  {
    if !InRange(sys, si, end) && !InRange(gold, gi, end) {
    } else if si < |sys| && (gi >= |gold| || sys[si].start <= gold[gi].start) {
      BlockCoversMultiwords(sys, gold, si + 1, gi, if sys[si].isMultiword then Lcs.Max(end, sys[si].end) else end);
    } else {
      BlockCoversMultiwords(sys, gold, si, gi + 1, if gold[gi].isMultiword then Lcs.Max(end, gold[gi].end) else end);
    }
  }

  /** Pairs inside the window [si, se) x [gi, ge) with equal forms. */
  ghost predicate SameForms(sys: seq<WordData>, gold: seq<WordData>, si: nat, se: nat, gi: nat, ge: nat,
      pairs: seq<(nat, nat)>)
    requires se <= |sys| && ge <= |gold|
  {
    forall i | 0 <= i < |pairs| ::
      si <= pairs[i].0 < se && gi <= pairs[i].1 < ge && sys[pairs[i].0].w.form == gold[pairs[i].1].w.form
  }

  /** A block matches words of equal form in order, and no other choice in that block matches more. */
  lemma {:induction false} BlockOptimal(sys: seq<WordData>, gold: seq<WordData>, si: nat, gi: nat,
      other: seq<(nat, nat)>)
    requires si < |sys| && gi < |gold| && !PlainRound(sys[si], gold[gi])
    ensures var r := NextRound(sys, gold, si, gi);
            && Lcs.Increasing(r.pairs) && SameForms(sys, gold, si, r.si, gi, r.gi, r.pairs)
            && (Lcs.Increasing(other) && SameForms(sys, gold, si, r.si, gi, r.gi, other) ==> |other| <= |r.pairs|)
  {
    var r := NextRound(sys, gold, si, gi);
    var a, b := Forms(sys[si..r.si]), Forms(gold[gi..r.gi]);
    Lcs.TraceAttains(a, b, 0, 0);
    if Lcs.Increasing(other) && SameForms(sys, gold, si, r.si, gi, r.gi, other) {
      NoneMatchesMore(sys, gold, si, r.si, gi, r.gi, other);
    }
  }

  lemma {:induction false} NoneMatchesMore(sys: seq<WordData>, gold: seq<WordData>, si: nat, se: nat, gi: nat,
      ge: nat, other: seq<(nat, nat)>)
    requires si <= se <= |sys| && gi <= ge <= |gold|
    requires Lcs.Increasing(other) && SameForms(sys, gold, si, se, gi, ge, other)
    ensures |other| <= |Lcs.Trace(Forms(sys[si..se]), Forms(gold[gi..ge]), 0, 0)|
  {
    var back := seq(|other|, i requires 0 <= i < |other| => ((other[i].0 - si) as nat, (other[i].1 - gi) as nat));
    Lcs.TraceOptimal(Forms(sys[si..se]), Forms(gold[gi..ge]), back);
  }

  /** A matched pair has the same span, or stands in a block and has the same form. */
  predicate Justified(s: WordData, g: WordData) {
    (s.start == g.start && s.end == g.end) || s.w.form == g.w.form
  }

  /** Pairs inside the window [si, se) x [gi, ge), strictly increasing on both sides, each one justified. */
  ghost predicate Sound(sys: seq<WordData>, gold: seq<WordData>, si: nat, se: nat, gi: nat, ge: nat,
      pairs: seq<(nat, nat)>)
    requires se <= |sys| && ge <= |gold|
  {
    && Lcs.Increasing(pairs)
    && forall i | 0 <= i < |pairs| ::
         si <= pairs[i].0 < se && gi <= pairs[i].1 < ge && Justified(sys[pairs[i].0], gold[pairs[i].1])
  }

  lemma {:induction false} SoundJoin(sys: seq<WordData>, gold: seq<WordData>, si: nat, sm: nat, se: nat, gi: nat,
      gm: nat, ge: nat,
                  a: seq<(nat, nat)>, b: seq<(nat, nat)>)
    requires si <= sm <= se <= |sys| && gi <= gm <= ge <= |gold|
    requires Sound(sys, gold, si, sm, gi, gm, a) && Sound(sys, gold, sm, se, gm, ge, b)
    ensures Sound(sys, gold, si, se, gi, ge, a + b)
  {
  }

  lemma {:induction false} RoundSound(sys: seq<WordData>, gold: seq<WordData>, si: nat, gi: nat)
    requires si < |sys| && gi < |gold|
    ensures var r := NextRound(sys, gold, si, gi); Sound(sys, gold, si, r.si, gi, r.gi, r.pairs)
  {
    if !PlainRound(sys[si], gold[gi]) { BlockOptimal(sys, gold, si, gi, []); }
  }

  /** Matched pairs strictly increase on both sides, so the alignment is one-to-one and monotone. */
  lemma {:induction false} AlignSound(sys: seq<WordData>, gold: seq<WordData>, si: nat, gi: nat)
    requires si <= |sys| && gi <= |gold| && Ends(sys, gold, si, gi)
    ensures Sound(sys, gold, si, |sys|, gi, |gold|, Align(sys, gold, si, gi))
    decreases |sys| - si + |gold| - gi
  {
    if si < |sys| && gi < |gold| {
      RoundSound(sys, gold, si, gi);
      var r := NextRound(sys, gold, si, gi);
      AlignSound(sys, gold, r.si, r.gi);
      SoundJoin(sys, gold, si, r.si, |sys|, gi, r.gi, |gold|, r.pairs, Align(sys, gold, r.si, r.gi));
    }
  }

  ghost predicate NoMultiwords(d: seq<WordData>) {
    forall i | 0 <= i < |d| :: !d[i].isMultiword
  }

  ghost predicate StartsIncreasing(d: seq<WordData>) {
    forall i, j | 0 <= i < j < |d| :: d[i].start < d[j].start
  }

  /** Without multiword tokens the merge matches exactly the words with equal spans. */
  lemma {:induction false} MergeFindsEqualSpans(sys: seq<WordData>, gold: seq<WordData>, si: nat, gi: nat, i: nat,
      k: nat)
    requires NoMultiwords(sys) && NoMultiwords(gold) && StartsIncreasing(sys) && StartsIncreasing(gold)
    requires si <= i < |sys| && gi <= k < |gold|
    ensures Ends(sys, gold, si, gi)
    ensures (i, k) in Align(sys, gold, si, gi) <==> sys[i].start == gold[k].start && sys[i].end == gold[k].end
  {
    ProperEnds(sys, gold, si, gi);
    EqualSpansFrom(sys, gold, si, gi, i, k);
  }

  lemma {:induction false} EqualSpansFrom(sys: seq<WordData>, gold: seq<WordData>, si: nat, gi: nat, i: nat, k: nat)
    requires NoMultiwords(sys) && NoMultiwords(gold) && StartsIncreasing(sys) && StartsIncreasing(gold)
    requires si <= i < |sys| && gi <= k < |gold| && Ends(sys, gold, si, gi)
    ensures (i, k) in Align(sys, gold, si, gi) <==> sys[i].start == gold[k].start && sys[i].end == gold[k].end
    decreases |sys| - si + |gold| - gi
  {
    var r := NextRound(sys, gold, si, gi);
    var rest := Align(sys, gold, r.si, r.gi);
    assert Align(sys, gold, si, gi) == r.pairs + rest;
    assert PlainRound(sys[si], gold[gi]);
    if i >= r.si && k >= r.gi {
      EqualSpansFrom(sys, gold, r.si, r.gi, i, k);
      assert (i, k) !in r.pairs;
    } else {
      AlignSound(sys, gold, r.si, r.gi);
      assert (i, k) !in rest;
    }
  }

  /** Two words of one multiword token, or the first ends before the second starts. */
  predicate SameTokenOrBefore(a: WordData, b: WordData) {
    (a.start == b.start && a.end == b.end && a.isMultiword && b.isMultiword) || a.end <= b.start
  }

  /** Words in text order, as add_sentence lays them out, words without characters among them. */
  ghost predicate Laid(d: seq<WordData>) {
    && (forall i | 0 <= i < |d| :: d[i].start <= d[i].end)
    && (forall i, j | 0 <= i < j < |d| :: SameTokenOrBefore(d[i], d[j]))
  }

  /** Words in text order that all have characters. */
  ghost predicate TextOrder(d: seq<WordData>) {
    Laid(d) && forall i | 0 <= i < |d| :: d[i].start < d[i].end
  }

  /** In data aligned with itself a block is one multiword token, on both sides. */
  lemma {:induction false} SelfBlock(d: seq<WordData>, first: nat, si: nat, gi: nat)
    requires TextOrder(d) && first < |d| && d[first].isMultiword
    requires first <= gi <= si <= |d|
    requires forall k | first <= k < si :: d[k].start == d[first].start && d[k].isMultiword
    requires gi == first || si == |d| || d[si].start >= d[first].end
    ensures var b := Extend(d, d, si, gi, d[first].end); b.si == b.gi
    decreases |d| - si + |d| - gi
  {
    var end := d[first].end;
    assert si < |d| && si > first ==> SameTokenOrBefore(d[first], d[si]);
    assert gi < |d| && gi > first ==> SameTokenOrBefore(d[first], d[gi]);
    if si < |d| && d[si].start < end {
      SelfBlock(d, first, si + 1, gi);
    } else if gi < si {
      assert d[gi].end == end by { assert gi > first ==> SameTokenOrBefore(d[first], d[gi]); }
      SelfBlock(d, first, si, gi + 1);
    }
  }

  lemma {:induction false} SelfRound(d: seq<WordData>, n: nat)
    requires TextOrder(d) && n < |d|
    ensures var r := NextRound(d, d, n, n);
            r.si == r.gi && |r.pairs| == r.si - n && forall i | 0 <= i < |r.pairs| :: r.pairs[i] == (n + i, n + i)
  {
    if !PlainRound(d[n], d[n]) {
      SelfBlock(d, n, n, n);
      var b := Extend(d, d, n, n, d[n].end);
      Lcs.TraceDiagonal(Forms(d[n..b.si]), 0);
    }
  }

  /** Aligning data with itself matches every word to itself. */
  lemma {:induction false} SelfAlignment(d: seq<WordData>, n: nat)
    requires TextOrder(d) && n <= |d|
    ensures Ends(d, d, n, n)
    ensures var p := Align(d, d, n, n);
            |p| == |d| - n && forall i | 0 <= i < |p| :: p[i] == (n + i, n + i)
    decreases |d| - n
  {
    ProperEnds(d, d, n, n);
    if n < |d| {
      SelfRound(d, n);
      SelfAlignment(d, NextRound(d, d, n, n).si);
    }
  }

  // ---------- the procedure ----------

  ghost predicate DenseIds(d: seq<WordData>) {
    forall i | 0 <= i < |d| :: d[i].w.id == i + 1
  }

  ghost predicate HeadsInside(d: seq<WordData>) {
    forall i | 0 <= i < |d| :: d[i].w.head <= |d|
  }

  ghost predicate InBounds(sys: seq<WordData>, gold: seq<WordData>, pairs: seq<(nat, nat)>) {
    forall i | 0 <= i < |pairs| :: pairs[i].0 < |sys| && pairs[i].1 < |gold|
  }

  ghost function Matches(sys: seq<WordData>, gold: seq<WordData>, pairs: seq<(nat, nat)>): (r: seq<Match>)
    requires InBounds(sys, gold, pairs)
  {
    seq(|pairs|, i requires 0 <= i < |pairs| => Match(sys[pairs[i].0].w, gold[pairs[i].1].w))
  }

  lemma {:induction false} MatchesStep(sys: seq<WordData>, gold: seq<WordData>, pairs: seq<(nat, nat)>, n: nat)
    requires InBounds(sys, gold, pairs) && n < |pairs|
    ensures InBounds(sys, gold, pairs[..n]) && InBounds(sys, gold, pairs[..n + 1])
    ensures Matches(sys, gold, pairs[..n + 1]) ==
            Matches(sys, gold, pairs[..n]) + [Match(sys[pairs[n].0].w, gold[pairs[n].1].w)]
  {
  }

  /** What re-indexing makes of the system head h: positive heads become the id of the aligned gold word,
      or -1 when the head word is not aligned; roots and undefined heads stay. */
  ghost predicate Reindexed(gold: seq<WordData>, pairs: seq<(nat, nat)>, h: int, h': int) {
    && (h <= 0 ==> h' == h)
    && (h > 0 ==>
          && (forall n | 0 <= n < |pairs| && pairs[n].0 == h - 1 && pairs[n].1 < |gold| :: h' == gold[pairs[n].1].w.id)
          && ((forall n | 0 <= n < |pairs| :: pairs[n].0 != h - 1) ==> h' == -1))
  }

  /** The words of the pairs, as they were but for the heads of the system words, which are re-indexed. */
  ghost predicate MatchedBy(sys: seq<WordData>, gold: seq<WordData>, pairs: seq<(nat, nat)>, matched: seq<Match>) {
    && InBounds(sys, gold, pairs) && |matched| == |pairs|
    && forall k | 0 <= k < |pairs| ::
         && matched[k].gold == gold[pairs[k].1].w
         && matched[k].system == sys[pairs[k].0].w.(head := matched[k].system.head)
         && Reindexed(gold, pairs, sys[pairs[k].0].w.head, matched[k].system.head)
  }

  /** What is matched so far and what the loop still matches are all pairs. */
  ghost predicate Remains(sys: seq<WordData>, gold: seq<WordData>, si: nat, gi: nat, pairs: seq<(nat, nat)>,
      all: seq<(nat, nat)>) {
    si <= |sys| && gi <= |gold| && Ends(sys, gold, si, gi) && pairs + Align(sys, gold, si, gi) == all
  }

  lemma {:induction false} RemainsNext(sys: seq<WordData>, gold: seq<WordData>, si: nat, gi: nat,
      pairs: seq<(nat, nat)>, all: seq<(nat, nat)>)
    requires si < |sys| && gi < |gold| && Remains(sys, gold, si, gi, pairs, all)
    ensures var r := NextRound(sys, gold, si, gi);
            && Remains(sys, gold, r.si, r.gi, pairs + r.pairs, all)
            && si + gi < r.si + r.gi
  {
    var r := NextRound(sys, gold, si, gi);
    Assoc(pairs, r.pairs, Align(sys, gold, r.si, r.gi));
  }

  /** At the end nothing remains. */
  lemma {:induction false} RemainsNothing(sys: seq<WordData>, gold: seq<WordData>, si: nat, gi: nat,
      pairs: seq<(nat, nat)>, all: seq<(nat, nat)>)
    requires (si >= |sys| || gi >= |gold|) && Remains(sys, gold, si, gi, pairs, all)
    ensures pairs == all
  {
    assert pairs + [] == pairs;
  }

  method BestAlignment(system: seq<WordData>, gold: seq<WordData>)
    returns (totalSystem: nat, totalGold: nat, matched: seq<Match>)
    requires Ends(system, gold, 0, 0)
    requires DenseIds(system) && HeadsInside(system)
    ensures totalSystem == |system| && totalGold == |gold|
    ensures MatchedBy(system, gold, Align(system, gold, 0, 0), matched)
  {
    totalSystem, totalGold := |system|, |gold|;
    AlignSound(system, gold, 0, 0);
    matched := MatchAll(system, gold);
    matched := ReindexHeads(system, gold, matched, Align(system, gold, 0, 0));
  }

  /** The outer loop. */
  method MatchAll(system: seq<WordData>, gold: seq<WordData>) returns (matched: seq<Match>)
    requires Ends(system, gold, 0, 0)
    ensures var p := Align(system, gold, 0, 0); InBounds(system, gold, p) && matched == Matches(system, gold, p)
  {
    ghost var pairs: seq<(nat, nat)> := [];
    ghost var all := Align(system, gold, 0, 0);
    assert [] + all == all;
    matched := [];
    var si: nat, gi: nat := 0, 0;
    while si < |system| && gi < |gold|
      invariant Remains(system, gold, si, gi, pairs, all)
      invariant InBounds(system, gold, pairs) && matched == Matches(system, gold, pairs)
      decreases |system| - si + |gold| - gi
    {
      ghost var round := NextRound(system, gold, si, gi);
      RemainsNext(system, gold, si, gi, pairs, all);
      AppendMatches(system, gold, pairs, round.pairs);
      var more;
      si, gi, more := MatchRound(system, gold, si, gi);
      pairs, matched := pairs + round.pairs, matched + more;
    }
    RemainsNothing(system, gold, si, gi, pairs, all);
  }

  lemma {:induction false} AppendMatches(system: seq<WordData>, gold: seq<WordData>, a: seq<(nat, nat)>,
      b: seq<(nat, nat)>)
    requires InBounds(system, gold, a)
    ensures InBounds(system, gold, b) ==>
              && InBounds(system, gold, a + b)
              && Matches(system, gold, a + b) == Matches(system, gold, a) + Matches(system, gold, b)
  {
  }

  /** One round of the outer loop. */
  method MatchRound(system: seq<WordData>, gold: seq<WordData>, ss: nat, gs: nat)
    returns (si: nat, gi: nat, more: seq<Match>)
    requires ss < |system| && gs < |gold|
    ensures var r := NextRound(system, gold, ss, gs);
            si == r.si && gi == r.gi && InBounds(system, gold, r.pairs) && more == Matches(system, gold, r.pairs)
  {
    si, gi, more := ss, gs, [];
    if PlainRound(system[si], gold[gi]) {
      if system[si].start == gold[gi].start && system[si].end == gold[gi].end {
        more := [Match(system[si].w, gold[gi].w)];
        si, gi := si + 1, gi + 1;
      } else if system[si].start <= gold[gi].start {
        si := si + 1;
      } else {
        gi := gi + 1;
      }
    } else {
      si, gi, more := MatchBlock(system, gold, si, gi);
    }
  }

  method MatchBlock(system: seq<WordData>, gold: seq<WordData>, ss: nat, gs: nat)
    returns (si: nat, gi: nat, more: seq<Match>)
    requires ss < |system| && gs < |gold| && !PlainRound(system[ss], gold[gs])
    ensures var r := NextRound(system, gold, ss, gs);
            si == r.si && gi == r.gi && InBounds(system, gold, r.pairs) && more == Matches(system, gold, r.pairs)
  {
    RoundSound(system, gold, ss, gs);
    si, gi := FindBlock(system, gold, ss, gs);
    var local := Lcs.Match(Forms(system[ss..si]), Forms(gold[gs..gi]));
    ghost var pairs := NextRound(system, gold, ss, gs).pairs;
    assert forall i | 0 <= i < |local| :: pairs[i] == (local[i].0 + ss, local[i].1 + gs);
    more := CollectMatches(system, gold, local, ss, gs, pairs);
  }

  /** The loop over the pairs of the traceback, shifted to the block. */
  method CollectMatches(system: seq<WordData>, gold: seq<WordData>, local: seq<(nat, nat)>, ss: nat, gs: nat,
      ghost pairs: seq<(nat, nat)>)
    returns (more: seq<Match>)
    requires InBounds(system, gold, pairs) && |local| == |pairs|
    requires forall i | 0 <= i < |local| :: pairs[i] == (local[i].0 + ss, local[i].1 + gs)
    ensures more == Matches(system, gold, pairs)
  {
    more := [];
    for i := 0 to |local|
      invariant more == Matches(system, gold, pairs[..i])
    {
      MatchesStep(system, gold, pairs, i);
      more := more + [Match(system[ss + local[i].0].w, gold[gs + local[i].1].w)];
    }
    assert pairs[..|local|] == pairs;
  }

  /** The inner loop that finds all words of the multiword range. */
  method FindBlock(system: seq<WordData>, gold: seq<WordData>, ss: nat, gs: nat) returns (si: nat, gi: nat)
    requires ss < |system| && gs < |gold|
    ensures var b := Extend(system, gold, ss, gs, BlockEnd(system[ss], gold[gs])); si == b.si && gi == b.gi
  {
    si, gi := ss, gs;
    var end := BlockEnd(system[si], gold[gi]);
    while InRange(system, si, end) || InRange(gold, gi, end)
      invariant si <= |system| && gi <= |gold|
      invariant Extend(system, gold, si, gi, end) == Extend(system, gold, ss, gs, BlockEnd(system[ss], gold[gs]))
      decreases |system| - si + |gold| - gi
    {
      if si < |system| && (gi >= |gold| || system[si].start <= gold[gi].start) {
        if system[si].isMultiword { end := Lcs.Max(end, system[si].end); }
        si := si + 1;
      } else {
        if gold[gi].isMultiword { end := Lcs.Max(end, gold[gi].end); }
        gi := gi + 1;
      }
    }
  }

  /** The two final loops: record the gold id of every aligned system word, then rewrite the heads. */
  method ReindexHeads(system: seq<WordData>, gold: seq<WordData>, matched: seq<Match>, ghost pairs: seq<(nat, nat)>)
    returns (r: seq<Match>)
    requires DenseIds(system) && HeadsInside(system)
    requires Lcs.Increasing(pairs) && |matched| == |pairs|
    requires forall k | 0 <= k < |pairs| ::
        pairs[k].0 < |system| && pairs[k].1 < |gold| && matched[k] == Match(system[pairs[k].0].w, gold[pairs[k].1].w)
    ensures |r| == |matched|
    ensures forall k | 0 <= k < |r| ::
        && r[k].gold == matched[k].gold
        && r[k].system == matched[k].system.(head := r[k].system.head)
        && Reindexed(gold, pairs, matched[k].system.head, r[k].system.head)
  {
    var goldAligned := new int[|system|](i => -1);
    for k := 0 to |matched|
      invariant forall m | 0 <= m < k :: goldAligned[pairs[m].0] == gold[pairs[m].1].w.id
      invariant forall i | 0 <= i < |system| && (forall m | 0 <= m < k :: pairs[m].0 != i) :: goldAligned[i] == -1
    {
      goldAligned[matched[k].system.id - 1] := matched[k].gold.id;
    }
    r := matched;
    for k := 0 to |matched|
      invariant |r| == |matched|
      invariant forall m | k <= m < |r| :: r[m] == matched[m]
      invariant forall m | 0 <= m < k ::
          && r[m].gold == matched[m].gold
          && r[m].system == matched[m].system.(head := r[m].system.head)
          && Reindexed(gold, pairs, matched[m].system.head, r[m].system.head)
    {
      if r[k].system.head > 0 {
        var head := r[k].system.head;
        assert system[pairs[k].0].w.head == head;
        r := r[k := r[k].(system := r[k].system.(head := goldAligned[head - 1]))];
      }
    }
  }

  /** A matched system word agrees with its gold word on the head if and only if both are the root or undefined, or the
      head words are aligned with each other: what the unlabelled attachment score counts. One more case does: a gold
      head that is undefined and a system head that is aligned with nothing. */
  lemma {:induction false} HeadsAgree(gold: seq<WordData>, pairs: seq<(nat, nat)>, h: int, h': int, goldHead: int)
    requires DenseIds(gold) && Lcs.Increasing(pairs) && forall n | 0 <= n < |pairs| :: pairs[n].1 < |gold|
    requires Reindexed(gold, pairs, h, h')
    ensures h' == goldHead <==>
              || (h <= 0 && goldHead == h)
              || (h > 0 && exists n | 0 <= n < |pairs| :: pairs[n].0 == h - 1 && pairs[n].1 == goldHead - 1)
              || (h > 0 && goldHead == -1 && forall n | 0 <= n < |pairs| :: pairs[n].0 != h - 1)
  {
    if h > 0 {
      if n :| 0 <= n < |pairs| && pairs[n].0 == h - 1 {
        assert h' == pairs[n].1 + 1;
      }
    }
  }
}
