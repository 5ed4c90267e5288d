/** Which words src/model/evaluator.cpp:309-363 aligns, told from their spans alone. */
module AlignmentPairs {
  import opened Sentences
  import opened Sequences
  import Lcs
  import opened Alignment
  import opened AlignmentEnds

  // ---------- words outside multiword tokens ----------

  /** No multiword token overlaps the word. */
  ghost predicate Untouched(w: WordData, d: seq<WordData>) {
    forall j | 0 <= j < |d| && d[j].isMultiword :: d[j].end <= w.start || w.end <= d[j].start
  }

  predicate SameSpan(a: WordData, b: WordData) { a.start == b.start && a.end == b.end }

  /** A word with characters, outside multiword tokens and overlapped by none of the other side. */
  ghost predicate Free(sys: seq<WordData>, gold: seq<WordData>, i: nat) {
    && i < |sys| && !sys[i].isMultiword && sys[i].start < sys[i].end && Untouched(sys[i], gold)
    && NoPlainAt(sys, sys[i].start) && NoPlainAt(gold, sys[i].start)
  }

  /** The words before a free one end by its start. */
  lemma {:induction false} FenceFree(sys: seq<WordData>, gold: seq<WordData>, i: nat)
    requires Laid(sys) && Laid(gold) && Free(sys, gold, i)
    ensures Fence(sys, i, sys[i].start) && Fence(gold, NextFrom(gold, sys[i].start), sys[i].start)
    ensures forall j | 0 <= j < i :: sys[j].end <= sys[i].start
  {
    var p := sys[i].start;
    forall j | 0 <= j < i ensures sys[j].end <= p && (!sys[j].isMultiword ==> sys[j].start < p) {
      assert SameTokenOrBefore(sys[j], sys[i]);
      assert !sys[j].isMultiword ==> !EmptyAt(sys[j], p);
    }
    assert forall k | 0 <= k < |gold| && gold[k].isMultiword :: gold[k].end <= p || sys[i].end <= gold[k].start;
    FenceNext(gold, p);
  }

  /** The one gold word that can have the span of a free word is the first that starts there, unless an empty multiword
      token stands in front of it. */
  lemma {:induction false} SpanFound(sys: seq<WordData>, gold: seq<WordData>, i: nat, k: nat)
    requires Laid(gold) && Free(sys, gold, i) && k < |gold| && SameSpan(sys[i], gold[k])
    ensures var n := NextFrom(gold, sys[i].start);
            && n <= k && !gold[k].isMultiword
            && (n < k ==> gold[n].isMultiword && EmptyAt(gold[n], sys[i].start))
  {
    var p := sys[i].start;
    var n := NextFrom(gold, p);
    if n < k {
      assert SameTokenOrBefore(gold[n], gold[k]);
      assert !gold[n].isMultiword ==> !EmptyAt(gold[n], p);
    }
  }

  /** A block in front of a free word stays in front of it. */
  lemma {:induction false} BlockBeforeFree(sys: seq<WordData>, gold: seq<WordData>, si: nat, gi: nat, i: nat)
    requires Laid(sys) && Laid(gold) && Free(sys, gold, i)
    requires si <= i && gi <= NextFrom(gold, sys[i].start) && gi < |gold| && !PlainRound(sys[si], gold[gi])
    ensures var r := NextRound(sys, gold, si, gi); r.si <= i && r.gi <= NextFrom(gold, sys[i].start)
  {
    var p := sys[i].start;
    FenceFree(sys, gold, i);
    if si < i { assert SameTokenOrBefore(sys[si], sys[i]); }
    assert BlockEnd(sys[si], gold[gi]) <= p;
    BlockBefore(sys, gold, si, gi, BlockEnd(sys[si], gold[gi]), i, NextFrom(gold, p), p);
  }

  lemma {:induction false} PlainFrom(sys: seq<WordData>, gold: seq<WordData>, si: nat, gi: nat, i: nat, k: nat)
    requires Laid(sys) && Laid(gold) && Free(sys, gold, i) && k < |gold|
    requires si <= i && gi <= NextFrom(gold, sys[i].start) && Ends(sys, gold, si, gi)
    ensures (i, k) in Align(sys, gold, si, gi) <==> SameSpan(sys[i], gold[k])
    decreases |sys| - si + |gold| - gi
  {
    if gi == |gold| {
      if SameSpan(sys[i], gold[k]) { SpanFound(sys, gold, i, k); }
    } else {
      var r := NextRound(sys, gold, si, gi);
      RoundAtOrBefore(sys, gold, si, gi, i, k);
      if r.si <= i { PlainFrom(sys, gold, r.si, r.gi, i, k); } else { AlignSound(sys, gold, r.si, r.gi); }
      assert Align(sys, gold, si, gi) == r.pairs + Align(sys, gold, r.si, r.gi);
    }
  }

  /** A round up to a free word: it does not pass it without deciding on its pair. */
  lemma {:induction false} RoundAtOrBefore(sys: seq<WordData>, gold: seq<WordData>, si: nat, gi: nat, i: nat, k: nat)
    requires Laid(sys) && Laid(gold) && Free(sys, gold, i) && k < |gold|
    requires si <= i && gi <= NextFrom(gold, sys[i].start) && gi < |gold|
    ensures var r := NextRound(sys, gold, si, gi);
            if r.si <= i then r.gi <= NextFrom(gold, sys[i].start) && (i, k) !in r.pairs
            else (i, k) in r.pairs <==> SameSpan(sys[i], gold[k])
  {
    if !PlainRound(sys[si], gold[gi]) {
      BlockBeforeFree(sys, gold, si, gi, i);
      RoundSound(sys, gold, si, gi);
    } else if si < i {
      PlainStep(sys, gold, si, gi, i);
    } else {
      AtFree(sys, gold, gi, i, k);
    }
  }

  /** A plain round in front of a free word does not pass it. */
  lemma {:induction false} PlainStep(sys: seq<WordData>, gold: seq<WordData>, si: nat, gi: nat, i: nat)
    requires Laid(sys) && Laid(gold) && Free(sys, gold, i)
    requires si < i && gi <= NextFrom(gold, sys[i].start) && gi < |gold| && PlainRound(sys[si], gold[gi])
    ensures var r := NextRound(sys, gold, si, gi);
            r.si <= i && r.gi <= NextFrom(gold, sys[i].start) && forall q | q in r.pairs :: q.0 < i
  {
    assert SameTokenOrBefore(sys[si], sys[i]);
    assert !sys[si].isMultiword ==> !EmptyAt(sys[si], sys[i].start);
  }

  /** The round at a free word: it matches the word of its span, and passes it in that case or when there is none. */
  lemma {:induction false} AtFree(sys: seq<WordData>, gold: seq<WordData>, gi: nat, i: nat, k: nat)
    requires Laid(sys) && Laid(gold) && Free(sys, gold, i) && k < |gold|
    requires gi <= NextFrom(gold, sys[i].start) && gi < |gold| && PlainRound(sys[i], gold[gi])
    ensures var r := NextRound(sys, gold, i, gi);
            && i <= r.si <= i + 1 && r.gi <= |gold|
            && (r.si == i ==> r.pairs == [] && r.gi <= NextFrom(gold, sys[i].start))
            && (r.si == i + 1 ==> ((i, k) in r.pairs <==> SameSpan(sys[i], gold[k])))
  {
    if SameSpan(sys[i], gold[k]) {
      SpanFound(sys, gold, i, k);
      if gi < k { assert SameTokenOrBefore(gold[gi], gold[k]); }
    }
  }

  /** A word outside multiword tokens that no multiword token of the other side overlaps is matched with the word of the
      same span, if there is one, and with no other, whatever multiword tokens there are elsewhere. */
  lemma {:induction false} PlainExactly(sys: seq<WordData>, gold: seq<WordData>, i: nat, k: nat)
    requires Laid(sys) && Laid(gold) && Ends(sys, gold, 0, 0) && Free(sys, gold, i) && k < |gold|
    ensures (i, k) in Align(sys, gold, 0, 0) <==> SameSpan(sys[i], gold[k])
  {
    PlainFrom(sys, gold, 0, 0, i, k);
  }

  /** Two words outside multiword tokens that have the same span are matched with each other, if all words have
      characters. */
  lemma {:induction false} EqualSpansMeet(sys: seq<WordData>, gold: seq<WordData>, i: nat, k: nat)
    requires TextOrder(sys) && TextOrder(gold) && Ends(sys, gold, 0, 0) && i < |sys| && k < |gold|
    requires !sys[i].isMultiword && !gold[k].isMultiword && SameSpan(sys[i], gold[k])
    ensures (i, k) in Align(sys, gold, 0, 0)
  {
    forall j | 0 <= j < |gold| && gold[j].isMultiword
      ensures gold[j].end <= sys[i].start || sys[i].end <= gold[j].start
    {
      if j < k { assert SameTokenOrBefore(gold[j], gold[k]); } else { assert SameTokenOrBefore(gold[k], gold[j]); }
    }
    PlainExactly(sys, gold, i, k);
  }

  // ---------- a multiword token ----------

  /** The words i0 to i1 - 1 are those that stand between p and q, and no word stands across either. */
  ghost predicate Window(d: seq<WordData>, i0: nat, i1: nat, p: nat, q: nat) {
    && i0 < i1 <= |d|
    && (forall j | 0 <= j < i0 :: d[j].end <= p)
    && (forall j | i0 <= j < i1 :: p <= d[j].start && d[j].end <= q)
    && (forall j | i1 <= j < |d| :: q <= d[j].start)
  }

  predicate TokenAt(w: WordData, p: nat, q: nat) { w.isMultiword && w.start == p && w.end == q }

  /** A multiword token of one side that holds whole words of the other. */
  ghost predicate Holds(sys: seq<WordData>, gold: seq<WordData>, i0: nat, i1: nat, k0: nat, k1: nat, p: nat, q: nat) {
    && TextOrder(sys) && TextOrder(gold) && p < q
    && Window(sys, i0, i1, p, q) && Window(gold, k0, k1, p, q)
    && (TokenAt(sys[i0], p, q) || TokenAt(gold[k0], p, q))
  }

  /** Every gold multiword token from gi to k0 - 1 starts where a system word from si on does. */
  ghost predicate StartsMeet(sys: seq<WordData>, gold: seq<WordData>, si: nat, gi: nat, k0: nat) {
    forall j | gi <= j < k0 && j < |gold| && gold[j].isMultiword :: StartFrom(sys, si, gold[j].start)
  }

  ghost predicate StartFrom(d: seq<WordData>, si: nat, p: nat) {
    exists x | si <= x < |d| :: d[x].start == p
  }

  lemma {:induction false} WindowFence(d: seq<WordData>, i0: nat, i1: nat, p: nat, q: nat)
    requires TextOrder(d) && p < q && Window(d, i0, i1, p, q)
    ensures Fence(d, i0, p) && Fence(d, i1, q)
  {
  }

  /** All words of a block start before its end. */
  lemma {:induction false} BlockStarts(sys: seq<WordData>, gold: seq<WordData>, si: nat, gi: nat, end: nat)
    requires TextOrder(sys) && TextOrder(gold) && si <= |sys| && gi <= |gold|
    ensures var b := Extend(sys, gold, si, gi, end); forall x | si <= x < b.si :: sys[x].start < b.end
    decreases |sys| - si + |gold| - gi
  {
    if !InRange(sys, si, end) && !InRange(gold, gi, end) {
    } else if si < |sys| && (gi >= |gold| || sys[si].start <= gold[gi].start) {
      BlockStarts(sys, gold, si + 1, gi, if sys[si].isMultiword then Lcs.Max(end, sys[si].end) else end);
    } else {
      BlockStarts(sys, gold, si, gi + 1, if gold[gi].isMultiword then Lcs.Max(end, gold[gi].end) else end);
    }
  }

  /** What is not in range of a block starts at its end or later, if it is a multiword token or comes after such a word.
      */
  lemma {:induction false} AfterBlock(d: seq<WordData>, i: nat, j: nat, end: nat)
    requires TextOrder(d) && i <= j < |d| && !InRange(d, i, end) && d[j].isMultiword
    ensures d[j].start >= end
  {
    if i < j { assert SameTokenOrBefore(d[i], d[j]); }
  }

  lemma {:induction false} MeetKept(sys: seq<WordData>, gold: seq<WordData>, si: nat, gi: nat, k0: nat)
    requires TextOrder(sys) && TextOrder(gold) && si < |sys| && gi < |gold| && StartsMeet(sys, gold, si, gi, k0)
    ensures var r := NextRound(sys, gold, si, gi); StartsMeet(sys, gold, r.si, r.gi, k0)
  {
    var r := NextRound(sys, gold, si, gi);
    forall j | r.gi <= j < k0 && j < |gold| && gold[j].isMultiword ensures StartFrom(sys, r.si, gold[j].start) {
      var x :| si <= x < |sys| && sys[x].start == gold[j].start;
      if PlainRound(sys[si], gold[gi]) {
        if gi < j { assert SameTokenOrBefore(gold[gi], gold[j]); }
      } else {
        BlockStarts(sys, gold, si, gi, BlockEnd(sys[si], gold[gi]));
        AfterBlock(gold, r.gi, j, Extend(sys, gold, si, gi, BlockEnd(sys[si], gold[gi])).end);
      }
    }
  }

  /** When the system head is at its window, no multiword token is left in front of the gold one. */
  lemma {:induction false} NoTokenBefore(sys: seq<WordData>, gold: seq<WordData>, si: nat, gi: nat, i0: nat, i1: nat,
      k0: nat, k1: nat, p: nat, q: nat)
    requires Holds(sys, gold, i0, i1, k0, k1, p, q) && si <= i0 && gi <= k0 && StartsMeet(sys, gold, si, gi, k0)
    ensures si == i0 && gi < k0 ==> !gold[gi].isMultiword
  {
    assert gi < k0 ==> gold[gi].end <= p;
    assert gi < k0 && gold[gi].isMultiword ==> StartFrom(sys, si, gold[gi].start);
  }

  /** A round in front of the windows stays in front of them. */
  lemma {:induction false} RoundBefore(sys: seq<WordData>, gold: seq<WordData>, si: nat, gi: nat, i0: nat, i1: nat,
      k0: nat, k1: nat, p: nat, q: nat)
    requires Holds(sys, gold, i0, i1, k0, k1, p, q) && si <= i0 && gi <= k0 && (si, gi) != (i0, k0)
    requires StartsMeet(sys, gold, si, gi, k0)
    ensures var r := NextRound(sys, gold, si, gi); r.si <= i0 && r.gi <= k0
  {
    WindowFence(sys, i0, i1, p, q);
    WindowFence(gold, k0, k1, p, q);
    assert si < i0 ==> sys[si].end <= p;
    assert gi < k0 ==> gold[gi].end <= p;
    NoTokenBefore(sys, gold, si, gi, i0, i1, k0, k1, p, q);
    if !PlainRound(sys[si], gold[gi]) {
      BlockBefore(sys, gold, si, gi, BlockEnd(sys[si], gold[gi]), i0, k0, p);
    }
  }

  /** The round at the windows is a block that holds exactly them. */
  lemma {:induction false} RoundAtWindow(sys: seq<WordData>, gold: seq<WordData>, i0: nat, i1: nat, k0: nat, k1: nat,
      p: nat, q: nat)
    requires Holds(sys, gold, i0, i1, k0, k1, p, q)
    ensures !PlainRound(sys[i0], gold[k0])
    ensures var r := NextRound(sys, gold, i0, k0); r.si == i1 && r.gi == k1
  {
    WindowFence(sys, i0, i1, p, q);
    WindowFence(gold, k0, k1, p, q);
    var end := BlockEnd(sys[i0], gold[k0]);
    var b := Extend(sys, gold, i0, k0, end);
    BlockBefore(sys, gold, i0, k0, end, i1, k1, q);
    BlockCoversMultiwords(sys, gold, i0, k0, end);
    if TokenAt(sys[i0], p, q) {
      assert b.end >= q;
    } else {
      assert b.gi > k0;
      assert b.end >= q;
    }
  }

  /** What the run matches in front of the windows, in them and behind them. */
  ghost predicate InParts(sys: seq<WordData>, gold: seq<WordData>, i0: nat, i1: nat, k0: nat, k1: nat,
      before: seq<(nat, nat)>, mid: seq<(nat, nat)>, after: seq<(nat, nat)>)
  {
    && i0 <= i1 <= |sys| && k0 <= k1 <= |gold|
    && Sound(sys, gold, 0, i0, 0, k0, before) && SameForms(sys, gold, i0, i1, k0, k1, mid)
    && Sound(sys, gold, i1, |sys|, k1, |gold|, after)
  }

  lemma {:induction false} PartsFrom(sys: seq<WordData>, gold: seq<WordData>, si: nat, gi: nat, i0: nat, i1: nat,
      k0: nat, k1: nat, p: nat, q: nat) returns (before: seq<(nat, nat)>)
    requires Holds(sys, gold, i0, i1, k0, k1, p, q) && si <= i0 && gi <= k0
    requires StartsMeet(sys, gold, si, gi, k0) && Ends(sys, gold, si, gi)
    ensures Sound(sys, gold, si, i0, gi, k0, before) && Ends(sys, gold, i0, k0)
    ensures Align(sys, gold, si, gi) == before + Align(sys, gold, i0, k0)
    decreases |sys| - si + |gold| - gi
  {
    if (si, gi) == (i0, k0) {
      before := [];
      assert [] + Align(sys, gold, si, gi) == Align(sys, gold, si, gi);
    } else {
      RoundBefore(sys, gold, si, gi, i0, i1, k0, k1, p, q);
      MeetKept(sys, gold, si, gi, k0);
      var r := NextRound(sys, gold, si, gi);
      var later := PartsFrom(sys, gold, r.si, r.gi, i0, i1, k0, k1, p, q);
      before := r.pairs + later;
      PartsStep(sys, gold, si, gi, i0, k0, later);
    }
  }

  lemma {:induction false} PartsStep(sys: seq<WordData>, gold: seq<WordData>, si: nat, gi: nat, i0: nat, k0: nat,
      later: seq<(nat, nat)>)
    requires si < |sys| && gi < |gold| && i0 <= |sys| && k0 <= |gold|
    requires Ends(sys, gold, si, gi) && Ends(sys, gold, i0, k0)
    requires var r := NextRound(sys, gold, si, gi);
             && r.si <= i0 && r.gi <= k0 && Sound(sys, gold, r.si, i0, r.gi, k0, later)
             && Align(sys, gold, r.si, r.gi) == later + Align(sys, gold, i0, k0)
    ensures var pairs := NextRound(sys, gold, si, gi).pairs;
            && Sound(sys, gold, si, i0, gi, k0, pairs + later)
            && Align(sys, gold, si, gi) == pairs + later + Align(sys, gold, i0, k0)
  {
    var r := NextRound(sys, gold, si, gi);
    RoundSound(sys, gold, si, gi);
    SoundJoin(sys, gold, si, r.si, i0, gi, r.gi, k0, r.pairs, later);
    Assoc(r.pairs, later, Align(sys, gold, i0, k0));
  }

  /** A multiword token of one side that holds whole words of the other, when every gold multiword token before it
      starts where a system word does: its words and those are matched among each other only, by form and in order, and
      no other choice matches more of them. */
  lemma {:induction false} TokenExactly(sys: seq<WordData>, gold: seq<WordData>, i0: nat, i1: nat, k0: nat, k1: nat,
      p: nat, q: nat, other: seq<(nat, nat)>)
    returns (before: seq<(nat, nat)>, mid: seq<(nat, nat)>, after: seq<(nat, nat)>)
    requires Holds(sys, gold, i0, i1, k0, k1, p, q) && StartsMeet(sys, gold, 0, 0, k0)
    ensures Ends(sys, gold, 0, 0) && Align(sys, gold, 0, 0) == before + mid + after
    ensures InParts(sys, gold, i0, i1, k0, k1, before, mid, after) && Lcs.Increasing(mid)
    ensures Lcs.Increasing(other) && SameForms(sys, gold, i0, i1, k0, k1, other) ==> |other| <= |mid|
  {
    ProperEnds(sys, gold, 0, 0);
    before := PartsFrom(sys, gold, 0, 0, i0, i1, k0, k1, p, q);
    RoundAtWindow(sys, gold, i0, i1, k0, k1, p, q);
    BlockOptimal(sys, gold, i0, k0, other);
    AlignSound(sys, gold, i1, k1);
    mid, after := NextRound(sys, gold, i0, k0).pairs, Align(sys, gold, i1, k1);
    Assoc(before, mid, after);
  }
}
