/** When the outer loop of src/model/evaluator.cpp:318-356 ends. */
module AlignmentEnds {
  import opened Sentences
  import opened Alignment

  // A round stalls only at a multiword token without characters. Whether the run gets to such a round depends on the
  // other side: a multiword token there that stands across the place takes the empty one into its block.

  predicate EmptyAt(w: WordData, p: nat) { w.start == p && w.end == p }

  /** The first word that starts at p or later. */
  function NextFrom(d: seq<WordData>, p: nat): (n: nat)
    ensures n <= |d|
    ensures forall j | 0 <= j < n :: d[j].start < p
    ensures n < |d| ==> d[n].start >= p
  {
    if d == [] || d[0].start >= p then 0 else 1 + NextFrom(d[1..], p)
  }

  /** A multiword token starts before p and ends after it. */
  predicate Across(d: seq<WordData>, p: nat) {
    exists k | 0 <= k < |d| :: d[k].isMultiword && d[k].start < p < d[k].end
  }

  /** An empty multiword token of the system data that no gold multiword token takes in, with gold words to come. */
  predicate ExposedInSystem(sys: seq<WordData>, gold: seq<WordData>, i: nat) {
    && i < |sys| && sys[i].isMultiword && sys[i].start == sys[i].end
    && NextFrom(gold, sys[i].start) < |gold| && !Across(gold, sys[i].start)
  }

  /** The same in the gold data. Where both heads are multiword tokens the block ends with that of the system, so a
      system multiword token that comes next takes the empty one in, too. */
  predicate ExposedInGold(sys: seq<WordData>, gold: seq<WordData>, k: nat) {
    && k < |gold| && gold[k].isMultiword && gold[k].start == gold[k].end
    && var n := NextFrom(sys, gold[k].start); n < |sys| && !sys[n].isMultiword && !Across(sys, gold[k].start)
  }

  ghost predicate NoneExposed(sys: seq<WordData>, gold: seq<WordData>) {
    && (forall i | 0 <= i < |sys| :: !ExposedInSystem(sys, gold, i))
    && (forall k | 0 <= k < |gold| :: !ExposedInGold(sys, gold, k))
  }

  // ---------- nothing exposed: the loop ends ----------

  /** The word does not lie before e, apart from one that only ends behind it. */
  predicate Beyond(d: seq<WordData>, i: nat, e: nat) {
    i >= |d| || d[i].start >= e || (!d[i].isMultiword && d[i].end > e)
  }

  lemma {:induction false} BeyondLater(d: seq<WordData>, i: nat, j: nat, e: nat, e': nat)
    requires Laid(d) && i <= j && e' <= e && Beyond(d, i, e)
    ensures Beyond(d, j, e')
  {
    if i < j < |d| { assert SameTokenOrBefore(d[i], d[j]); }
  }

  /** The multiword tokens among the first m words are passed by the other head. */
  ghost predicate Cleared(d: seq<WordData>, m: nat, other: seq<WordData>, o: nat) {
    forall j | 0 <= j < m && j < |d| && d[j].isMultiword :: Beyond(other, o, d[j].end)
  }

  lemma {:induction false} ClearedLater(d: seq<WordData>, m: nat, other: seq<WordData>, o: nat, m': nat, o': nat,
      e: nat)
    requires Laid(other) && Cleared(d, m, other, o) && o <= o'
    requires forall j | m <= j < m' && j < |d| && d[j].isMultiword :: d[j].end <= e && Beyond(other, o', e)
    ensures Cleared(d, m', other, o')
  {
    forall j | 0 <= j < m' && j < |d| && d[j].isMultiword ensures Beyond(other, o', d[j].end) {
      if j < m { BeyondLater(other, o, o', d[j].end, d[j].end); } else { BeyondLater(other, o', o', e, d[j].end); }
    }
  }

  lemma {:induction false} RoundClears(sys: seq<WordData>, gold: seq<WordData>, si: nat, gi: nat)
    requires Laid(sys) && Laid(gold) && si < |sys| && gi < |gold|
    requires Cleared(sys, si, gold, gi) && Cleared(gold, gi, sys, si)
    ensures var r := NextRound(sys, gold, si, gi); Cleared(sys, r.si, gold, r.gi) && Cleared(gold, r.gi, sys, r.si)
  {
    var r, e := NextRound(sys, gold, si, gi), 0;
    if !PlainRound(sys[si], gold[gi]) {
      var b := Extend(sys, gold, si, gi, BlockEnd(sys[si], gold[gi]));
      BlockCoversMultiwords(sys, gold, si, gi, BlockEnd(sys[si], gold[gi]));
      e := b.end;
    }
    ClearedLater(sys, si, gold, gi, r.si, r.gi, e);
    ClearedLater(gold, gi, sys, si, r.gi, r.si, e);
  }

  /** A stalled round shows an exposed token at its heads. */
  lemma {:induction false} StalledExposes(sys: seq<WordData>, gold: seq<WordData>, si: nat, gi: nat)
    requires Laid(sys) && Laid(gold) && si < |sys| && gi < |gold|
    requires Cleared(sys, si, gold, gi) && Cleared(gold, gi, sys, si)
    requires Stalled(sys, gold, si, gi)
    ensures !NoneExposed(sys, gold)
  {
    StalledRound(sys, gold, si, gi);
    if sys[si].isMultiword {
      SystemExposed(sys, gold, si, gi);
    } else {
      GoldExposed(sys, gold, si, gi);
    }
  }

  lemma {:induction false} SystemExposed(sys: seq<WordData>, gold: seq<WordData>, si: nat, gi: nat)
    requires Laid(sys) && Laid(gold) && si < |sys| && gi < |gold| && Cleared(gold, gi, sys, si)
    requires sys[si].isMultiword && sys[si].start == sys[si].end <= gold[gi].start
    ensures ExposedInSystem(sys, gold, si)
  {
    var p := sys[si].start;
    assert NextFrom(gold, p) <= gi;
    forall k | 0 <= k < |gold| && gold[k].isMultiword ensures !(gold[k].start < p < gold[k].end) {
      if k < gi {
        assert Beyond(sys, si, gold[k].end);
      } else if gi < k {
        assert SameTokenOrBefore(gold[gi], gold[k]);
      }
    }
  }

  lemma {:induction false} GoldExposed(sys: seq<WordData>, gold: seq<WordData>, si: nat, gi: nat)
    requires Laid(sys) && Laid(gold) && si < |sys| && gi < |gold|
    requires Cleared(sys, si, gold, gi) && Cleared(gold, gi, sys, si)
    requires !sys[si].isMultiword && gold[gi].isMultiword && gold[gi].start == gold[gi].end <= sys[si].start
    ensures !NoneExposed(sys, gold)
  {
    var p := gold[gi].start;
    var n := NextFrom(sys, p);
    assert n <= si;
    if sys[n].isMultiword {
      assert Beyond(gold, gi, sys[n].end);
      EmptyOnBoth(sys, gold, n, gi);
    } else {
      forall j | 0 <= j < |sys| && sys[j].isMultiword ensures !(sys[j].start < p < sys[j].end) {
        if j < si { assert Beyond(gold, gi, sys[j].end); } else if si < j { assert SameTokenOrBefore(sys[si], sys[j]); }
      }
      assert ExposedInGold(sys, gold, gi);
    }
  }

  lemma {:induction false} EmptyOnBoth(sys: seq<WordData>, gold: seq<WordData>, i: nat, k: nat)
    requires Laid(gold) && i < |sys| && k < |gold| && sys[i].isMultiword && sys[i].start == sys[i].end == gold[k].start
    requires gold[k].start == gold[k].end
    ensures ExposedInSystem(sys, gold, i)
  {
    assert NextFrom(gold, sys[i].start) <= k;
    forall j | 0 <= j < |gold| && gold[j].isMultiword ensures !(gold[j].start < sys[i].start < gold[j].end) {
      if j < k { assert SameTokenOrBefore(gold[j], gold[k]); }
      if k < j { assert SameTokenOrBefore(gold[k], gold[j]); }
    }
  }

  lemma {:induction false} EndsFrom(sys: seq<WordData>, gold: seq<WordData>, si: nat, gi: nat)
    requires Laid(sys) && Laid(gold) && si <= |sys| && gi <= |gold|
    requires Cleared(sys, si, gold, gi) && Cleared(gold, gi, sys, si)
    requires NoneExposed(sys, gold)
    ensures Ends(sys, gold, si, gi)
    decreases |sys| - si + |gold| - gi
  {
    if si < |sys| && gi < |gold| {
      if Stalled(sys, gold, si, gi) { StalledExposes(sys, gold, si, gi); }
      RoundClears(sys, gold, si, gi);
      var r := NextRound(sys, gold, si, gi);
      EndsFrom(sys, gold, r.si, r.gi);
    }
  }

  // ---------- something exposed: the loop never ends ----------

  /** No word outside multiword tokens is empty and stands at p. */
  ghost predicate NoPlainAt(d: seq<WordData>, p: nat) {
    forall i | 0 <= i < |d| && !d[i].isMultiword :: !EmptyAt(d[i], p)
  }

  /** The m-th word, if there is one, starts at p or later, and the ones up to it hold no block that reaches p open. */
  ghost predicate Fence(d: seq<WordData>, m: nat, p: nat) {
    && m <= |d| && (m < |d| ==> d[m].start >= p)
    && (forall j | 0 <= j <= m && j < |d| && !d[j].isMultiword :: d[j].start >= p ==> d[j].end > p)
    && (forall j | 0 <= j < m && d[j].isMultiword :: d[j].end <= p)
  }

  /** Up to an empty multiword token at p. */
  lemma {:induction false} FenceAt(d: seq<WordData>, m: nat, p: nat)
    requires Laid(d) && NoPlainAt(d, p) && m < |d| && d[m].isMultiword && d[m].start == d[m].end == p
    ensures Fence(d, m, p) && forall j | 0 <= j <= m :: d[j].start <= p && d[j].end <= p
  {
    forall j | 0 <= j <= m ensures d[j].start <= p && d[j].end <= p {
      if j < m { assert SameTokenOrBefore(d[j], d[m]); }
    }
    assert forall j | 0 <= j <= m && !d[j].isMultiword :: !EmptyAt(d[j], p);
  }

  /** Up to the first word from p on, when no multiword token stands across p. */
  lemma {:induction false} FenceNext(d: seq<WordData>, p: nat)
    requires Laid(d) && NoPlainAt(d, p) && !Across(d, p)
    ensures Fence(d, NextFrom(d, p), p)
  {
    var n := NextFrom(d, p);
    assert n < |d| && !d[n].isMultiword ==> !EmptyAt(d[n], p);
    assert forall j | 0 <= j < n :: d[j].start < p;
  }

  /** A block that ends by p stops in front of the fence on both sides. */
  lemma {:induction false} BlockBefore(sys: seq<WordData>, gold: seq<WordData>, si: nat, gi: nat, end: nat, i: nat,
      k: nat, p: nat)
    requires Fence(sys, i, p) && Fence(gold, k, p) && si <= i && gi <= k && end <= p
    ensures var b := Extend(sys, gold, si, gi, end); b.si <= i && b.gi <= k
    decreases |sys| - si + |gold| - gi
  {
    if (si < |sys| ==> sys[si].start >= p) && (gi < |gold| ==> gold[gi].start >= p) {
      assert !InRange(sys, si, end) && !InRange(gold, gi, end);
    } else if !InRange(sys, si, end) && !InRange(gold, gi, end) {
    } else if si < |sys| && (gi >= |gold| || sys[si].start <= gold[gi].start) {
      BlockBefore(sys, gold, si + 1, gi, if sys[si].isMultiword then Lcs.Max(end, sys[si].end) else end, i, k, p);
    } else {
      BlockBefore(sys, gold, si, gi + 1, if gold[gi].isMultiword then Lcs.Max(end, gold[gi].end) else end, i, k, p);
    }
  }

  lemma {:induction false} RoundBeforeSystem(sys: seq<WordData>, gold: seq<WordData>, si: nat, gi: nat, i: nat)
    requires Laid(sys) && Laid(gold) && ExposedInSystem(sys, gold, i)
    requires NoPlainAt(sys, sys[i].start) && NoPlainAt(gold, sys[i].start)
    requires si <= i && gi <= NextFrom(gold, sys[i].start)
    ensures var r := NextRound(sys, gold, si, gi); r.si <= i && r.gi <= NextFrom(gold, sys[i].start)
  {
    var p := sys[i].start;
    FenceAt(sys, i, p);
    FenceNext(gold, p);
    if !PlainRound(sys[si], gold[gi]) {
      BlockBefore(sys, gold, si, gi, BlockEnd(sys[si], gold[gi]), i, NextFrom(gold, p), p);
    }
  }

  lemma {:induction false} SystemStalls(sys: seq<WordData>, gold: seq<WordData>, si: nat, gi: nat, i: nat)
    requires Laid(sys) && Laid(gold) && ExposedInSystem(sys, gold, i)
    requires NoPlainAt(sys, sys[i].start) && NoPlainAt(gold, sys[i].start)
    requires si <= i && gi <= NextFrom(gold, sys[i].start)
    ensures !Ends(sys, gold, si, gi)
    decreases |sys| - si + |gold| - gi
  {
    if !Stalled(sys, gold, si, gi) {
      RoundBeforeSystem(sys, gold, si, gi, i);
      var r := NextRound(sys, gold, si, gi);
      SystemStalls(sys, gold, r.si, r.gi, i);
    }
  }

  lemma {:induction false} RoundBeforeGold(sys: seq<WordData>, gold: seq<WordData>, si: nat, gi: nat, k: nat)
    requires Laid(sys) && Laid(gold) && ExposedInGold(sys, gold, k)
    requires NoPlainAt(sys, gold[k].start) && NoPlainAt(gold, gold[k].start)
    requires gi <= k && si <= NextFrom(sys, gold[k].start)
    ensures var r := NextRound(sys, gold, si, gi); r.gi <= k && r.si <= NextFrom(sys, gold[k].start)
  {
    var p := gold[k].start;
    FenceAt(gold, k, p);
    FenceNext(sys, p);
    if !PlainRound(sys[si], gold[gi]) {
      BlockBefore(sys, gold, si, gi, BlockEnd(sys[si], gold[gi]), NextFrom(sys, p), k, p);
    }
  }

  lemma {:induction false} GoldStalls(sys: seq<WordData>, gold: seq<WordData>, si: nat, gi: nat, k: nat)
    requires Laid(sys) && Laid(gold) && ExposedInGold(sys, gold, k)
    requires NoPlainAt(sys, gold[k].start) && NoPlainAt(gold, gold[k].start)
    requires gi <= k && si <= NextFrom(sys, gold[k].start)
    ensures !Ends(sys, gold, si, gi)
    decreases |sys| - si + |gold| - gi
  {
    if !Stalled(sys, gold, si, gi) {
      RoundBeforeGold(sys, gold, si, gi, k);
      var r := NextRound(sys, gold, si, gi);
      GoldStalls(sys, gold, r.si, r.gi, k);
    }
  }

  // ---------- the whole run ----------

  /** Where a multiword token is empty, no word outside multiword tokens is. */
  ghost predicate NoPlainBeside(d: seq<WordData>, sys: seq<WordData>, gold: seq<WordData>) {
    forall i | 0 <= i < |d| && d[i].isMultiword && d[i].start == d[i].end ::
      NoPlainAt(sys, d[i].start) && NoPlainAt(gold, d[i].start)
  }

  /** The alignment ends if no empty multiword token is exposed; and only then, unless an empty word outside multiword
      tokens stands at the place of an empty multiword token. */
  lemma {:induction false} EndsExactly(sys: seq<WordData>, gold: seq<WordData>)
    requires Laid(sys) && Laid(gold)
    ensures NoneExposed(sys, gold) ==> Ends(sys, gold, 0, 0)
    ensures NoPlainBeside(sys, sys, gold) && NoPlainBeside(gold, sys, gold) ==>
              (Ends(sys, gold, 0, 0) <==> NoneExposed(sys, gold))
  {
    if NoneExposed(sys, gold) {
      EndsFrom(sys, gold, 0, 0);
    } else if NoPlainBeside(sys, sys, gold) && NoPlainBeside(gold, sys, gold) {
      if i :| 0 <= i < |sys| && ExposedInSystem(sys, gold, i) {
        SystemStalls(sys, gold, 0, 0, i);
      } else {
        var k :| 0 <= k < |gold| && ExposedInGold(sys, gold, k);
        GoldStalls(sys, gold, 0, 0, k);
      }
    }
  }

  /** An empty word beside an empty multiword token can take it along: exposed, and yet the loop ends. */
  lemma {:induction false} TakenAlong(w: Word)
    ensures var s, g := [WordData(0, 0, true, w)], [WordData(0, 0, false, w), WordData(0, 1, false, w)];
            Laid(s) && Laid(g) && ExposedInSystem(s, g, 0) && Ends(s, g, 0, 0)
  {
    var s, g := [WordData(0, 0, true, w)], [WordData(0, 0, false, w), WordData(0, 1, false, w)];
    assert Extend(s, g, 1, 1, 0) == Block(1, 1, 0);
    assert Extend(s, g, 1, 0, 0) == Block(1, 1, 0);
    assert Extend(s, g, 0, 0, 0) == Block(1, 1, 0);
  }
}
