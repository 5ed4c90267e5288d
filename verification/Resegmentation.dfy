/** The paragraph before and after joint segmentation. */
module Resegmentation {
  import opened Sentences
  import opened JointSegmentation

  // How a paragraph is flattened before the joint segmentation, and rebuilt after it:
  // src/model/model_morphodita_parsito.cpp:272-292 and 325-346.

  datatype Plain = Plain(words: seq<Word>, mwts: seq<MultiwordToken>)

  /** A sentence as the tokenizers produce it: root first, ids equal to positions, multiword ranges in order. */
  ghost predicate Dense(s: Plain) {
    && |s.words| >= 1 && s.words[0] == ROOT && OrderedRanges(|s.words|, s.mwts)
    && forall k {:trigger s.words[k]} | 0 <= k < |s.words| :: s.words[k].id == k
  }

  // ---------- flattening ----------

  datatype Flat = Flat(words: seq<Word>, mwts: seq<MultiwordToken>, sentenceBoundary: seq<bool>,
      tokenBoundary: seq<bool>)

  const EMPTY := Flat([ROOT], [], [true], [true])

  function MoveWord(w: Word, shift: int): Word { w.(id := w.id + shift) }

  function MoveWords(ws: seq<Word>, shift: int): (r: seq<Word>)
    ensures |r| == |ws| && forall k | 0 <= k < |ws| :: r[k] == MoveWord(ws[k], shift)
  {
    seq(|ws|, k requires 0 <= k < |ws| => MoveWord(ws[k], shift))
  }

  function MoveRange(m: MultiwordToken, shift: int): MultiwordToken {
    m.(idFirst := m.idFirst + shift, idLast := m.idLast + shift)
  }

  function MoveRanges(ms: seq<MultiwordToken>, shift: int): (r: seq<MultiwordToken>)
    ensures |r| == |ms| && forall k | 0 <= k < |ms| :: r[k] == MoveRange(ms[k], shift)
  {
    seq(|ms|, k requires 0 <= k < |ms| => MoveRange(ms[k], shift))
  }

  /** Position i lies between two words of one multiword token. */
  predicate Inside(mwts: seq<MultiwordToken>, i: int) {
    exists j | 0 <= j < |mwts| :: mwts[j].idFirst <= i < mwts[j].idLast
  }

  function Clear(boundary: seq<bool>, mwts: seq<MultiwordToken>): (r: seq<bool>)
    ensures |r| == |boundary| && forall i | 0 <= i < |r| :: r[i] == (boundary[i] && !Inside(mwts, i))
  {
    seq(|boundary|, i requires 0 <= i < |boundary| => boundary[i] && !Inside(mwts, i))
  }

  function AddSentence(f: Flat, s: Plain): Flat
    requires |f.words| >= 1 && |s.words| >= 1
  {
    var offset, n := |f.words| - 1, |s.words| - 1;
    var moved := MoveRanges(s.mwts, offset);
    Flat(f.words + MoveWords(s.words[1..], offset), f.mwts + moved,
         f.sentenceBoundary + seq(n, k => k + 1 == n),
         Clear(f.tokenBoundary + seq(n, k => true), moved))
  }

  ghost predicate AllDense(paragraph: seq<Plain>) {
    forall k | 0 <= k < |paragraph| :: Dense(paragraph[k])
  }

  function Flatten(paragraph: seq<Plain>): (f: Flat)
    requires forall k | 0 <= k < |paragraph| :: |paragraph[k].words| >= 1
    ensures |f.words| >= 1
  {
    if paragraph == [] then EMPTY
    else AddSentence(Flatten(paragraph[..|paragraph| - 1]), paragraph[|paragraph| - 1])
  }

  /** Ids are positions, multiword ranges are in order, and the token boundaries are exactly
      the positions inside no multiword token. */
  ghost predicate FlatOk(f: Flat) {
    && |f.words| == |f.sentenceBoundary| == |f.tokenBoundary| >= 1
    && f.words[0] == ROOT
    && (forall k {:trigger f.words[k]} | 0 <= k < |f.words| :: f.words[k].id == k)
    && OrderedRanges(|f.words|, f.mwts)
    && forall i | 0 <= i < |f.tokenBoundary| :: f.tokenBoundary[i] <==> !Inside(f.mwts, i)
  }

  lemma {:induction false} RangesAppend(n: nat, a: seq<MultiwordToken>, m: nat, b: seq<MultiwordToken>)
    requires n >= 1 && m >= 1 && OrderedRanges(n, a) && OrderedRanges(m, b)
    ensures OrderedRanges(n + m - 1, a + MoveRanges(b, n - 1))
  {
    var c := a + MoveRanges(b, n - 1);
    assert forall j | 0 <= j < |c| :: c[j] == if j < |a| then a[j] else MoveRange(b[j - |a|], n - 1);
  }

  lemma {:induction false} InsideAppend(a: seq<MultiwordToken>, b: seq<MultiwordToken>, i: int)
    ensures Inside(a + b, i) <==> Inside(a, i) || Inside(b, i)
  {
    if Inside(a, i) {
      var j :| 0 <= j < |a| && a[j].idFirst <= i < a[j].idLast;
      assert (a + b)[j] == a[j];
    }
    if Inside(b, i) {
      var j :| 0 <= j < |b| && b[j].idFirst <= i < b[j].idLast;
      assert (a + b)[|a| + j] == b[j];
    }
  }

  lemma {:induction false} AddKeepsFlat(f: Flat, s: Plain)
    requires FlatOk(f) && Dense(s)
    ensures FlatOk(AddSentence(f, s))
  {
    var r := AddSentence(f, s);
    var offset := |f.words| - 1;
    var moved := MoveRanges(s.mwts, offset);
    RangesAppend(|f.words|, f.mwts, |s.words|, s.mwts);
    forall i | 0 <= i < |r.tokenBoundary| ensures r.tokenBoundary[i] <==> !Inside(r.mwts, i) {
      InsideAppend(f.mwts, moved, i);
      if i > offset { assert !Inside(f.mwts, i); }
    }
    forall k {:trigger r.words[k]} | 0 <= k < |r.words| ensures r.words[k].id == k {
      if k > offset { assert r.words[k] == MoveWord(s.words[k - offset], offset); }
    }
  }

  lemma {:induction false} FlattenOk(paragraph: seq<Plain>)
    requires AllDense(paragraph)
    ensures FlatOk(Flatten(paragraph))
    decreases |paragraph|
  {
    if paragraph != [] {
      var n := |paragraph| - 1;
      FlattenOk(paragraph[..n]);
      AddKeepsFlat(Flatten(paragraph[..n]), paragraph[n]);
    }
  }

  // ---------- what segmentation must conserve ----------

  /** A word without what the rebuild resets. */
  function Bare(w: Word): Word { w.(id := 0, head := -1, children := []) }

  function BareWords(ws: seq<Word>): (r: seq<Word>)
    ensures |r| == |ws| && forall k | 0 <= k < |ws| :: r[k] == Bare(ws[k])
  {
    seq(|ws|, k requires 0 <= k < |ws| => Bare(ws[k]))
  }

  /** All words of a list of sentences, without their roots. */
  function Content(paragraph: seq<Plain>): seq<Word> {
    if paragraph == [] then []
    else Content(paragraph[..|paragraph| - 1]) + Own(paragraph[|paragraph| - 1])
  }

  function Own(s: Plain): seq<Word> {
    if s.words == [] then [] else BareWords(s.words[1..])
  }

  /** A multiword token without its position. */
  function Label(m: MultiwordToken): MultiwordToken { m.(idFirst := 0, idLast := m.idLast - m.idFirst) }

  function Labels(ms: seq<MultiwordToken>): (r: seq<MultiwordToken>)
    ensures |r| == |ms| && forall k | 0 <= k < |ms| :: r[k] == Label(ms[k])
  {
    seq(|ms|, k requires 0 <= k < |ms| => Label(ms[k]))
  }

  function Multiwords(paragraph: seq<Plain>): seq<MultiwordToken> {
    if paragraph == [] then []
    else Multiwords(paragraph[..|paragraph| - 1]) + Labels(paragraph[|paragraph| - 1].mwts)
  }

  lemma {:induction false} BareAppend(a: seq<Word>, b: seq<Word>, shift: int)
    ensures BareWords(a + MoveWords(b, shift)) == BareWords(a) + BareWords(b)
  {
  }

  lemma {:induction false} LabelsAppend(a: seq<MultiwordToken>, b: seq<MultiwordToken>, shift: int)
    ensures Labels(a + MoveRanges(b, shift)) == Labels(a) + Labels(b)
    ensures Labels(MoveRanges(b, shift)) == Labels(b)
    ensures Labels(a + b) == Labels(a) + Labels(b)
  {
  }

  lemma {:induction false} AddedWords(f: Flat, s: Plain)
    requires |f.words| >= 1 && |s.words| >= 1
    ensures AddSentence(f, s).words[1..] == f.words[1..] + MoveWords(s.words[1..], |f.words| - 1)
  {
  }

  lemma {:induction false} FlattenConserves(paragraph: seq<Plain>)
    requires AllDense(paragraph)
    ensures BareWords(Flatten(paragraph).words[1..]) == Content(paragraph)
    ensures Labels(Flatten(paragraph).mwts) == Multiwords(paragraph)
    decreases |paragraph|
  {
    if paragraph != [] {
      var n := |paragraph| - 1;
      FlattenConserves(paragraph[..n]);
      var f, s := Flatten(paragraph[..n]), paragraph[n];
      assert Dense(s);
      var offset := |f.words| - 1;
      AddedWords(f, s);
      BareAppend(f.words[1..], s.words[1..], offset);
      LabelsAppend(f.mwts, s.mwts, offset);
    }
  }

  // ---------- rebuilding ----------

  /** The number of leading multiword tokens that start at or before `limit`. */
  function CountUpTo(mwts: seq<MultiwordToken>, limit: int): (c: nat)
    ensures c <= |mwts| && forall j | 0 <= j < c :: mwts[j].idFirst <= limit
    ensures c < |mwts| ==> mwts[c].idFirst > limit
  {
    if mwts == [] || mwts[0].idFirst > limit then 0 else 1 + CountUpTo(mwts[1..], limit)
  }

  function Reset(w: Word, shift: int): Word { MoveWord(w, shift).(head := -1, children := []) }

  function WordsOf(ws: seq<Word>, a: nat, b: nat): (r: seq<Word>)
    requires a <= b < |ws|
    ensures |r| == b - a && forall k | 0 <= k < b - a :: r[k] == Reset(ws[a + 1 + k], -(a as int))
  {
    seq(b - a, k requires 0 <= k < b - a => Reset(ws[a + 1 + k], -(a as int)))
  }

  function RangesOf(mwts: seq<MultiwordToken>, a: nat, b: nat): seq<MultiwordToken> {
    var from, to := CountUpTo(mwts, a), CountUpTo(mwts, b);
    if from <= to then MoveRanges(mwts[from..to], -(a as int)) else []
  }

  /** The rebuilt sentence over the words a+1 to b. */
  function PieceOf(f: Flat, a: nat, b: nat): Plain
    requires a <= b < |f.words|
  {
    Plain([ROOT] + WordsOf(f.words, a, b), RangesOf(f.mwts, a, b))
  }

  lemma {:induction false} CountMonotone(mwts: seq<MultiwordToken>, a: int, b: int)
    requires a <= b
    ensures CountUpTo(mwts, a) <= CountUpTo(mwts, b)
  {
    var c, d := CountUpTo(mwts, a), CountUpTo(mwts, b);
  }

  /** A multiword token that starts after boundary a and at or before boundary b ends at or before b. */
  lemma {:induction false} RangesInside(n: nat, mwts: seq<MultiwordToken>, a: nat, b: nat)
    requires OrderedRanges(n, mwts) && a <= b && !Inside(mwts, b)
    ensures OrderedRanges(b - a + 1, RangesOf(mwts, a, b))
    ensures forall m | m in RangesOf(mwts, a, b) :: MoveRange(m, a) in mwts
  {
    CountMonotone(mwts, a, b);
    var from, to := CountUpTo(mwts, a), CountUpTo(mwts, b);
    var r := RangesOf(mwts, a, b);
    forall j {:trigger r[j]} | 0 <= j < |r|
      ensures r[j] == MoveRange(mwts[from + j], -(a as int)) && MoveRange(r[j], a) == mwts[from + j]
      ensures 1 <= r[j].idFirst <= r[j].idLast < b - a + 1
    {
      var m := mwts[from + j];
      assert m.idFirst >= mwts[from].idFirst > a;
      assert mwts[from + j].idFirst <= b < m.idLast ==> Inside(mwts, b);
    }
  }

  /** Between two token boundaries the rebuilt sentence is well formed: ids dense from 1, and every multiword
      token that starts in it also ends in it. */
  lemma {:induction false} PieceDense(f: Flat, a: nat, b: nat)
    requires FlatOk(f) && a <= b < |f.words| && f.tokenBoundary[a] && f.tokenBoundary[b]
    ensures Dense(PieceOf(f, a, b)) && |PieceOf(f, a, b).words| == b - a + 1
    ensures forall m | m in PieceOf(f, a, b).mwts :: MoveRange(m, a) in f.mwts
  {
    RangesInside(|f.words|, f.mwts, a, b);
    var ws := WordsOf(f.words, a, b);
    assert forall k | 0 <= k < |ws| :: ws[k].id == k + 1;
  }

  ghost predicate CutsFit(f: Flat, cuts: seq<nat>) {
    && FlatOk(f) && |cuts| > 0 && cuts[0] == 0
    && (forall k | 0 <= k < |cuts| :: cuts[k] < |f.words| && f.tokenBoundary[cuts[k]])
    && (forall k, l | 0 <= k < |cuts| && 0 <= l < |cuts| && l == k + 1 :: cuts[k] < cuts[l])
  }

  /** The pieces before the n-th cut. */
  ghost predicate RebuiltUpTo(f: Flat, cuts: seq<nat>, r: seq<Plain>, n: nat)
    decreases n
  {
    && |r| + 1 == n <= |cuts|
    && (r != [] ==>
          && cuts[n - 2] <= cuts[n - 1] < |f.words| && r[n - 2] == PieceOf(f, cuts[n - 2], cuts[n - 1])
          && RebuiltUpTo(f, cuts, r[..n - 2], n - 1))
  }

  ghost predicate Rebuilt(f: Flat, cuts: seq<nat>, r: seq<Plain>) {
    RebuiltUpTo(f, cuts, r, |cuts|)
  }

  lemma {:induction false} CutsAt(f: Flat, cuts: seq<nat>, k: nat)
    requires CutsFit(f, cuts) && k + 1 < |cuts|
    ensures cuts[k] < cuts[k + 1] < |f.words| && f.tokenBoundary[cuts[k]] && f.tokenBoundary[cuts[k + 1]]
  {
  }

  /** One rebuilt piece holds the words a+1 to b ... */
  lemma {:induction false} PieceWords(f: Flat, a: nat, b: nat)
    requires a <= b < |f.words|
    ensures BareWords(f.words[1..b + 1]) == BareWords(f.words[1..a + 1]) + Own(PieceOf(f, a, b))
  {
    assert PieceOf(f, a, b).words[1..] == WordsOf(f.words, a, b);
  }

  /** ... and the multiword tokens that start in it. */
  lemma {:induction false} PieceRanges(f: Flat, a: nat, b: nat)
    requires a <= b < |f.words|
    ensures CountUpTo(f.mwts, a) <= CountUpTo(f.mwts, b)
    ensures Labels(f.mwts[..CountUpTo(f.mwts, b)]) ==
            Labels(f.mwts[..CountUpTo(f.mwts, a)]) + Labels(PieceOf(f, a, b).mwts)
  {
    CountMonotone(f.mwts, a, b);
    var from, to := CountUpTo(f.mwts, a), CountUpTo(f.mwts, b);
    assert f.mwts[..to] == f.mwts[..from] + f.mwts[from..to];
    assert PieceOf(f, a, b).mwts == MoveRanges(f.mwts[from..to], -(a as int));
    LabelsAppend(f.mwts[..from], f.mwts[from..to], -(a as int));
  }

  /** Nothing of f up to position a is lost in the sentences r. */
  ghost predicate ConservedUpTo(f: Flat, a: nat, r: seq<Plain>) {
    && a < |f.words|
    && Content(r) == BareWords(f.words[1..a + 1])
    && Multiwords(r) == Labels(f.mwts[..CountUpTo(f.mwts, a)])
  }

  lemma {:induction false} StepConserves(f: Flat, a: nat, b: nat, r: seq<Plain>)
    requires a <= b < |f.words| && ConservedUpTo(f, a, r)
    ensures ConservedUpTo(f, b, r + [PieceOf(f, a, b)])
  {
    PieceWords(f, a, b);
    PieceRanges(f, a, b);
    assert (r + [PieceOf(f, a, b)])[..|r|] == r;
  }

  lemma {:induction false} NothingTaken(f: Flat, r: seq<Plain>)
    requires |f.words| >= 1 && (forall m | m in f.mwts :: m.idFirst >= 1) && r == []
    ensures ConservedUpTo(f, 0, r)
  {
    assert CountUpTo(f.mwts, 0) == 0;
  }

  lemma {:induction false} RebuiltLast(f: Flat, cuts: seq<nat>, r: seq<Plain>, n: nat)
    requires RebuiltUpTo(f, cuts, r, n) && r != []
    ensures cuts[n - 2] <= cuts[n - 1] < |f.words| && r == r[..n - 2] + [PieceOf(f, cuts[n - 2], cuts[n - 1])]
    ensures RebuiltUpTo(f, cuts, r[..n - 2], n - 1)
  {
  }

  lemma {:induction false} DenseAppend(before: seq<Plain>, piece: Plain)
    requires AllDense(before) && Dense(piece)
    ensures AllDense(before + [piece])
  {
  }

  /** Rebuilding loses, repeats and reorders nothing, neither words nor multiword tokens, and every
      rebuilt sentence is well formed. */
  lemma {:induction false} RebuildConserves(f: Flat, cuts: seq<nat>, r: seq<Plain>, n: nat)
    requires CutsFit(f, cuts) && RebuiltUpTo(f, cuts, r, n)
    ensures AllDense(r) && ConservedUpTo(f, cuts[n - 1], r)
    decreases n
  {
    if r == [] {
      NothingTaken(f, r);
    } else {
      var a, b, before := cuts[n - 2], cuts[n - 1], r[..n - 2];
      CutsAt(f, cuts, n - 2);
      RebuildConserves(f, cuts, before, n - 1);
      RebuiltLast(f, cuts, r, n);
      StepConserves(f, a, b, before);
      PieceDense(f, a, b);
      DenseAppend(before, PieceOf(f, a, b));
    }
  }

  // ---------- the procedure ----------

  function ProblemOf(f: Flat, maxLength: nat, cost: (nat, nat) -> Option<real>, sentenceLogprob: real,
      changeLogprob: real): Problem {
    Problem(f.tokenBoundary, f.sentenceBoundary, maxLength, cost, sentenceLogprob, changeLogprob)
  }

  lemma {:induction false} FlatGivesProblem(f: Flat, maxLength: nat, cost: (nat, nat) -> Option<real>,
      sentenceLogprob: real, changeLogprob: real)
    requires FlatOk(f)
    ensures ValidProblem(ProblemOf(f, maxLength, cost, sentenceLogprob, changeLogprob))
  {
    assert !Inside(f.mwts, 0) && !Inside(f.mwts, |f.words| - 1);
  }

  lemma {:induction false} GapsFitOnly(f: Flat, p: Problem)
    requires FlatOk(f) && |f.words| > 1 && ValidProblem(p) && p.tokenBoundary == f.tokenBoundary && GapsFit(p)
    ensures p.maxLength >= 1 && forall k | 0 <= k < |f.mwts| :: f.mwts[k].idLast - f.mwts[k].idFirst + 1 <= p.maxLength
  {
    assert Size(p) > 0 && p.tokenBoundary[0];
    var e: nat :| Piece(p, 0, e);
    forall k | 0 <= k < |f.mwts| ensures f.mwts[k].idLast - f.mwts[k].idFirst + 1 <= p.maxLength {
      var i := f.mwts[k].idFirst - 1;
      assert !Inside(f.mwts, i);
      var j: nat :| Piece(p, i, j);
      if j < f.mwts[k].idLast { assert Inside(f.mwts, j); }
    }
  }

  lemma {:induction false} GapsFitExactly(f: Flat, maxLength: nat, cost: (nat, nat) -> Option<real>,
      sentenceLogprob: real, changeLogprob: real)
    requires FlatOk(f) && |f.words| > 1
    ensures ValidProblem(ProblemOf(f, maxLength, cost, sentenceLogprob, changeLogprob))
    ensures GapsFit(ProblemOf(f, maxLength, cost, sentenceLogprob, changeLogprob)) <==>
              maxLength >= 1 && forall j | 0 <= j < |f.mwts| :: f.mwts[j].idLast - f.mwts[j].idFirst + 1 <= maxLength
  {
    var p := ProblemOf(f, maxLength, cost, sentenceLogprob, changeLogprob);
    FlatGivesProblem(f, maxLength, cost, sentenceLogprob, changeLogprob);
    var n := Size(p);
    if GapsFit(p) { GapsFitOnly(f, p); }
    if maxLength >= 1 && forall j | 0 <= j < |f.mwts| :: f.mwts[j].idLast - f.mwts[j].idFirst + 1 <= maxLength {
      forall i: nat | i < n && p.tokenBoundary[i] ensures exists j: nat :: Piece(p, i, j) {
        if Inside(f.mwts, i + 1) {
          var k :| 0 <= k < |f.mwts| && f.mwts[k].idFirst <= i + 1 < f.mwts[k].idLast;
          assert !Inside(f.mwts, i);
          var j := f.mwts[k].idLast;
          assert !Inside(f.mwts, j);
          assert Piece(p, i, j);
        } else {
          assert Piece(p, i, i + 1);
        }
      }
    }
  }

  /** Every multiword token of the paragraph fits in the maximum sentence length, and so does a single word. */
  predicate LengthsFit(paragraph: seq<Plain>, maxLength: nat) {
    Content(paragraph) != [] ==> maxLength >= 1 && forall m | m in Multiwords(paragraph) :: m.idLast + 1 <= maxLength
  }

  /** The backtrack ends exactly when the lengths fit: otherwise its position never moves. */
  lemma {:induction false} FitsExactly(paragraph: seq<Plain>, maxLength: nat, cost: (nat, nat) -> Option<real>,
      sentenceLogprob: real, changeLogprob: real)
    requires AllDense(paragraph)
    ensures ValidProblem(ProblemOf(Flatten(paragraph), maxLength, cost, sentenceLogprob, changeLogprob))
    ensures GapsFit(ProblemOf(Flatten(paragraph), maxLength, cost, sentenceLogprob, changeLogprob)) <==>
            LengthsFit(paragraph, maxLength)
  {
    var f := Flatten(paragraph);
    FlattenOk(paragraph);
    FlattenConserves(paragraph);
    FlatGivesProblem(f, maxLength, cost, sentenceLogprob, changeLogprob);
    var labels := Labels(f.mwts);
    assert forall j | 0 <= j < |f.mwts| ::
        labels[j] in labels && labels[j].idLast == f.mwts[j].idLast - f.mwts[j].idFirst;
    if |f.words| > 1 {
      GapsFitExactly(f, maxLength, cost, sentenceLogprob, changeLogprob);
      assert |Content(paragraph)| == |f.words| - 1;
    }
  }

  /** The flattening loops. */
  method FlattenParagraph(paragraph: seq<Plain>) returns (f: Flat)
    requires AllDense(paragraph)
    ensures f == Flatten(paragraph)
  {
    f := EMPTY;
    for i := 0 to |paragraph|
      invariant f == Flatten(paragraph[..i])
    {
      assert Dense(paragraph[i]);
      FlattenOk(paragraph[..i]);
      assert paragraph[..i + 1][..i] == paragraph[..i];
      f := AppendSentence(f, paragraph[i]);
    }
    assert paragraph[..|paragraph|] == paragraph;
  }

  method AppendSentence(f: Flat, s: Plain) returns (r: Flat)
    requires |f.words| == |f.tokenBoundary| >= 1 && Dense(s)
    requires forall j | 0 <= j < |s.mwts| :: s.mwts[j].idFirst >= 1
    ensures r == AddSentence(f, s)
  {
    var offset, n := |f.words| - 1, |s.words| - 1;
    var words, sentenceBoundary, tokenBoundary := f.words, f.sentenceBoundary, f.tokenBoundary;
    for i := 1 to |s.words|
      invariant words == f.words + MoveWords(s.words[1..i], offset)
      invariant sentenceBoundary == f.sentenceBoundary + seq(i - 1, k => k + 1 == n)
      invariant tokenBoundary == f.tokenBoundary + seq(i - 1, k => true)
    {
      assert seq(i, k => k + 1 == n) == seq(i - 1, k => k + 1 == n) + [i == n];
      assert seq(i, k => true) == seq(i - 1, k => true) + [true];
      words := words + [MoveWord(s.words[i], offset)];
      sentenceBoundary := sentenceBoundary + [i + 1 == |s.words|];
      tokenBoundary := tokenBoundary + [true];
    }
    assert s.words[1..|s.words|] == s.words[1..];
    ghost var all := tokenBoundary;
    ghost var moved := MoveRanges(s.mwts, offset);
    var mwts := f.mwts;
    for j := 0 to |s.mwts|
      invariant mwts == f.mwts + moved[..j]
      invariant tokenBoundary == Clear(all, moved[..j])
    {
      var m := MoveRange(s.mwts[j], offset);
      mwts := mwts + [m];
      ghost var before := tokenBoundary;
      for i := m.idFirst to m.idLast
        invariant |tokenBoundary| == |all|
        invariant forall k | 0 <= k < |all| :: tokenBoundary[k] == (before[k] && !(m.idFirst <= k < i))
      {
        tokenBoundary := tokenBoundary[i := false];
      }
      assert moved[..j + 1] == moved[..j] + [m];
      forall k | 0 <= k < |all| ensures tokenBoundary[k] == (all[k] && !Inside(moved[..j + 1], k)) {
        InsideAppend(moved[..j], [m], k);
        assert Inside([m], k) <==> m.idFirst <= k < m.idLast by { assert [m][0] == m; }
      }
    }
    assert moved[..|s.mwts|] == moved;
    r := Flat(words, mwts, sentenceBoundary, tokenBoundary);
  }

  /** `ends` holds the prefix sums up to position i - 1 and the lengths after it. */
  ghost predicate PartialSums(lengths: seq<nat>, cuts: seq<nat>, ends: seq<nat>, i: nat) {
    && |ends| == |cuts| == |lengths| + 1 && 1 <= i <= |ends|
    && ends[i - 1] == cuts[i - 1] + 1
    && forall k, l | i <= k < |ends| && 0 <= l < |lengths| && l + k == |lengths| :: ends[k] == lengths[l]
  }

  lemma {:induction false} PartialStep(lengths: seq<nat>, cuts: seq<nat>, ends: seq<nat>, i: nat)
    requires LengthsOf(lengths, cuts) && PartialSums(lengths, cuts, ends, i) && i < |ends|
    ensures var sums := ends[i := ends[i] + ends[i - 1]];
            PartialSums(lengths, cuts, sums, i + 1) && sums[i - 1] == cuts[i - 1] + 1 && sums[i] == cuts[i] + 1
  {
    var l: nat := |lengths| - i;
    assert ends[i] == lengths[l] && cuts[i] == cuts[i - 1] + lengths[l];
  }

  /** The rebuilding loop: `lengths` lists the pieces' lengths, last piece first. */
  method Rebuild(f: Flat, lengths: seq<nat>, ghost cuts: seq<nat>) returns (r: seq<Plain>)
    requires CutsFit(f, cuts) && LengthsOf(lengths, cuts)
    ensures Rebuilt(f, cuts, r)
  {
    r := [];
    var mwts := f.mwts;
    var ends: seq<nat> := [1] + Reversed(lengths);
    assert CountUpTo(f.mwts, 0) == 0;
    for i := 1 to |ends|
      invariant PartialSums(lengths, cuts, ends, i)
      invariant mwts == f.mwts[CountUpTo(f.mwts, cuts[i - 1])..]
      invariant RebuiltUpTo(f, cuts, r, i)
    {
      var piece;
      ends, piece, mwts := NextPiece(f, lengths, cuts, ends, i, mwts);
      assert (r + [piece])[..i - 1] == r;
      r := r + [piece];
    }
  }

  method NextPiece(f: Flat, ghost lengths: seq<nat>, ghost cuts: seq<nat>, ends: seq<nat>, i: nat,
      mwts: seq<MultiwordToken>)
    returns (sums: seq<nat>, piece: Plain, rest: seq<MultiwordToken>)
    requires CutsFit(f, cuts) && LengthsOf(lengths, cuts) && PartialSums(lengths, cuts, ends, i) && i < |ends|
    requires mwts == f.mwts[CountUpTo(f.mwts, cuts[i - 1])..]
    ensures PartialSums(lengths, cuts, sums, i + 1)
    ensures cuts[i - 1] < cuts[i] < |f.words| && piece == PieceOf(f, cuts[i - 1], cuts[i])
    ensures rest == f.mwts[CountUpTo(f.mwts, cuts[i])..]
  {
    PartialStep(lengths, cuts, ends, i);
    CutsAt(f, cuts, i - 1);
    sums := ends[i := ends[i] + ends[i - 1]];
    piece, rest := TakePiece(f, mwts, sums[i - 1], sums[i], cuts[i - 1], cuts[i]);
  }

  function Reversed(s: seq<nat>): (r: seq<nat>)
    ensures |r| == |s| && forall k, l | 0 <= k < |s| && 0 <= l < |s| && k + l == |s| - 1 :: r[k] == s[l]
  {
    seq(|s|, k requires 0 <= k < |s| => s[|s| - 1 - k])
  }

  method TakePiece(f: Flat, mwts: seq<MultiwordToken>, first: nat, end: nat, ghost a: nat, ghost b: nat)
    returns (piece: Plain, rest: seq<MultiwordToken>)
    requires first == a + 1 && end == b + 1 && a < b < |f.words|
    requires mwts == f.mwts[CountUpTo(f.mwts, a)..]
    ensures piece == PieceOf(f, a, b)
    ensures rest == f.mwts[CountUpTo(f.mwts, b)..]
  {
    var own, words;
    own, rest := TakeRanges(f.mwts, mwts, first, end, a, b);
    words := TakeWords(f.words, first, end, a, b);
    piece := Plain(words, own);
  }

  /** The ranges from `from` on are taken up to `taken`, and `rest` are the others. */
  ghost predicate Taking(all: seq<MultiwordToken>, from: nat, taken: nat, shift: int, own: seq<MultiwordToken>,
      rest: seq<MultiwordToken>) {
    from <= taken <= |all| && rest == all[taken..] && own == MoveRanges(all[from..taken], shift)
  }

  lemma {:induction false} TakingNext(all: seq<MultiwordToken>, from: nat, taken: nat, shift: int,
      own: seq<MultiwordToken>, rest: seq<MultiwordToken>)
    requires Taking(all, from, taken, shift, own, rest) && rest != []
    ensures Taking(all, from, taken + 1, shift, own + [MoveRange(rest[0], shift)], rest[1..])
  {
    assert all[from..taken + 1] == all[from..taken] + [rest[0]];
  }

  method TakeRanges(all: seq<MultiwordToken>, mwts: seq<MultiwordToken>, first: nat, end: nat, ghost a: nat,
      ghost b: nat)
    returns (own: seq<MultiwordToken>, rest: seq<MultiwordToken>)
    requires first == a + 1 && end == b + 1 && a < b
    requires mwts == all[CountUpTo(all, a)..]
    ensures own == RangesOf(all, a, b)
    ensures rest == all[CountUpTo(all, b)..]
  {
    var shift: int := -(first - 1);
    CountMonotone(all, a, b);
    ghost var from: nat, taken: nat := CountUpTo(all, a), CountUpTo(all, a);
    own, rest := [], mwts;
    while rest != [] && rest[0].idFirst < end
      invariant taken <= CountUpTo(all, b) && Taking(all, from, taken, shift, own, rest)
      decreases |rest|
    {
      CountedExactly(all, b, taken);
      TakingNext(all, from, taken, shift, own, rest);
      own := own + [MoveRange(rest[0], shift)];
      rest := rest[1..];
      taken := taken + 1;
    }
    CountedExactly(all, b, taken);
  }

  lemma {:induction false} CountedExactly(all: seq<MultiwordToken>, b: nat, k: nat)
    requires k <= CountUpTo(all, b)
    ensures k < CountUpTo(all, b) <==> k < |all| && all[k].idFirst <= b
  {
  }

  method TakeWords(all: seq<Word>, first: nat, end: nat, ghost a: nat, ghost b: nat) returns (words: seq<Word>)
    requires first == a + 1 && end == b + 1 && a < b < |all|
    ensures words == [ROOT] + WordsOf(all, a, b)
  {
    words := [ROOT];
    var shift: int := -(first - 1);
    for k := first to end
      invariant words == [ROOT] + WordsOf(all, a, k - 1)
    {
      words := words + [MoveWord(all[k], shift).(head := -1, children := [])];
    }
  }

  /** The outcome of parse_paragraph over the paragraph's flattened form. */
  ghost predicate Outcome(paragraph: seq<Plain>, p: Problem, ok: bool, r: seq<Plain>)
    requires AllDense(paragraph) && ValidProblem(p)
  {
    && (ok <==> ParserAccepts(p))
    && (!ok ==> r == paragraph)
    && (ok ==>
          && (exists cuts :: CutAt(Flatten(paragraph), p, cuts, r))
          && AllDense(r) && Content(r) == Content(paragraph) && Multiwords(r) == Multiwords(paragraph))
  }

  /** Rebuilt at the cuts of a best segmentation. */
  ghost predicate CutAt(f: Flat, p: Problem, cuts: seq<nat>, r: seq<Plain>)
    requires ValidProblem(p)
  {
    Segmentation(p, cuts, Size(p)) && Best(p, cuts) && CutsFit(f, cuts) && Rebuilt(f, cuts, r)
  }

  /** No segmentation of the whole paragraph has a higher total, and of those with the same total none has a longer last
      piece, and so on from the back. */
  ghost predicate Best(p: Problem, cuts: seq<nat>)
    requires ValidProblem(p)
  {
    && |cuts| > 0 && (forall k | 0 <= k < |cuts| :: cuts[k] <= Size(p))
    && forall other | Segmentation(p, other, Size(p)) ::
         && (forall k | 0 <= k < |other| :: other[k] <= Size(p)) && Total(p, cuts) >= Total(p, other)
         && (Total(p, cuts) == Total(p, other) ==> Preferred(cuts, other))
  }

  lemma {:induction false} CutsBest(p: Problem, best: seq<Score>, length: seq<nat>)
    requires ValidProblem(p) && Tabled(p, best, length, Size(p)) && best[Size(p)].Finite?
    ensures Best(p, Cuts(p, best, length, Size(p)))
  {
    CutsAttain(p, best, length, Size(p));
    forall other | Segmentation(p, other, Size(p))
      ensures (forall k | 0 <= k < |other| :: other[k] <= Size(p)) &&
              Total(p, Cuts(p, best, length, Size(p))) >= Total(p, other)
      ensures Total(p, Cuts(p, best, length, Size(p))) == Total(p, other) ==>
                Preferred(Cuts(p, best, length, Size(p)), other)
    {
      BacktrackOptimal(p, best, length, other);
      if Total(p, Cuts(p, best, length, Size(p))) == Total(p, other) {
        BacktrackPreferred(p, best, length, Size(p), other);
      }
    }
  }

  ghost predicate Accepts(p: Problem) { ValidProblem(p) && ParserAccepts(p) }

  // ---------- the total, told from the paragraph ----------

  /** The number of words in the first n sentences. */
  function WordsBefore(paragraph: seq<Plain>, n: nat): nat
    requires n <= |paragraph|
  {
    if n == 0 then 0
    else WordsBefore(paragraph, n - 1) + if paragraph[n - 1].words == [] then 0 else |paragraph[n - 1].words| - 1
  }

  /** A sentence of the paragraph ends at this position, or none has begun. */
  predicate SentenceEnd(paragraph: seq<Plain>, b: nat) {
    exists n | 0 <= n <= |paragraph| :: WordsBefore(paragraph, n) == b
  }

  lemma {:induction false} WordsBeforePrefix(paragraph: seq<Plain>, m: nat, n: nat)
    requires n <= m <= |paragraph|
    ensures WordsBefore(paragraph[..m], n) == WordsBefore(paragraph, n)
    decreases n
  {
    if n > 0 { WordsBeforePrefix(paragraph, m, n - 1); }
  }

  lemma {:induction false} EndsAppend(paragraph: seq<Plain>, b: nat)
    requires paragraph != []
    ensures SentenceEnd(paragraph, b) <==>
              SentenceEnd(paragraph[..|paragraph| - 1], b) || b == WordsBefore(paragraph, |paragraph|)
  {
    var m := |paragraph| - 1;
    forall n | 0 <= n <= m ensures WordsBefore(paragraph[..m], n) == WordsBefore(paragraph, n) {
      WordsBeforePrefix(paragraph, m, n);
    }
    if SentenceEnd(paragraph, b) && b != WordsBefore(paragraph, |paragraph|) {
      var n :| 0 <= n <= |paragraph| && WordsBefore(paragraph, n) == b;
      assert WordsBefore(paragraph[..m], n) == b;
    }
    if SentenceEnd(paragraph[..m], b) {
      var n :| 0 <= n <= m && WordsBefore(paragraph[..m], n) == b;
      assert WordsBefore(paragraph, n) == b;
    }
  }

  /** The marks of the flattened paragraph are the ends of its sentences. */
  lemma {:induction false} MarksAreEnds(paragraph: seq<Plain>)
    requires AllDense(paragraph)
    ensures var f := Flatten(paragraph);
            && |f.sentenceBoundary| == |f.words| == WordsBefore(paragraph, |paragraph|) + 1
            && forall b | 0 <= b < |f.words| :: f.sentenceBoundary[b] <==> SentenceEnd(paragraph, b)
    decreases |paragraph|
  {
    if paragraph == [] {
      assert WordsBefore(paragraph, 0) == 0;
    } else {
      var m := |paragraph| - 1;
      var before, s := Flatten(paragraph[..m]), paragraph[m];
      MarksAreEnds(paragraph[..m]);
      WordsBeforePrefix(paragraph, m, m);
      forall b | 0 <= b < |Flatten(paragraph).words|
        ensures Flatten(paragraph).sentenceBoundary[b] <==> SentenceEnd(paragraph, b)
      {
        EndsAppend(paragraph, b);
        EndsBounded(paragraph[..m], b);
      }
    }
  }

  lemma {:induction false} EndsBounded(paragraph: seq<Plain>, b: nat)
    ensures SentenceEnd(paragraph, b) ==> b <= WordsBefore(paragraph, |paragraph|)
    ensures SentenceEnd(paragraph, WordsBefore(paragraph, |paragraph|))
  {
    forall n: nat | n <= |paragraph| ensures WordsBefore(paragraph, n) <= WordsBefore(paragraph, |paragraph|) {
      WordsGrow(paragraph, n, |paragraph|);
    }
  }

  lemma {:induction false} WordsGrow(paragraph: seq<Plain>, n: nat, m: nat)
    requires n <= m <= |paragraph|
    ensures WordsBefore(paragraph, n) <= WordsBefore(paragraph, m)
    decreases m
  {
    if n < m { WordsGrow(paragraph, n, m - 1); }
  }

  /** How many of the positions end no sentence of the paragraph. */
  ghost function NewEnds(paragraph: seq<Plain>, positions: seq<nat>): nat {
    if positions == [] then 0
    else
      var n := |positions| - 1;
      NewEnds(paragraph, positions[..n]) + if SentenceEnd(paragraph, positions[n]) then 0 else 1
  }

  lemma {:induction false} UnmarkedAreNew(paragraph: seq<Plain>, positions: seq<nat>)
    requires AllDense(paragraph) && forall k | 0 <= k < |positions| :: positions[k] < |Flatten(paragraph).words|
    ensures Unmarked(Flatten(paragraph).sentenceBoundary, positions) == NewEnds(paragraph, positions)
    decreases |positions|
  {
    if positions != [] {
      MarksAreEnds(paragraph);
      UnmarkedAreNew(paragraph, positions[..|positions| - 1]);
    }
  }

  /** The total that a segmentation of a paragraph is judged by: the costs of the pieces, one sentence log-probability
      for each of them, and two change log-probabilities for each inner cut at which no sentence of the paragraph ended.
      */
  lemma {:induction false} ParagraphTotal(paragraph: seq<Plain>, p: Problem, cuts: seq<nat>)
    requires AllDense(paragraph) && ValidProblem(p) && p.sentenceBoundary == Flatten(paragraph).sentenceBoundary
    requires Segmentation(p, cuts, Size(p))
    ensures forall k | 0 <= k < |cuts| :: cuts[k] <= Size(p)
    ensures Total(p, cuts) ==
            Parts(CostSum(p, cuts), |cuts| - 1, p.sentenceLogprob, 2 * NewEnds(paragraph, Inner(cuts)), p.changeLogprob)
  {
    EndsMarked(paragraph);
    TotalClosed(p, cuts);
    InnerInside(p, cuts);
    UnmarkedAreNew(paragraph, Inner(cuts));
  }

  lemma {:induction false} EndsMarked(paragraph: seq<Plain>)
    requires AllDense(paragraph)
    ensures var marks := Flatten(paragraph).sentenceBoundary;
            |marks| == |Flatten(paragraph).words| >= 1 && marks[0] && marks[|marks| - 1]
  {
    MarksAreEnds(paragraph);
    EndsBounded(paragraph, 0);
    assert WordsBefore(paragraph, 0) == 0 && SentenceEnd(paragraph, 0);
  }

  lemma {:induction false} InnerInside(p: Problem, cuts: seq<nat>)
    requires ValidProblem(p) && forall k | 0 <= k < |cuts| :: cuts[k] <= Size(p)
    ensures forall k | 0 <= k < |Inner(cuts)| :: Inner(cuts)[k] <= Size(p)
  {
    assert forall k | 0 <= k < |Inner(cuts)| :: Inner(cuts)[k] == cuts[k + 1];
  }

  /** The whole of parse_paragraph. When the parser accepts every candidate piece, the paragraph is cut at token
      boundaries into pieces of at most maxLength words with the best total score, and rebuilt from them. */
  method ParseParagraph(paragraph: seq<Plain>, maxLength: nat, cost: (nat, nat) -> Option<real>,
      sentenceLogprob: real, changeLogprob: real)
    returns (ok: bool, r: seq<Plain>)
    requires AllDense(paragraph)
    requires LengthsFit(paragraph, maxLength) ||
             !Accepts(ProblemOf(Flatten(paragraph), maxLength, cost, sentenceLogprob, changeLogprob))
    ensures ValidProblem(ProblemOf(Flatten(paragraph), maxLength, cost, sentenceLogprob, changeLogprob))
    ensures Outcome(paragraph, ProblemOf(Flatten(paragraph), maxLength, cost, sentenceLogprob, changeLogprob), ok, r)
  {
    var f := FlattenParagraph(paragraph);
    var p := ProblemOf(f, maxLength, cost, sentenceLogprob, changeLogprob);
    FlattenOk(paragraph);
    FitsExactly(paragraph, maxLength, cost, sentenceLogprob, changeLogprob);
    var best, length;
    ok, best, length := Forward(p);
    r := paragraph;
    if !ok { return; }
    var lengths := Backtrack(p, best, length);
    ghost var cuts := Cuts(p, best[..], length[..], Size(p));
    CutsBest(p, best[..], length[..]);
    SegmentationFits(f, p, cuts);
    r := Rebuild(f, lengths, cuts);
    RebuiltWell(paragraph, p, cuts, r);
  }

  lemma {:induction false} RebuiltWell(paragraph: seq<Plain>, p: Problem, cuts: seq<nat>, r: seq<Plain>)
    requires AllDense(paragraph) && ValidProblem(p) && ParserAccepts(p) && CutAt(Flatten(paragraph), p, cuts, r)
    requires |cuts| > 0 && cuts[|cuts| - 1] == Size(p) == |Flatten(paragraph).words| - 1
    ensures Outcome(paragraph, p, true, r)
  {
    RebuiltContent(Flatten(paragraph), cuts, r);
    FlattenConserves(paragraph);
  }

  lemma {:induction false} RebuiltContent(f: Flat, cuts: seq<nat>, r: seq<Plain>)
    requires CutsFit(f, cuts) && Rebuilt(f, cuts, r) && cuts[|cuts| - 1] == |f.words| - 1
    ensures AllDense(r) && Content(r) == BareWords(f.words[1..]) && Multiwords(r) == Labels(f.mwts)
  {
    RebuildConserves(f, cuts, r, |cuts|);
    AllConserved(f, r);
  }

  lemma {:induction false} AllConserved(f: Flat, r: seq<Plain>)
    requires FlatOk(f) && ConservedUpTo(f, |f.words| - 1, r)
    ensures Content(r) == BareWords(f.words[1..]) && Multiwords(r) == Labels(f.mwts)
  {
    AllTaken(f);
  }

  lemma {:induction false} AllTaken(f: Flat)
    requires FlatOk(f)
    ensures CountUpTo(f.mwts, |f.words| - 1) == |f.mwts| && f.mwts[..|f.mwts|] == f.mwts
    ensures f.words[1..|f.words|] == f.words[1..]
  {
  }

  lemma {:induction false} SegmentationFits(f: Flat, p: Problem, cuts: seq<nat>)
    requires FlatOk(f) && ValidProblem(p) && p.tokenBoundary == f.tokenBoundary && Segmentation(p, cuts, Size(p))
    ensures CutsFit(f, cuts)
  {
    CutsInside(p, cuts, Size(p));
    forall k | 0 <= k < |cuts| ensures f.tokenBoundary[cuts[k]] {
      if k > 0 { assert Piece(p, cuts[k - 1], cuts[k]); }
    }
  }
}
